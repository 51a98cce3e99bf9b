/** The two phone-number patterns of the system: the form's `phoneRegex`
    and the request DTO's `@Pattern`. Both describe a Korean mobile number
    `01X-NNN(N)-NNNN`; `\d` is an ASCII digit in both regex dialects. */
module Phone {
  import opened Text

  /** The prefixes the backend pattern lists as alternatives. */
  const MobilePrefixes: set<string> := {"010", "011", "016", "017", "018", "019"}

  /** `\d{3,4}-\d{4}$`: a three- or four-digit middle part, a dash and four
      final digits, then the end of the input. */
  predicate PhoneTail(t: string) {
    || (|t| == 8 && AllDigits(t[..3]) && t[3] == '-' && AllDigits(t[4..]))
    || (|t| == 9 && AllDigits(t[..4]) && t[4] == '-' && AllDigits(t[5..]))
  }

  /** The frontend `^(01[016789])-\d{3,4}-\d{4}$`. */
  predicate FrontPhone(s: string) {
    |s| >= 4 && s[0] == '0' && s[1] == '1' && s[2] in "016789" && s[3] == '-' && PhoneTail(s[4..])
  }

  /** The backend `^(010|011|016|017|018|019)-\d{3,4}-\d{4}$`. */
  predicate BackPhone(s: string) {
    |s| >= 4 && s[..3] in MobilePrefixes && s[3] == '-' && PhoneTail(s[4..])
  }

  /** The two patterns accept exactly the same strings, so a number the form
      lets through is never refused by the request validation for its
      shape, and the other way round. */
  lemma SamePattern(s: string)
    ensures FrontPhone(s) <==> BackPhone(s)
  {
    if |s| >= 4 {
      var p := s[..3];
      assert p == [s[0], s[1], s[2]];
      if s[0] == '0' && s[1] == '1' && s[2] in "016789" {
        assert s[2] == '0' || s[2] == '1' || s[2] == '6' || s[2] == '7' || s[2] == '8' || s[2] == '9';
        assert p in MobilePrefixes;
      }
      if p in MobilePrefixes {
        assert p == "010" || p == "011" || p == "016" || p == "017" || p == "018" || p == "019";
        assert s[0] == p[0] && s[1] == p[1] && s[2] == p[2];
      }
    }
  }

  /** A matching number is twelve or thirteen characters long and made of
      digits and dashes only. */
  lemma PhoneCharacters(s: string)
    requires FrontPhone(s)
    ensures |s| == 12 || |s| == 13
    ensures forall k :: 0 <= k < |s| ==> IsDigit(s[k]) || s[k] == '-'
  {
    var t := s[4..];
    forall k | 4 <= k < |s|
      ensures IsDigit(s[k]) || s[k] == '-'
    {
      assert s[k] == t[k - 4];
      if |t| == 8 {
        if k - 4 < 3 { assert t[k - 4] == t[..3][k - 4]; } else if k - 4 > 3 { assert t[k - 4] == t[4..][k - 8]; }
      } else {
        if k - 4 < 4 { assert t[k - 4] == t[..4][k - 4]; } else if k - 4 > 4 { assert t[k - 4] == t[5..][k - 9]; }
      }
    }
  }
}
