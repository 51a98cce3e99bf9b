/** Character and string helpers with the semantics of the JavaScript and Java
    operations the system uses: decimal digits, `padStart`, `<` on strings,
    `includes`/`contains`, `toLowerCase`, `trim` and `split`. */
module Text {

  predicate IsDigit(c: char) {
    '0' <= c <= '9'
  }

  predicate AllDigits(s: string) {
    forall i :: 0 <= i < |s| ==> IsDigit(s[i])
  }

  function DigitChar(d: nat): (c: char)
    requires d < 10
    ensures IsDigit(c)
  {
    ('0' as int + d) as char
  }

  function DigitValue(c: char): (d: nat)
    requires IsDigit(c)
    ensures d < 10
  {
    c as int - '0' as int
  }

  lemma DigitRoundTrip(d: nat)
    requires d < 10
    ensures DigitValue(DigitChar(d)) == d
  {
  }

  /** The number a string of decimal digits denotes (most significant first). */
  function DecimalValue(s: string): nat
    requires AllDigits(s)
  {
    if |s| == 0 then 0 else DecimalValue(s[..|s| - 1]) * 10 + DigitValue(s[|s| - 1])
  }

  function Pow10(n: nat): (r: nat)
    ensures r >= 1
  {
    if n == 0 then 1 else 10 * Pow10(n - 1)
  }

  /** `n` digits denote less than `10^n`, and at least `10^(n-1)` when the
      first one is not zero. */
  lemma {:induction false} DecimalValueBounds(s: string)
    requires AllDigits(s)
    ensures DecimalValue(s) < Pow10(|s|)
    ensures |s| > 0 && s[0] != '0' ==> DecimalValue(s) >= Pow10(|s| - 1)
  {
    if |s| > 0 {
      var init := s[..|s| - 1];
      DecimalValueBounds(init);
      if |s| > 1 {
        assert init[0] == s[0];
      }
    }
  }

  /** `n.toString()` / `String.valueOf(n)` for a non-negative integer. */
  function NatToString(n: nat): (r: string)
    ensures 1 <= |r| && AllDigits(r)
    ensures n < 10 <==> |r| == 1
  {
    if n < 10 then [DigitChar(n)] else NatToString(n / 10) + [DigitChar(n % 10)]
  }

  lemma {:induction false} NatToStringRoundTrip(n: nat)
    ensures DecimalValue(NatToString(n)) == n
  {
    if n >= 10 {
      var s := NatToString(n);
      NatToStringRoundTrip(n / 10);
      assert s[..|s| - 1] == NatToString(n / 10);
    }
  }

  lemma NatToStringInjective(a: nat, b: nat)
    ensures NatToString(a) == NatToString(b) <==> a == b
  {
    NatToStringRoundTrip(a);
    NatToStringRoundTrip(b);
  }

  /** `String.valueOf(n)` for any integer: a minus sign before the digits
      of a negative number. */
  function IntToString(n: int): string {
    if n < 0 then "-" + NatToString(-n) else NatToString(n)
  }

  /** `s.padStart(width, c)`. */
  function PadStart(s: string, width: nat, c: char): (r: string)
    ensures |r| == if |s| >= width then |s| else width
    ensures r[|r| - |s|..] == s
    ensures forall i :: 0 <= i < |r| - |s| ==> r[i] == c
  {
    if |s| >= width then s else [c] + PadStart(s, width - 1, c)
  }

  /** A number below 100 as two decimal digits, tens first. */
  function Pad2(n: nat): (r: string)
    requires n < 100
    ensures |r| == 2 && AllDigits(r)
  {
    [DigitChar(n / 10), DigitChar(n % 10)]
  }

  /** `Pad2` is `n.toString().padStart(2, "0")`, as the source writes it. */
  lemma Pad2IsPadStart(n: nat)
    requires n < 100
    ensures Pad2(n) == PadStart(NatToString(n), 2, '0')
  {
    var s := NatToString(n);
    if n < 10 {
      assert s == [DigitChar(n)];
      assert PadStart(s, 1, '0') == s;
      assert PadStart(s, 2, '0') == ['0'] + s;
      assert DigitChar(0) == '0';
    } else {
      assert NatToString(n / 10) == [DigitChar(n / 10)];
      assert s == [DigitChar(n / 10)] + [DigitChar(n % 10)];
      assert PadStart(s, 2, '0') == s;
    }
  }

  lemma Pad2Value(n: nat)
    requires n < 100
    ensures DecimalValue(Pad2(n)) == n
  {
    var p := Pad2(n);
    DigitRoundTrip(n / 10);
    DigitRoundTrip(n % 10);
    assert p[..1] == [p[0]];
    assert [p[0]][..0] == [];
    assert DecimalValue(p[..1]) == n / 10;
  }

  lemma Pad2Injective(m: nat, n: nat)
    requires m < 100 && n < 100
    ensures Pad2(m) == Pad2(n) <==> m == n
  {
    if Pad2(m) == Pad2(n) {
      assert Pad2(m)[0] == Pad2(n)[0] && Pad2(m)[1] == Pad2(n)[1];
    }
  }

  /** JavaScript `a < b` on strings: lexicographic comparison of characters. */
  function StrLt(a: string, b: string): bool
  {
    if |b| == 0 then false
    else if |a| == 0 then true
    else if a[0] != b[0] then a[0] < b[0]
    else StrLt(a[1..], b[1..])
  }

  /** JavaScript `a <= b` on strings, which is `!(b < a)`. */
  predicate StrLe(a: string, b: string) {
    !StrLt(b, a)
  }

  /** `s.startsWith(p)`. */
  predicate StartsWith(s: string, p: string) {
    |p| <= |s| && s[..|p|] == p
  }

  /** `hay.includes(needle)` (JavaScript) and `hay.contains(needle)` (Java). */
  predicate Contains(hay: string, needle: string)
  {
    StartsWith(hay, needle) || (|hay| > 0 && Contains(hay[1..], needle))
  }

  lemma {:induction false} ContainsAt(hay: string, needle: string, k: nat)
    requires k + |needle| <= |hay| && hay[k..k + |needle|] == needle
    ensures Contains(hay, needle)
  {
    if k > 0 {
      assert hay[1..][k - 1..k - 1 + |needle|] == needle;
      ContainsAt(hay[1..], needle, k - 1);
    }
  }

  lemma {:induction false} ContainsWitness(hay: string, needle: string) returns (k: nat)
    requires Contains(hay, needle)
    ensures k + |needle| <= |hay| && hay[k..k + |needle|] == needle
  {
    if StartsWith(hay, needle) {
      k := 0;
    } else {
      var j := ContainsWitness(hay[1..], needle);
      k := j + 1;
      assert hay[k..k + |needle|] == hay[1..][j..j + |needle|];
    }
  }

  /** `toLowerCase` on the ASCII letters (other characters are kept). */
  function LowerChar(c: char): char {
    if 'A' <= c <= 'Z' then (c as int + 32) as char else c
  }

  function ToLower(s: string): (r: string)
    ensures |r| == |s| && forall i :: 0 <= i < |s| ==> r[i] == LowerChar(s[i])
  {
    if |s| == 0 then "" else [LowerChar(s[0])] + ToLower(s[1..])
  }

  /** Lowering both sides keeps a substring a substring. */
  lemma ContainsLower(hay: string, needle: string)
    requires Contains(hay, needle)
    ensures Contains(ToLower(hay), ToLower(needle))
  {
    var k := ContainsWitness(hay, needle);
    assert ToLower(hay)[k..k + |needle|] == ToLower(needle);
    ContainsAt(ToLower(hay), ToLower(needle), k);
  }

  /** The ECMAScript WhiteSpace and LineTerminator characters, which `trim`
      and `parseInt` skip. */
  predicate IsJsSpace(c: char) {
    c in {'\t', '\n', '\U{000B}', '\U{000C}', '\r', ' ', '\U{00A0}', '\U{1680}',
          '\U{2000}', '\U{2001}', '\U{2002}', '\U{2003}', '\U{2004}', '\U{2005}',
          '\U{2006}', '\U{2007}', '\U{2008}', '\U{2009}', '\U{200A}', '\U{2028}',
          '\U{2029}', '\U{202F}', '\U{205F}', '\U{3000}', '\U{FEFF}'}
  }

  lemma DigitIsNotSpace(c: char)
    requires IsDigit(c)
    ensures !IsJsSpace(c)
  {
  }

  function TrimStart(s: string): (r: string)
    ensures |r| <= |s| && r == s[|s| - |r|..]
    ensures |r| > 0 ==> !IsJsSpace(r[0])
  {
    if |s| > 0 && IsJsSpace(s[0]) then TrimStart(s[1..]) else s
  }

  function TrimEnd(s: string): (r: string)
    ensures |r| <= |s| && r == s[..|r|]
    ensures |r| > 0 ==> !IsJsSpace(r[|r| - 1])
  {
    if |s| > 0 && IsJsSpace(s[|s| - 1]) then TrimEnd(s[..|s| - 1]) else s
  }

  /** No white space at either end. */
  predicate Trimmed(s: string) {
    |s| > 0 ==> !IsJsSpace(s[0]) && !IsJsSpace(s[|s| - 1])
  }

  /** JavaScript `s.trim()`: a trimmed piece of `s`, and `s` itself when
      there is nothing to trim. */
  function Trim(s: string): (r: string)
    ensures Trimmed(r)
    ensures Trimmed(s) ==> r == s
  {
    TrimEnd(TrimStart(s))
  }

  /** Trimming only removes characters. */
  lemma TrimKeepsOut(s: string, c: char)
    requires c !in s
    ensures c !in Trim(s)
  {
  }

  /** JavaScript `s.split(sep)` for a one-character separator: the pieces
      between separators, keeping empty pieces; `""` splits to `[""]`. */
  function Split(s: string, sep: char): (r: seq<string>)
    ensures |r| >= 1
  {
    if |s| == 0 then [""]
    else
      var rest := Split(s[1..], sep);
      if s[0] == sep then [""] + rest else [[s[0]] + rest[0]] + rest[1..]
  }

  lemma {:induction false} SplitNoSeparator(q: string, sep: char)
    requires sep !in q
    ensures Split(q, sep) == [q]
  {
    if |q| > 0 {
      SplitNoSeparator(q[1..], sep);
      assert q == [q[0]] + q[1..];
    }
  }

  /** A separator after a separator-free prefix ends the first piece. */
  lemma {:induction false} SplitAt(p: string, sep: char, q: string)
    requires sep !in p
    ensures Split(p + [sep] + q, sep) == [p] + Split(q, sep)
  {
    if |p| == 0 {
      assert p + [sep] + q == [sep] + q;
      assert ([sep] + q)[1..] == q;
    } else {
      SplitAt(p[1..], sep, q);
      assert (p + [sep] + q)[1..] == p[1..] + [sep] + q;
      assert p == [p[0]] + p[1..];
    }
  }

  /** A string with exactly one separator splits into the two sides. */
  lemma SplitTwo(p: string, sep: char, q: string)
    requires sep !in p && sep !in q
    ensures Split(p + [sep] + q, sep) == [p, q]
  {
    SplitAt(p, sep, q);
    SplitNoSeparator(q, sep);
  }

  /** `parts.join(sep)`. */
  function Join(parts: seq<string>, sep: char): string
    requires |parts| >= 1
  {
    if |parts| == 1 then parts[0] else parts[0] + [sep] + Join(parts[1..], sep)
  }

  /** Splitting and re-joining gives the original string back, and no piece
      contains the separator. */
  lemma {:induction false} SplitJoin(s: string, sep: char)
    ensures Join(Split(s, sep), sep) == s
    ensures forall k :: 0 <= k < |Split(s, sep)| ==> sep !in Split(s, sep)[k]
  {
    if |s| > 0 {
      var rest := Split(s[1..], sep);
      SplitJoin(s[1..], sep);
      if s[0] == sep {
        assert Split(s, sep) == [""] + rest;
        assert Split(s, sep)[1..] == rest;
        assert s == [sep] + s[1..];
      } else {
        var r := Split(s, sep);
        assert r == [[s[0]] + rest[0]] + rest[1..];
        if |rest| == 1 {
          assert s == [s[0]] + s[1..];
        } else {
          assert r[1..] == rest[1..];
          assert Join(r, sep) == [s[0]] + (rest[0] + [sep] + Join(rest[1..], sep));
          assert s == [s[0]] + s[1..];
        }
        forall k | 0 <= k < |r|
          ensures sep !in r[k]
        {
          if k > 0 {
            assert r[k] == rest[k];
          }
        }
      }
    }
  }

  /** Joining separator-free pieces and splitting again gives the pieces
      back. */
  lemma {:induction false} JoinSplit(parts: seq<string>, sep: char)
    requires |parts| >= 1
    requires forall k :: 0 <= k < |parts| ==> sep !in parts[k]
    ensures Split(Join(parts, sep), sep) == parts
  {
    if |parts| == 1 {
      SplitNoSeparator(parts[0], sep);
    } else {
      JoinSplit(parts[1..], sep);
      SplitAt(parts[0], sep, Join(parts[1..], sep));
      assert parts == [parts[0]] + parts[1..];
    }
  }
}
