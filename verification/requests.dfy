/** `CreateReservationRequestDTO`: the body of a booking request and the
    bean-validation constraints on it. The controller answers 400 when they
    fail and otherwise builds the domain reservation the service books. */
module Requests {
  import opened Base
  import opened Text
  import opened Phone
  import opened Entities
  import Dialog
  import Slots

  /** Every field may be missing from the JSON body, hence `Option`. */
  datatype CreateReservationRequest = CreateReservationRequest(
    roomId: Option<int>,
    nickname: Option<string>,
    studentName: Option<string>,
    studentId: Option<int>,
    phoneNumber: Option<string>,
    purpose: Option<string>,
    startTime: Option<int>,
    endTime: Option<int>)

  /** Java's `String.trim` drops every character up to U+0020 at both ends. */
  predicate JavaSpace(c: char) {
    c <= ' '
  }

  function JavaTrimStart(s: string): (r: string)
    ensures |r| <= |s| && r == s[|s| - |r|..]
    ensures forall i :: 0 <= i < |s| - |r| ==> JavaSpace(s[i])
    ensures |r| > 0 ==> !JavaSpace(r[0])
  {
    if |s| > 0 && JavaSpace(s[0]) then JavaTrimStart(s[1..]) else s
  }

  /** `@NotBlank`: present, and something other than white space is left
      after trimming. */
  predicate NotBlank(s: Option<string>) {
    s.Some? && |JavaTrimStart(s.value)| > 0
  }

  /** A value is blank exactly when every character is white space. */
  lemma NotBlankIff(s: string)
    ensures NotBlank(Some(s)) <==> exists i :: 0 <= i < |s| && !JavaSpace(s[i])
  {
    var r := JavaTrimStart(s);
    if |r| > 0 {
      assert !JavaSpace(s[|s| - |r|]);
    }
  }

  /** `@Pattern` accepts a missing value and otherwise applies the mobile
      number pattern to the whole string. */
  predicate PatternOk(p: Option<string>) {
    p.None? || BackPhone(p.value)
  }

  /** The range of Java's `Integer`, the type of `studentId`. */
  const IntegerMin: int := -0x8000_0000
  const IntegerMax: int := 0x7FFF_FFFF

  /** Jackson binds a JSON number to an `Integer` only inside that range;
      a body with a larger student number is refused before validation. */
  predicate IsInteger(x: int) {
    IntegerMin <= x <= IntegerMax
  }

  /** All constraints of the request body, after it was bound. */
  predicate Accepted(d: CreateReservationRequest) {
    && d.roomId.Some?
    && NotBlank(d.nickname)
    && NotBlank(d.studentName)
    && d.studentId.Some? && IsInteger(d.studentId.value)
    && NotBlank(d.phoneNumber) && PatternOk(d.phoneNumber)
    && NotBlank(d.purpose)
    && d.startTime.Some?
    && d.endTime.Some?
  }

  /** The reservation `createReservation` builds from an accepted body: no
      id and no creation time yet, every other field copied. */
  function ToDomain(d: CreateReservationRequest): (r: Reservation)
    requires Accepted(d)
    ensures r.id.None? && r.createdAt.None?
    ensures r.roomId == d.roomId && Some(r.studentId) == d.studentId && IsInteger(r.studentId)
    ensures Some(r.nickname) == d.nickname && Some(r.studentName) == d.studentName
    ensures Some(r.phoneNumber) == d.phoneNumber && Some(r.purpose) == d.purpose
    ensures Some(r.startTime) == d.startTime && Some(r.endTime) == d.endTime
  {
    Reservation(None, d.roomId, d.nickname.value, d.studentName.value, d.studentId.value,
                d.phoneNumber.value, d.purpose.value, d.startTime.value, d.endTime.value, None)
  }

  /** A phone number is accepted exactly when the form's pattern accepts it,
      so the two layers never disagree about a number's shape. */
  lemma PhoneAcceptedIffFormAccepts(p: string)
    ensures NotBlank(Some(p)) && PatternOk(Some(p)) <==> FrontPhone(p)
  {
    SamePattern(p);
    if FrontPhone(p) {
      NotBlankIff(p);
      assert !JavaSpace(p[0]);
    }
  }

  /** The form only counts characters, so a nickname of two spaces passes it
      while the request validation refuses it as blank. */
  lemma BlankNicknamePassesForm(f: Dialog.FormValues)
    requires Dialog.FormValid(f)
    ensures Dialog.FormValid(f.(nickname := "  "))
    ensures !NotBlank(Some("  "))
  {
    assert JavaTrimStart("  ") == JavaTrimStart(" ");
    assert JavaTrimStart(" ") == JavaTrimStart("");
  }

  /** The student number the dialog sends binds exactly when the digits
      typed denote at most 2^31 - 1: up to nine digits always do, eleven or
      more without a leading zero never do. */
  lemma FormStudentIdBinds(f: Dialog.FormValues, roomId: Option<string>, picks: seq<Slots.BlockIndex>, day: int)
    requires Dialog.Submit(f, roomId, picks, day).Ok?
    ensures var q := Dialog.Submit(f, roomId, picks, day).value.request;
            && AllDigits(f.studentId)
            && q.studentId.Some?
            && (IsInteger(q.studentId.value) <==> DecimalValue(f.studentId) <= IntegerMax)
            && (|f.studentId| <= 9 ==> IsInteger(q.studentId.value))
            && (|f.studentId| >= 11 && f.studentId[0] != '0' ==> !IsInteger(q.studentId.value))
  {
    Dialog.SubmitFields(f, roomId, picks, day);
    DigitsBind(f.studentId);
  }

  /** Up to nine digits fit an `Integer`; eleven or more without a leading
      zero do not. */
  lemma DigitsBind(t: string)
    requires AllDigits(t)
    ensures |t| <= 9 ==> IsInteger(DecimalValue(t))
    ensures |t| >= 11 && t[0] != '0' ==> !IsInteger(DecimalValue(t))
  {
    DecimalValueBounds(t);
    if |t| <= 9 {
      PowMonotone(|t|, 9);
    }
    if |t| >= 11 && t[0] != '0' {
      PowMonotone(10, |t| - 1);
    }
  }

  lemma {:induction false} PowMonotone(a: nat, b: nat)
    requires a <= b
    ensures Pow10(a) <= Pow10(b)
  {
    if a < b {
      PowMonotone(a, b - 1);
    }
  }

  /** The form sets no upper bound on the student number, so a number too
      large for an `Integer` passes it and the request is refused. */
  lemma LongStudentIdPassesForm(f: Dialog.FormValues, t: string)
    requires Dialog.FormValid(f) && AllDigits(t) && |t| >= 11 && t[0] != '0'
    ensures Dialog.FormValid(f.(studentId := t))
    ensures !IsInteger(DecimalValue(t))
  {
    DigitsBind(t);
  }
}
