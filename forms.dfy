/** The validators of core/forms.py: the phone character rule, the
    "not in the future" date rule, the date-order rules of `MemberForm.clean`,
    the date-range rule, the CSV upload rule, and the field setup done by
    `MemberForm.__init__` and `UnitForm.__init__`. A validator returns the
    cleaned value, or `Err` with the message `ValidationError` carries. */
module Forms {
  import opened Common
  import opened Models

  // ---------------------------------------------------------------------------
  // Phone numbers
  // ---------------------------------------------------------------------------

  const PHONE_ERROR: string := "Phone number can only contain numbers, spaces, hyphens, and plus sign."
  const EMERGENCY_PHONE_ERROR: string :=
    "Emergency contact phone number can only contain numbers, spaces, hyphens, and plus sign."

  /** Python `s.replace(c, '')`. */
  function Drop(s: string, c: char): (r: string)
    ensures |r| <= |s|
    ensures forall x :: x in r <==> x in s && x != c
  {
    if s == [] then []
    else
      assert forall x :: x in s <==> x == s[0] || x in s[1..];
      (if s[0] == c then [] else [s[0]]) + Drop(s[1..], c)
  }

  /** The characters a phone may hold besides digits. */
  predicate IsPhonePunctuation(c: char) {
    c == '+' || c == ' ' || c == '-'
  }

  /** `clean_phone` (and `clean_emergency_contact_phone`, with its own
      message): an empty value passes; otherwise what is left after removing
      '+', ' ' and '-' must be a non-empty run of digits. */
  function CleanPhone(phone: string, message: string): (r: Result<string, string>)
    ensures r.Ok? ==> r.value == phone
    ensures r.Err? ==> r.error == message
  {
    if phone != "" && !IsDigits(Drop(Drop(Drop(phone, '+'), ' '), '-')) then Err(message) else Ok(phone)
  }

  /** The rule stated on the characters: a phone is accepted exactly when it is
      empty, or made of digits, '+', ' ' and '-' with at least one digit. */
  lemma {:induction false} PhoneRule(phone: string, message: string)
    ensures CleanPhone(phone, message).Ok? <==>
              phone == ""
              || ((forall i :: 0 <= i < |phone| ==> IsDigit(phone[i]) || IsPhonePunctuation(phone[i]))
                  && exists i :: 0 <= i < |phone| && IsDigit(phone[i]))
  {
    var d := Drop(Drop(Drop(phone, '+'), ' '), '-');
    DropPunctuation(phone);
    if phone != "" {
      if IsDigits(d) {
        forall i | 0 <= i < |phone|
          ensures IsDigit(phone[i]) || IsPhonePunctuation(phone[i])
        {
          if !IsPhonePunctuation(phone[i]) {
            assert phone[i] in d;
          }
        }
        assert d[0] in phone;
      } else if |d| > 0 {
        var j :| 0 <= j < |d| && !IsDigit(d[j]);
        assert d[j] in phone;
      } else if exists i :: 0 <= i < |phone| && IsDigit(phone[i]) {
        var i :| 0 <= i < |phone| && IsDigit(phone[i]);
        assert phone[i] in d;
      }
    }
  }

  /** What removing '+', ' ' and '-' leaves: every other character of the phone. */
  lemma {:induction false} DropPunctuation(phone: string)
    ensures forall x :: x in Drop(Drop(Drop(phone, '+'), ' '), '-') <==> x in phone && !IsPhonePunctuation(x)
  {
  }

  /** "+" alone is rejected: nothing is left once the punctuation is removed. */
  lemma {:induction false} PlusAloneRejected()
    ensures CleanPhone("+", PHONE_ERROR) == Err(PHONE_ERROR)
  {
    assert Drop("+", '+') == [];
  }

  /** A number written with '+', a space and a hyphen, such as "+1 2-3", is accepted. */
  lemma {:induction false} PunctuatedNumberAccepted(a: char, b: char, c: char)
    requires IsDigit(a) && IsDigit(b) && IsDigit(c)
    ensures var p := ['+', a, ' ', b, '-', c]; CleanPhone(p, PHONE_ERROR) == Ok(p)
  {
    var p := ['+', a, ' ', b, '-', c];
    assert p[0] == '+' && p[1] == a && p[2] == ' ' && p[3] == b && p[4] == '-' && p[5] == c;
    PhoneRule(p, PHONE_ERROR);
  }

  /** A letter anywhere is rejected. */
  lemma {:induction false} LetterRejected(phone: string, i: nat)
    requires i < |phone| && 'a' <= phone[i] <= 'z'
    ensures CleanPhone(phone, PHONE_ERROR) == Err(PHONE_ERROR)
  {
    PhoneRule(phone, PHONE_ERROR);
  }

  // ---------------------------------------------------------------------------
  // Dates
  // ---------------------------------------------------------------------------

  /** `clean_founded_date`, `clean_created_at`, `clean_date_of_birth`,
      `clean_membership_date`, `clean_baptism_date`, `clean_confirmation_date`:
      a date strictly after today is refused with the field's message. */
  function CleanNotFuture(date: Option<Date>, today: Date, message: string): (r: Result<Option<Date>, string>)
    ensures r.Ok? <==> date.None? || AtMost(date.value, today)
    ensures r.Ok? ==> r.value == date
    ensures r.Err? ==> r.error == message
  {
    if date.Some? && Before(today, date.value) then Err(message) else Ok(date)
  }

  /** Today itself is accepted, the day after is not. */
  lemma {:induction false} TodayIsNotFuture(today: Date, tomorrow: Date, message: string)
    requires Before(today, tomorrow)
    ensures CleanNotFuture(Some(today), today, message) == Ok(Some(today))
    ensures CleanNotFuture(Some(tomorrow), today, message) == Err(message)
  {
    BeforeIsStrictTotalOrder(today, tomorrow, today);
  }

  /** A field error: the field name and its message. */
  type FieldError = (string, string)

  const MEMBERSHIP_BEFORE_BIRTH: FieldError := ("membership_date", "Membership date cannot be before date of birth.")
  const BAPTISM_BEFORE_BIRTH: FieldError := ("baptism_date", "Baptism date cannot be before date of birth.")
  const CONFIRMATION_BEFORE_BAPTISM: FieldError :=
    ("confirmation_date", "Confirmation date cannot be before baptism date.")

  /** `earlier` may not be before `later` when both are given. */
  predicate InOrder(earlier: Option<Date>, later: Option<Date>) {
    earlier.Some? && later.Some? ==> !Before(later.value, earlier.value)
  }

  /** `MemberForm.clean`: membership and baptism not before birth, confirmation
      not before baptism; the first rule that fails is the error raised. */
  function CleanMemberDates(birth: Option<Date>, membership: Option<Date>, baptism: Option<Date>,
                            confirmation: Option<Date>): (r: Result<(), FieldError>)
    ensures r.Ok? <==> InOrder(birth, membership) && InOrder(birth, baptism) && InOrder(baptism, confirmation)
    ensures !InOrder(birth, membership) ==> r == Err(MEMBERSHIP_BEFORE_BIRTH)
    ensures InOrder(birth, membership) && !InOrder(birth, baptism) ==> r == Err(BAPTISM_BEFORE_BIRTH)
    ensures InOrder(birth, membership) && InOrder(birth, baptism) && !InOrder(baptism, confirmation) ==>
              r == Err(CONFIRMATION_BEFORE_BAPTISM)
  {
    if birth.Some? && membership.Some? && Before(membership.value, birth.value) then Err(MEMBERSHIP_BEFORE_BIRTH)
    else if baptism.Some? && birth.Some? && Before(baptism.value, birth.value) then Err(BAPTISM_BEFORE_BIRTH)
    else if confirmation.Some? && baptism.Some? && Before(confirmation.value, baptism.value) then
      Err(CONFIRMATION_BEFORE_BAPTISM)
    else Ok(())
  }

  /** Equal dates pass, and a missing date switches off the rules it takes part in. */
  lemma {:induction false} MemberDatesLenient(d: Date, birth: Option<Date>, membership: Option<Date>,
                           baptism: Option<Date>, confirmation: Option<Date>)
    ensures CleanMemberDates(Some(d), Some(d), Some(d), Some(d)).Ok?
    ensures CleanMemberDates(None, membership, None, confirmation).Ok?
    ensures CleanMemberDates(birth, None, baptism, None) == CleanMemberDates(birth, membership, baptism, None)
               || !InOrder(birth, membership)
  {
    BeforeIsStrictTotalOrder(d, d, d);
  }

  const DATE_RANGE_ERROR: string := "Start date cannot be after end date."

  /** `DateRangeFilterForm.clean`: refused exactly when both ends are given and the start is after the end. */
  function CleanDateRange(start: Option<Date>, end: Option<Date>): (r: Result<(Option<Date>, Option<Date>), string>)
    ensures r.Err? <==> start.Some? && end.Some? && Before(end.value, start.value)
    ensures r.Ok? ==> r.value == (start, end)
    ensures r.Err? ==> r.error == DATE_RANGE_ERROR
  {
    if start.Some? && end.Some? && Before(end.value, start.value) then Err(DATE_RANGE_ERROR) else Ok((start, end))
  }

  // ---------------------------------------------------------------------------
  // CSV upload
  // ---------------------------------------------------------------------------

  /** An uploaded file: its name and size in bytes. */
  datatype Upload = Upload(name: string, size: nat)

  const MAX_UPLOAD_SIZE: nat := 5 * 1024 * 1024
  const NOT_CSV_ERROR: string := "Please upload a CSV file."
  const TOO_LARGE_ERROR: string := "File size must be less than 5MB."

  /** `BulkMemberUploadForm.clean_csv_file`: the name must end with ".csv"
      (checked first), then the size may not exceed 5 MiB. */
  function CleanCsvFile(file: Option<Upload>): (r: Result<Option<Upload>, string>)
    ensures r.Ok? <==> file.None? || (EndsWith(file.value.name, ".csv") && file.value.size <= MAX_UPLOAD_SIZE)
    ensures r.Ok? ==> r.value == file
    ensures file.Some? && !EndsWith(file.value.name, ".csv") ==> r == Err(NOT_CSV_ERROR)
    ensures file.Some? && EndsWith(file.value.name, ".csv") && file.value.size > MAX_UPLOAD_SIZE ==>
              r == Err(TOO_LARGE_ERROR)
  {
    match file
    case None => Ok(file)
    case Some(f) =>
      if !EndsWith(f.name, ".csv") then Err(NOT_CSV_ERROR)
      else if f.size > MAX_UPLOAD_SIZE then Err(TOO_LARGE_ERROR)
      else Ok(file)
  }

  /** Exactly 5 MiB is accepted, one byte more is not; the extension is
      compared case-sensitively. */
  lemma {:induction false} CsvFileBoundaries()
    ensures CleanCsvFile(Some(Upload("members.csv", 5242880))).Ok?
    ensures CleanCsvFile(Some(Upload("members.csv", 5242881))) == Err(TOO_LARGE_ERROR)
    ensures CleanCsvFile(Some(Upload("members.CSV", 10))) == Err(NOT_CSV_ERROR)
  {
    assert "members.csv"[7..] == ".csv";
    assert "members.CSV"[7..] != ".csv";
  }

  // ---------------------------------------------------------------------------
  // Field setup
  // ---------------------------------------------------------------------------

  /** The options `__init__` sets on a form field. */
  datatype FieldOptions = FieldOptions(required: bool, initial: Option<string>)

  /** The fields `MemberForm.__init__` makes optional. */
  const MEMBER_OPTIONAL_FIELDS: set<string> :=
    {"family", "unit", "cell", "membership_date", "baptism_date", "confirmation_date", "photo",
     "emergency_contact_name", "emergency_contact_phone"}

  /** `MemberForm.__init__` on the fields the model form built: the listed
      fields become optional and, for a member not yet saved, the status
      starts as NEW_MEMBER. Every other field keeps its options. */
  function MemberFormFields(fields: map<string, FieldOptions>, saved: bool): (r: map<string, FieldOptions>)
    requires MEMBER_OPTIONAL_FIELDS <= fields.Keys && "membership_status" in fields
    ensures r.Keys == fields.Keys
    ensures forall f :: f in MEMBER_OPTIONAL_FIELDS ==> !r[f].required && r[f].initial == fields[f].initial
    ensures !saved ==> r["membership_status"].initial == Some(NEW_MEMBER)
    ensures r["membership_status"].required == fields["membership_status"].required
    ensures saved ==> r["membership_status"] == fields["membership_status"]
    ensures forall f :: f in fields && f !in MEMBER_OPTIONAL_FIELDS && f != "membership_status" ==> r[f] == fields[f]
  {
    var optional := map f | f in fields :: if f in MEMBER_OPTIONAL_FIELDS then fields[f].(required := false) else fields[f];
    if saved then optional
    else optional["membership_status" := optional["membership_status"].(initial := Some(NEW_MEMBER))]
  }

  /** The leader field of `UnitForm`: its choices and whether it is required. */
  datatype LeaderField = LeaderField(choices: seq<Member>, required: bool)

  /** `UnitForm.__init__`: leaders are chosen among the ACTIVE members, and
      a unit may have none. */
  function UnitLeaderField(members: seq<Member>): (r: LeaderField)
    ensures !r.required
    ensures forall m :: m in r.choices <==> m in members && m.membershipStatus == ACTIVE
    ensures |r.choices| <= |members|
  {
    if members == [] then LeaderField([], false)
    else
      var rest := UnitLeaderField(members[1..]);
      assert forall x :: x in members <==> x == members[0] || x in members[1..];
      if members[0].membershipStatus == ACTIVE then LeaderField([members[0]] + rest.choices, false) else rest
  }
}
