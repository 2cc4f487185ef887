/** `parse_date` of core/utils/csv_import.py, with the part of Python's
    `datetime.strptime` it relies on: the directives `%d`, `%m`, `%y`, `%Y`
    and `%b` (English month abbreviations), literal separators, a
    regular-expression match of the format at the start of the text (first
    success in alternative order, with backtracking), the "unconverted data
    remains" length check, and calendar validation of the assembled date. */
module DateParse {
  import opened Common

  // ---------------------------------------------------------------------------
  // Formats
  // ---------------------------------------------------------------------------

  /** One piece of a compiled `strptime` format. */
  datatype Tok = Day | Month | Year2 | Year4 | MonthName | Lit(c: char)

  /** A value captured by a directive. */
  datatype Field = DayField(d: int) | MonthField(m: int) | YearField(y: int)

  /** A named group of the match: the directive and the text it matched. */
  datatype Group = Group(tok: Tok, text: string)

  /** Compiles a format over the modelled directives; any other character
      (or unmodelled directive letter) stands for itself. */
  function Compile(fmt: string): (toks: seq<Tok>)
    ensures |toks| <= |fmt|
  {
    if fmt == [] then []
    else if fmt[0] == '%' && |fmt| >= 2 && Directive(fmt[1]).Some? then [Directive(fmt[1]).value] + Compile(fmt[2..])
    else [Lit(fmt[0])] + Compile(fmt[1..])
  }

  /** The directive a letter after '%' names, among the modelled ones. */
  function Directive(c: char): Option<Tok> {
    match c
    case 'd' => Some(Day)
    case 'm' => Some(Month)
    case 'y' => Some(Year2)
    case 'Y' => Some(Year4)
    case 'b' => Some(MonthName)
    case _ => None
  }

  const MONTH_ABBRS: seq<string> :=
    ["jan", "feb", "mar", "apr", "may", "jun", "jul", "aug", "sep", "oct", "nov", "dec"]

  /** The index (1 to 12) of a month abbreviation, compared case-insensitively;
      0 when `s` is none of them (MonthIndexFinds). */
  function MonthIndex(s: string): (r: nat)
    ensures r <= 12
  {
    PositionIn(Lower(s), MONTH_ABBRS)
  }

  /** One more than the position of `x` in `names`, or 0 when it is absent
      (PositionInFinds). */
  function PositionIn(x: string, names: seq<string>): (r: nat)
    ensures r <= |names|
  {
    if names == [] then 0
    else if names[0] == x then 1
    else
      var r := PositionIn(x, names[1..]);
      if r == 0 then 0 else r + 1
  }

  /** The position found holds `x`, no earlier one does, and 0 means absent. */
  lemma {:induction false} PositionInFinds(x: string, names: seq<string>)
    ensures var r := PositionIn(x, names);
            && (r > 0 ==> names[r - 1] == x && x !in names[..r - 1])
            && (r == 0 <==> x !in names)
  {
    if names != [] && names[0] != x {
      PositionInFinds(x, names[1..]);
      assert names == [names[0]] + names[1..];
      var r := PositionIn(x, names[1..]);
      if r > 0 {
        assert names[..r] == [names[0]] + names[1..][..r - 1];
      }
    }
  }

  /** Passing over a name that is not `x` adds one to the position found after it. */
  lemma {:induction false} PositionInStep(x: string, names: seq<string>, k: nat)
    requires k < |names| && names[k] != x && PositionIn(x, names[k + 1..]) > 0
    ensures PositionIn(x, names[k..]) == PositionIn(x, names[k + 1..]) + 1
  {
    assert names[k..][0] == names[k] && names[k..][1..] == names[k + 1..];
  }

  /** The month index names the abbreviation `s` spells, in any case. */
  lemma {:induction false} MonthIndexFinds(s: string)
    ensures MonthIndex(s) > 0 ==> Lower(s) == MONTH_ABBRS[MonthIndex(s) - 1]
    ensures MonthIndex(s) == 0 <==> Lower(s) !in MONTH_ABBRS
  {
    PositionInFinds(Lower(s), MONTH_ABBRS);
  }

  predicate DigitAt(s: string, i: int) {
    0 <= i < |s| && IsDigit(s[i])
  }

  predicate CharAt(s: string, i: int, lo: char, hi: char) {
    0 <= i < |s| && lo <= s[i] <= hi
  }

  /** Every alternative length is positive and stays inside `s`. */
  predicate Fits(s: string, i: nat, alts: seq<nat>) {
    forall k :: 0 <= k < |alts| ==> 0 < alts[k] && i + alts[k] <= |s|
  }

  /** The lengths of the texts at position `i` that the directive's regular
      expression accepts, in the order its alternatives are tried:
      `%d` is `3[01]|[12]\d|0[1-9]|[1-9]| [1-9]`, `%m` is `1[0-2]|0[1-9]|[1-9]`,
      `%y` is `\d\d`, `%Y` is `\d\d\d\d`, `%b` the twelve abbreviations.
      (For `%d`, a "3" or a "1"/"2" may be a whole day or the first digit of
      one; the two-character reading is tried first.) */
  function Alternatives(t: Tok, s: string, i: nat): (r: seq<nat>)
    requires i <= |s|
    ensures Fits(s, i, r)
  {
    match t
    case Day =>
      if CharAt(s, i, '3', '3') then (if CharAt(s, i + 1, '0', '1') then [2, 1] else [1])
      else if CharAt(s, i, '1', '2') then (if DigitAt(s, i + 1) then [2, 1] else [1])
      else if CharAt(s, i, '0', '0') then (if CharAt(s, i + 1, '1', '9') then [2] else [])
      else if CharAt(s, i, '4', '9') then [1]
      else if CharAt(s, i, ' ', ' ') && CharAt(s, i + 1, '1', '9') then [2]
      else []
    case Month =>
      if CharAt(s, i, '1', '1') then (if CharAt(s, i + 1, '0', '2') then [2, 1] else [1])
      else if CharAt(s, i, '0', '0') then (if CharAt(s, i + 1, '1', '9') then [2] else [])
      else if CharAt(s, i, '2', '9') then [1]
      else []
    case Year2 => if DigitAt(s, i) && DigitAt(s, i + 1) then [2] else []
    case Year4 =>
      if DigitAt(s, i) && DigitAt(s, i + 1) && DigitAt(s, i + 2) && DigitAt(s, i + 3) then [4] else []
    case MonthName => if i + 3 <= |s| && MonthIndex(s[i..i + 3]) > 0 then [3] else []
    case Lit(c) => if i < |s| && s[i] == c then [1] else []
  }

  /** The value a directive captures from the text it matched. `%y` maps
      00-68 to 2000-2068 and 69-99 to 1969-1999. */
  function Capture(t: Tok, text: string): seq<Field> {
    match t
    case Day => [DayField(NumberValue(text))]
    case Month => [MonthField(NumberValue(text))]
    case Year2 => [YearField(Pivot(NumberValue(text)))]
    case Year4 => [YearField(NumberValue(text))]
    case MonthName => [MonthField(MonthIndex(text))]
    case Lit(_) => []
  }

  /** `%y`'s reading of two digits: 00-68 in the 2000s, 69-99 in the 1900s. */
  function Pivot(yy: int): int {
    if yy <= 68 then 2000 + yy else 1900 + yy
  }

  /** `int()` of a matched numeral: its digits' value (the text is digits,
      or for `%d` a space and a digit). */
  function NumberValue(text: string): nat {
    if text == [] then 0
    else if IsDigit(text[|text| - 1]) then NumberValue(text[..|text| - 1]) * 10 + DigitValue(text[|text| - 1])
    else NumberValue(text[..|text| - 1])
  }

  /** On a digit string `NumberValue` is what Python's `int()` returns. */
  lemma {:induction false} NumberValueIsInt(text: string)
    requires IsDigits(text)
    ensures PyInt(text) == Some(NumberValue(text))
  {
    PyIntOfDigits(text);
    NumberValueOfDigits(text);
  }

  lemma {:induction false} NumberValueOfDigits(text: string)
    requires forall i :: 0 <= i < |text| ==> IsDigit(text[i])
    ensures NumberValue(text) == DigitsValue(text)
  {
    if text != [] {
      NumberValueOfDigits(text[..|text| - 1]);
    }
  }

  lemma {:induction false} NumberValueTwo(text: string)
    requires |text| == 2 && IsDigit(text[0]) && IsDigit(text[1])
    ensures NumberValue(text) == DigitValue(text[0]) * 10 + DigitValue(text[1])
  {
    var head := text[..1];
    assert head[..0] == [] && head[0] == text[0];
    assert NumberValue(head) == DigitValue(text[0]);
    assert text[|text| - 1] == text[1];
  }

  lemma {:induction false} NumberValueFour(text: string)
    requires |text| == 4 && forall i :: 0 <= i < 4 ==> IsDigit(text[i])
    ensures NumberValue(text) == ((DigitValue(text[0]) * 10 + DigitValue(text[1])) * 10
                                  + DigitValue(text[2])) * 10 + DigitValue(text[3])
  {
    NumberValueTwo(text[..2]);
    assert text[..3][..2] == text[..2];
  }

  /** Matches the compiled format from its `j`-th token on against `s`
      from position `i`, trying the alternatives in order and backtracking
      on failure, like a regular expression `match` without an end anchor.
      Returns the position the first successful match ends at and the groups
      of its directives. */
  function Match(toks: seq<Tok>, j: nat, s: string, i: nat): (r: Option<(nat, seq<Group>)>)
    requires j <= |toks| && i <= |s|
    ensures r.Some? ==> i <= r.value.0 <= |s|
    decreases |toks| - j, 1, 0
  {
    if j == |toks| then Some((i, []))
    else TryFrom(toks, j, s, i, Alternatives(toks[j], s, i), 0)
  }

  /** Tries the alternatives of token `j` from the `k`-th on: the first whose
      text lets the rest of the format match wins. */
  function TryFrom(toks: seq<Tok>, j: nat, s: string, i: nat, alts: seq<nat>, k: nat): (r: Option<(nat, seq<Group>)>)
    requires j < |toks| && i <= |s|
    requires Fits(s, i, alts)
    ensures r.Some? ==> i <= r.value.0 <= |s|
    decreases |toks| - j, 0, |alts| - k
  {
    if k >= |alts| then None
    else
      match Match(toks, j + 1, s, i + alts[k])
      case Some((end, groups)) => Some((end, Emit(toks[j], s[i..i + alts[k]]) + groups))
      case None => TryFrom(toks, j, s, i, alts, k + 1)
  }

  /** The group a token adds: a directive's text is a group, a literal's is not. */
  function Emit(t: Tok, text: string): seq<Group> {
    if t.Lit? then [] else [Group(t, text)]
  }

  /** The values of the groups, in order (`found.groupdict()` converted). */
  function Fields(groups: seq<Group>): seq<Field> {
    if groups == [] then [] else Capture(groups[0].tok, groups[0].text) + Fields(groups[1..])
  }

  /** The date built from the captured fields (a missing field keeps
      `strptime`'s default of 1900-01-01). */
  function Assemble(fields: seq<Field>, acc: Date): Date
    decreases |fields|
  {
    if fields == [] then acc
    else
      var acc' := match fields[0]
        case DayField(d) => acc.(day := d)
        case MonthField(m) => acc.(month := m)
        case YearField(y) => acc.(year := y);
      Assemble(fields[1..], acc')
  }

  /** `datetime.strptime(s, fmt).date()`; `None` where it raises ValueError. */
  function Strptime(s: string, fmt: string): (r: Option<Date>)
    ensures r.Some? ==> ValidDate(r.value)
  {
    match Match(Compile(fmt), 0, s, 0)
    case None => None
    case Some((end, groups)) =>
      if end != |s| then None
      else
        var d := Assemble(Fields(groups), Date(1900, 1, 1));
        if ValidDate(d) then Some(d) else None
  }

  // ---------------------------------------------------------------------------
  // parse_date
  // ---------------------------------------------------------------------------

  /** The formats `parse_date` tries, in order. */
  const DATE_FORMATS: seq<string> :=
    ["%d/%m/%y", "%d/%m/%Y", "%d-%b", "%d/%m", "%d-%b-%y", "%d/%m", "%m/%d/%y", "%m/%d/%Y", "%d-%b-%Y"]

  /** One attempt of the loop: formats without a year are tried on the text
      with "-" and the current year appended, against the format + "-%Y". */
  function TryFormat(s: string, year: nat, fmt: string): (r: Option<Date>)
    ensures r.Some? ==> ValidDate(r.value)
  {
    if fmt == "%d-%b" || fmt == "%d/%m" then Strptime(s + "-" + NatToString(year), fmt + "-%Y")
    else Strptime(s, fmt)
  }

  /** The first format in `fmts` that parses `s`. */
  function FirstFormat(s: string, year: nat, fmts: seq<string>): (r: Option<Date>)
    ensures r.Some? ==> ValidDate(r.value)
  {
    if fmts == [] then None
    else
      var here := TryFormat(s, year, fmts[0]);
      if here.Some? then here else FirstFormat(s, year, fmts[1..])
  }

  /** The result is that of the first format that parses; when there is
      none, no format parses. */
  lemma {:induction false} FirstFormatIsFirst(s: string, year: nat, fmts: seq<string>)
    ensures var r := FirstFormat(s, year, fmts);
            r.Some? ==> exists k :: 0 <= k < |fmts| && TryFormat(s, year, fmts[k]) == r
                                    && forall j :: 0 <= j < k ==> TryFormat(s, year, fmts[j]).None?
    ensures FirstFormat(s, year, fmts).None? <==> forall k :: 0 <= k < |fmts| ==> TryFormat(s, year, fmts[k]).None?
  {
    if fmts != [] && TryFormat(s, year, fmts[0]).None? {
      FirstFormatIsFirst(s, year, fmts[1..]);
      var rest := FirstFormat(s, year, fmts[1..]);
      if rest.Some? {
        var k :| 0 <= k < |fmts[1..]| && TryFormat(s, year, fmts[1..][k]) == rest
                 && forall j :: 0 <= j < k ==> TryFormat(s, year, fmts[1..][j]).None?;
        assert TryFormat(s, year, fmts[k + 1]) == rest;
        forall j | 0 <= j < k + 1
          ensures TryFormat(s, year, fmts[j]).None?
        {
          if j > 0 { assert fmts[j] == fmts[1..][j - 1]; }
        }
      } else {
        forall k | 0 <= k < |fmts|
          ensures TryFormat(s, year, fmts[k]).None?
        {
          if k > 0 { assert fmts[k] == fmts[1..][k - 1]; }
        }
      }
    }
  }

  function Count(s: string, c: char): nat {
    if s == [] then 0 else (if s[0] == c then 1 else 0) + Count(s[1..], c)
  }

  function IndexOf(s: string, c: char): (r: nat)
    ensures r <= |s|
    ensures r < |s| ==> s[r] == c
    ensures forall i :: 0 <= i < r ==> s[i] != c
  {
    if s == [] then 0 else if s[0] == c then 0 else 1 + IndexOf(s[1..], c)
  }

  /** The final attempt for "day/month" text: exactly one '/', both halves
      accepted by `int()`, and a real date in the current year. */
  function DayMonthFallback(s: string, year: nat): (r: Option<Date>)
    ensures r.Some? ==> ValidDate(r.value) && r.value.year == year
    ensures r.Some? ==> Count(s, '/') == 1
  {
    if Count(s, '/') != 1 then None
    else
      var k := IndexOf(s, '/');
      if k == |s| then None
      else
        match (PyInt(s[..k]), PyInt(s[k + 1..]))
        case (Some(day), Some(month)) =>
          var d := Date(year, month, day);
          if ValidDate(d) then Some(d) else None
        case _ => None
  }

  /** `parse_date(date_str)` with the current year passed in. */
  function ParseDate(s: string, year: nat): (r: Option<Date>)
    ensures r.Some? ==> ValidDate(r.value)
    ensures s == "" || Lower(s) == "nil" || Lower(s) == "null" ==> r.None?
  {
    if s == "" || Lower(s) == "nil" || Lower(s) == "null" then None
    else
      match FirstFormat(s, year, DATE_FORMATS)
      case Some(d) => Some(d)
      case None => DayMonthFallback(s, year)
  }

  // ---------------------------------------------------------------------------
  // One step of the matcher
  // ---------------------------------------------------------------------------

  /** Puts the groups of one token in front of the result of the rest. */
  function Prepend(groups: seq<Group>, r: Option<(nat, seq<Group>)>): Option<(nat, seq<Group>)> {
    match r
    case None => None
    case Some((end, rest)) => Some((end, groups + rest))
  }

  /** Trying a single alternative of length n. */
  lemma {:induction false} TryOne(toks: seq<Tok>, j: nat, s: string, i: nat, n: nat)
    requires j < |toks| && 0 < n && i + n <= |s|
    ensures TryFrom(toks, j, s, i, [n], 0)
            == Prepend(Emit(toks[j], s[i..i + n]), Match(toks, j + 1, s, i + n))
  {
    assert [n][0] == n;
  }

  /** A directive with a single alternative of length n. */
  lemma {:induction false} MatchOne(toks: seq<Tok>, j: nat, s: string, i: nat, n: nat)
    requires j < |toks| && 0 < n && i + n <= |s| && Alternatives(toks[j], s, i) == [n]
    ensures Match(toks, j, s, i) == Prepend(Emit(toks[j], s[i..i + n]), Match(toks, j + 1, s, i + n))
  {
    TryOne(toks, j, s, i, n);
  }

  /** Trying two alternatives when the first lets the rest match: it wins. */
  lemma {:induction false} TryFirstOfTwo(toks: seq<Tok>, j: nat, s: string, i: nat, n1: nat, n2: nat)
    requires j < |toks| && 0 < n1 && 0 < n2 && i + n1 <= |s| && i + n2 <= |s|
    requires Match(toks, j + 1, s, i + n1).Some?
    ensures TryFrom(toks, j, s, i, [n1, n2], 0)
            == Prepend(Emit(toks[j], s[i..i + n1]), Match(toks, j + 1, s, i + n1))
  {
    assert [n1, n2][0] == n1;
  }

  /** Trying two alternatives when the first does not let the rest match:
      the outcome is the second's. */
  lemma {:induction false} TrySecondOfTwo(toks: seq<Tok>, j: nat, s: string, i: nat, n1: nat, n2: nat)
    requires j < |toks| && 0 < n1 && 0 < n2 && i + n1 <= |s| && i + n2 <= |s|
    requires Match(toks, j + 1, s, i + n1).None?
    ensures TryFrom(toks, j, s, i, [n1, n2], 0)
            == Prepend(Emit(toks[j], s[i..i + n2]), Match(toks, j + 1, s, i + n2))
  {
    var alts := [n1, n2];
    assert alts[0] == n1 && alts[1] == n2;
    assert TryFrom(toks, j, s, i, alts, 0) == TryFrom(toks, j, s, i, alts, 1);
    if Match(toks, j + 1, s, i + n2).None? {
      assert TryFrom(toks, j, s, i, alts, 2) == None;
    }
  }

  /** A directive with two alternatives. */
  lemma {:induction false} MatchTwo(toks: seq<Tok>, j: nat, s: string, i: nat, n1: nat, n2: nat)
    requires j < |toks| && 0 < n1 && 0 < n2 && i + n1 <= |s| && i + n2 <= |s|
    requires Alternatives(toks[j], s, i) == [n1, n2]
    ensures Match(toks, j + 1, s, i + n1).Some? ==>
              Match(toks, j, s, i) == Prepend(Emit(toks[j], s[i..i + n1]), Match(toks, j + 1, s, i + n1))
    ensures Match(toks, j + 1, s, i + n1).None? ==>
              Match(toks, j, s, i) == Prepend(Emit(toks[j], s[i..i + n2]), Match(toks, j + 1, s, i + n2))
  {
    if Match(toks, j + 1, s, i + n1).Some? {
      TryFirstOfTwo(toks, j, s, i, n1, n2);
    } else {
      TrySecondOfTwo(toks, j, s, i, n1, n2);
    }
  }

  /** A literal separator either matches one character or fails the match. */
  lemma {:induction false} MatchLit(toks: seq<Tok>, j: nat, s: string, i: nat)
    requires j < |toks| && toks[j].Lit? && i <= |s|
    ensures i < |s| && s[i] == toks[j].c ==> Match(toks, j, s, i) == Match(toks, j + 1, s, i + 1)
    ensures !(i < |s| && s[i] == toks[j].c) ==> Match(toks, j, s, i).None?
  {
    if i < |s| && s[i] == toks[j].c {
      MatchOne(toks, j, s, i, 1);
      match Match(toks, j + 1, s, i + 1)
      case Some((end, groups)) => assert [] + groups == groups;
      case None =>
    }
  }

  /** A directive with no alternative fails the match. */
  lemma {:induction false} MatchNone(toks: seq<Tok>, j: nat, s: string, i: nat)
    requires j < |toks| && i <= |s| && Alternatives(toks[j], s, i) == []
    ensures Match(toks, j, s, i).None?
  {
  }

  /** When the rest of the format fails after every alternative from the
      `k`-th on, so does trying them. */
  lemma {:induction false} TryAllFail(toks: seq<Tok>, j: nat, s: string, i: nat, alts: seq<nat>, k: nat)
    requires j < |toks| && i <= |s|
    requires Fits(s, i, alts)
    requires forall m :: k <= m < |alts| ==> Match(toks, j + 1, s, i + alts[m]).None?
    ensures TryFrom(toks, j, s, i, alts, k).None?
    decreases |alts| - k
  {
    if k < |alts| {
      TryAllFail(toks, j, s, i, alts, k + 1);
    }
  }

  /** A directive followed by a separator that no reading of the directive
      is followed by: the format does not match here. */
  lemma {:induction false} FieldThenLitFails(toks: seq<Tok>, j: nat, s: string, i: nat)
    requires j + 1 < |toks| && toks[j + 1].Lit? && i <= |s|
    requires forall k :: 0 <= k < |Alternatives(toks[j], s, i)| ==>
               var e := i + Alternatives(toks[j], s, i)[k]; !(e < |s| && s[e] == toks[j + 1].c)
    ensures Match(toks, j, s, i).None?
  {
    var alts := Alternatives(toks[j], s, i);
    forall k | 0 <= k < |alts|
      ensures Match(toks, j + 1, s, i + alts[k]).None?
    {
      MatchLit(toks, j + 1, s, i + alts[k]);
    }
    TryAllFail(toks, j, s, i, alts, 0);
  }

  /** Two digits the directive accepts as a whole (a day 01-31, a month 01-12, any year). */
  predicate TwoDigitField(t: Tok, s: string, i: nat) {
    && i + 2 <= |s| && IsDigit(s[i]) && IsDigit(s[i + 1])
    && var v := DigitValue(s[i]) * 10 + DigitValue(s[i + 1]);
       match t
       case Day => 1 <= v <= 31
       case Month => 1 <= v <= 12
       case Year2 => true
       case _ => false
  }

  lemma {:induction false} TwoDigitAlternatives(t: Tok, s: string, i: nat)
    requires TwoDigitField(t, s, i)
    ensures Alternatives(t, s, i) == [2] || Alternatives(t, s, i) == [2, 1]
  {
  }

  /** A two-digit field is read whole when the rest of the format then matches. */
  lemma {:induction false} MatchTwoDigitField(toks: seq<Tok>, j: nat, s: string, i: nat)
    requires j < |toks| && TwoDigitField(toks[j], s, i)
    requires Match(toks, j + 1, s, i + 2).Some?
    ensures Match(toks, j, s, i) == Prepend([Group(toks[j], s[i..i + 2])], Match(toks, j + 1, s, i + 2))
  {
    TwoDigitAlternatives(toks[j], s, i);
    if Alternatives(toks[j], s, i) == [2] {
      MatchOne(toks, j, s, i, 2);
    } else {
      MatchTwo(toks, j, s, i, 2, 1);
    }
  }

  /** The value of two digits at position i. */
  function TwoDigitValue(s: string, i: nat): nat
    requires i + 2 <= |s| && IsDigit(s[i]) && IsDigit(s[i + 1])
  {
    DigitValue(s[i]) * 10 + DigitValue(s[i + 1])
  }

  function FieldOf(t: Tok, v: nat): seq<Field> {
    match t
    case Day => [DayField(v)]
    case Month => [MonthField(v)]
    case Year2 => [YearField(Pivot(v))]
    case _ => []
  }

  lemma {:induction false} CaptureTwoDigits(t: Tok, s: string, i: nat)
    requires TwoDigitField(t, s, i)
    ensures Capture(t, s[i..i + 2]) == FieldOf(t, TwoDigitValue(s, i))
  {
    NumberValueTwo(s[i..i + 2]);
  }

  /** The values of three groups, in order. */
  lemma {:induction false} FieldsOfThree(g1: Group, g2: Group, g3: Group)
    ensures Fields([g1, g2, g3]) == Capture(g1.tok, g1.text) + Capture(g2.tok, g2.text) + Capture(g3.tok, g3.text)
  {
    var gs := [g1, g2, g3];
    var c1, c2, c3 := Capture(g1.tok, g1.text), Capture(g2.tok, g2.text), Capture(g3.tok, g3.text);
    assert gs[1..] == [g2, g3] && gs[1..][1..] == [g3] && gs[1..][1..][1..] == [];
    assert Fields([g3]) == c3 + [] == c3;
    assert Fields([g2, g3]) == c2 + c3;
    assert Fields(gs) == c1 + (c2 + c3) == c1 + c2 + c3;
  }

  /** A two-digit field followed by its separator, then the rest of the format. */
  lemma {:induction false} MatchFieldThenLit(toks: seq<Tok>, j: nat, s: string, i: nat)
    requires j + 1 < |toks| && toks[j + 1].Lit? && TwoDigitField(toks[j], s, i)
    requires i + 2 < |s| && s[i + 2] == toks[j + 1].c
    requires Match(toks, j + 2, s, i + 3).Some?
    ensures Match(toks, j, s, i) == Prepend([Group(toks[j], s[i..i + 2])], Match(toks, j + 2, s, i + 3))
  {
    MatchLit(toks, j + 1, s, i + 2);
    MatchTwoDigitField(toks, j, s, i);
  }

  /** A two-digit field that ends the format. */
  lemma {:induction false} MatchFinalField(toks: seq<Tok>, j: nat, s: string, i: nat)
    requires j + 1 == |toks| && TwoDigitField(toks[j], s, i)
    ensures Match(toks, j, s, i) == Some((i + 2, [Group(toks[j], s[i..i + 2])]))
  {
    MatchTwoDigitField(toks, j, s, i);
    assert [Group(toks[j], s[i..i + 2])] + [] == [Group(toks[j], s[i..i + 2])];
  }

  /** Two two-digit fields, each followed by its separator, then the rest of the format. */
  lemma {:induction false} MatchSlashFields(t: seq<Tok>, s: string, end: nat, last: seq<Group>)
    requires |t| == 5 && t[1].Lit? && t[3].Lit? && 5 < |s|
    requires TwoDigitField(t[0], s, 0) && s[2] == t[1].c
    requires TwoDigitField(t[2], s, 3) && s[5] == t[3].c
    requires Match(t, 4, s, 6) == Some((end, last))
    ensures Match(t, 0, s, 0) == Some((end, [Group(t[0], s[0..2]), Group(t[2], s[3..5])] + last))
  {
    MatchFieldThenLit(t, 2, s, 3);
    MatchFieldThenLit(t, 0, s, 0);
    assert [Group(t[0], s[0..2])] + ([Group(t[2], s[3..5])] + last)
        == [Group(t[0], s[0..2]), Group(t[2], s[3..5])] + last;
  }

  /** Every reading of `%d` and `%m` is one or two characters long. */
  lemma {:induction false} ShortAlternatives(t: Tok, s: string, i: nat)
    requires (t == Day || t == Month) && i <= |s|
    ensures forall k :: 0 <= k < |Alternatives(t, s, i)| ==>
              Alternatives(t, s, i)[k] == 1 || Alternatives(t, s, i)[k] == 2
  {
  }

  /** A day or month directive fails when the rest of the format fails
      after both one and two characters. */
  lemma {:induction false} ShortFieldFails(toks: seq<Tok>, j: nat, s: string, i: nat)
    requires j < |toks| && (toks[j] == Day || toks[j] == Month) && i <= |s|
    requires i + 1 <= |s| ==> Match(toks, j + 1, s, i + 1).None?
    requires i + 2 <= |s| ==> Match(toks, j + 1, s, i + 2).None?
    ensures Match(toks, j, s, i).None?
  {
    ShortAlternatives(toks[j], s, i);
    TryAllFail(toks, j, s, i, Alternatives(toks[j], s, i), 0);
  }

  /** A day or month directive followed by a separator that occurs neither
      one nor two characters later. */
  lemma {:induction false} ShortFieldThenLitFails(toks: seq<Tok>, j: nat, s: string, i: nat)
    requires j + 1 < |toks| && (toks[j] == Day || toks[j] == Month) && toks[j + 1].Lit? && i <= |s|
    requires i + 1 < |s| ==> s[i + 1] != toks[j + 1].c
    requires i + 2 < |s| ==> s[i + 2] != toks[j + 1].c
    ensures Match(toks, j, s, i).None?
  {
    if i + 1 <= |s| { MatchLit(toks, j + 1, s, i + 1); }
    if i + 2 <= |s| { MatchLit(toks, j + 1, s, i + 2); }
    ShortFieldFails(toks, j, s, i);
  }

  /** Two digits above 12 can only be read as a one-digit month. */
  lemma {:induction false} MonthOver12(s: string, i: nat)
    requires i + 2 <= |s| && IsDigit(s[i]) && IsDigit(s[i + 1]) && TwoDigitValue(s, i) >= 13
    ensures Alternatives(Month, s, i) == [1]
  {
  }

  /** Four digits ending the format, read by `%Y`. */
  lemma {:induction false} MatchFinalYear4(toks: seq<Tok>, j: nat, s: string, i: nat)
    requires j + 1 == |toks| && toks[j] == Year4 && i + 4 == |s|
    requires forall k :: i <= k < |s| ==> IsDigit(s[k])
    ensures Match(toks, j, s, i) == Some((|s|, [Group(Year4, s[i..])]))
  {
    assert s[i..i + 4] == s[i..];
    assert Alternatives(Year4, s, i) == [4];
    MatchOne(toks, j, s, i, 4);
    assert [Group(Year4, s[i..])] + [] == [Group(Year4, s[i..])];
  }

  /** Formats that all fail can be skipped. */
  lemma {:induction false} FirstFormatSkip(s: string, year: nat, fmts: seq<string>, k: nat)
    requires k <= |fmts|
    requires forall j :: 0 <= j < k ==> TryFormat(s, year, fmts[j]).None?
    ensures FirstFormat(s, year, fmts) == FirstFormat(s, year, fmts[k..])
  {
    if k > 0 {
      assert TryFormat(s, year, fmts[0]).None?;
      forall j | 0 <= j < k - 1
        ensures TryFormat(s, year, fmts[1..][j]).None?
      {
        assert fmts[1..][j] == fmts[j + 1];
      }
      FirstFormatSkip(s, year, fmts[1..], k - 1);
      assert fmts[1..][k - 1..] == fmts[k..];
    }
  }
}
