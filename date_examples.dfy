/** What `parse_date` does with day-first, month-first and year-less
    numeric text, proved by following the matcher through its formats in
    order. */
module DateParseProperties {
  import opened Common
  import opened DateParse

  /** Two decimal digits, zero-padded (`strftime`'s `%d`, `%m`, `%y`). */
  function Pad2(n: nat): (r: string)
    requires n < 100
    ensures |r| == 2 && IsDigit(r[0]) && IsDigit(r[1])
    ensures DigitValue(r[0]) * 10 + DigitValue(r[1]) == n
  {
    [DigitChar(n / 10), DigitChar(n % 10)]
  }

  const DMY2: seq<Tok> := [Day, Lit('/'), Month, Lit('/'), Year2]

  /** The layout of "aa" sep "bb" sep tail. */
  lemma {:induction false} PaddedFields(a: nat, b: nat, sep1: char, sep2: char, tail: string)
    requires a < 100 && b < 100
    ensures var s := Pad2(a) + [sep1] + Pad2(b) + [sep2] + tail;
            && |s| == 6 + |tail| && s[2] == sep1 && s[5] == sep2 && s[6..] == tail
            && IsDigit(s[0]) && IsDigit(s[1]) && IsDigit(s[3]) && IsDigit(s[4])
            && TwoDigitValue(s, 0) == a && TwoDigitValue(s, 3) == b
  {
    var s := Pad2(a) + [sep1] + Pad2(b) + [sep2] + tail;
    assert s[0] == Pad2(a)[0] && s[1] == Pad2(a)[1] && s[3] == Pad2(b)[0] && s[4] == Pad2(b)[1];
    assert s[6..] == tail;
  }


  /** "aa" sep "bb" sep "yy" with two-digit fields t1, t2, Year2: the match
      covers the text and its groups are the three numerals. */
  lemma {:induction false} MatchTwoDigitYear(t: seq<Tok>, a: nat, b: nat, yy: nat, sep: char)
    requires |t| == 5 && t[1] == Lit(sep) && t[3] == Lit(sep) && t[4] == Year2
    requires a < 100 && b < 100 && yy < 100
    requires var s := Pad2(a) + [sep] + Pad2(b) + [sep] + Pad2(yy);
             TwoDigitField(t[0], s, 0) && TwoDigitField(t[2], s, 3)
    ensures var s := Pad2(a) + [sep] + Pad2(b) + [sep] + Pad2(yy);
            Match(t, 0, s, 0) == Some((8, [Group(t[0], s[0..2]), Group(t[2], s[3..5]), Group(Year2, s[6..8])]))
  {
    var s := Pad2(a) + [sep] + Pad2(b) + [sep] + Pad2(yy);
    PaddedFields(a, b, sep, sep, Pad2(yy));
    assert s[6] == Pad2(yy)[0] && s[7] == Pad2(yy)[1];
    MatchFinalField(t, 4, s, 6);
    MatchSlashFields(t, s, 8, [Group(Year2, s[6..8])]);
    assert [Group(t[0], s[0..2]), Group(t[2], s[3..5])] + [Group(Year2, s[6..8])]
        == [Group(t[0], s[0..2]), Group(t[2], s[3..5]), Group(Year2, s[6..8])];
  }

  /** The values of the groups of "aa" sep "bb" sep "yy". */
  lemma {:induction false} TwoDigitYearValues(t1: Tok, t2: Tok, a: nat, b: nat, yy: nat, sep: char)
    requires a < 100 && b < 100 && yy < 100
    requires var s := Pad2(a) + [sep] + Pad2(b) + [sep] + Pad2(yy);
             TwoDigitField(t1, s, 0) && TwoDigitField(t2, s, 3)
    ensures var s := Pad2(a) + [sep] + Pad2(b) + [sep] + Pad2(yy);
            Fields([Group(t1, s[0..2]), Group(t2, s[3..5]), Group(Year2, s[6..8])])
            == FieldOf(t1, a) + FieldOf(t2, b) + [YearField(Pivot(yy))]
  {
    var s := Pad2(a) + [sep] + Pad2(b) + [sep] + Pad2(yy);
    PaddedFields(a, b, sep, sep, Pad2(yy));
    assert s[6] == Pad2(yy)[0] && s[7] == Pad2(yy)[1];
    FieldsOfThree(Group(t1, s[0..2]), Group(t2, s[3..5]), Group(Year2, s[6..8]));
    CaptureTwoDigits(t1, s, 0);
    CaptureTwoDigits(t2, s, 3);
    CaptureTwoDigits(Year2, s, 6);
  }

  /** Numeric "a/b/yy" text reads as day a, month b when both fit. */
  lemma {:induction false} MatchDMY2(a: nat, b: nat, yy: nat)
    requires 1 <= a <= 31 && 1 <= b <= 12 && yy < 100
    ensures var s := Pad2(a) + "/" + Pad2(b) + "/" + Pad2(yy);
            && Match(DMY2, 0, s, 0).Some? && Match(DMY2, 0, s, 0).value.0 == 8
            && Fields(Match(DMY2, 0, s, 0).value.1) == [DayField(a), MonthField(b), YearField(Pivot(yy))]
  {
    var s := Pad2(a) + "/" + Pad2(b) + "/" + Pad2(yy);
    assert s == Pad2(a) + ['/'] + Pad2(b) + ['/'] + Pad2(yy);
    PaddedFields(a, b, '/', '/', Pad2(yy));
    assert DMY2[0] == Day && DMY2[2] == Month;
    MatchTwoDigitYear(DMY2, a, b, yy, '/');
    TwoDigitYearValues(Day, Month, a, b, yy, '/');
  }

  /** The fields of a two-digit day, month and year, assembled. */
  lemma {:induction false} AssembleDMY(a: nat, b: nat, y: int)
    ensures Assemble([DayField(a), MonthField(b), YearField(y)], Date(1900, 1, 1)) == Date(y, b, a)
  {
    var f := [DayField(a), MonthField(b), YearField(y)];
    assert f[1..] == [MonthField(b), YearField(y)];
    assert f[1..][1..] == [YearField(y)];
    assert f[1..][1..][1..] == [];
    var d0 := Date(1900, 1, 1);
    assert Assemble(f[1..][1..], d0.(day := a).(month := b)) == Date(y, b, a);
    assert Assemble(f[1..], d0.(day := a)) == Date(y, b, a);
  }

  lemma {:induction false} CompileDMY2()
    ensures Compile("%d/%m/%y") == DMY2
  {
    assert Compile("%y") == [Year2];
    assert Compile("/%y") == [Lit('/'), Year2];
    assert Compile("%m/%y") == [Month, Lit('/'), Year2];
    assert Compile("/%m/%y") == [Lit('/'), Month, Lit('/'), Year2];
  }

  /** "dd/mm/yy" text of a real date is read day first, by the first format. */
  lemma {:induction false} DayFirstWins(a: nat, b: nat, yy: nat, year: nat)
    requires 1 <= a <= 31 && 1 <= b <= 12 && yy < 100
    requires ValidDate(Date(Pivot(yy), b, a))
    ensures ParseDate(Pad2(a) + "/" + Pad2(b) + "/" + Pad2(yy), year) == Some(Date(Pivot(yy), b, a))
  {
    var s := Pad2(a) + "/" + Pad2(b) + "/" + Pad2(yy);
    MatchDMY2(a, b, yy);
    CompileDMY2();
    AssembleDMY(a, b, Pivot(yy));
    assert Strptime(s, "%d/%m/%y") == Some(Date(Pivot(yy), b, a));
    assert TryFormat(s, year, DATE_FORMATS[0]) == Some(Date(Pivot(yy), b, a));
    assert |Lower(s)| == 8;
  }

  /** A date written day first with two-digit fields: "03/04/90" is 3 April 1990. */
  lemma {:induction false} DayFirstExample(year: nat)
    ensures ParseDate("03/04/90", year) == Some(Date(1990, 4, 3))
  {
    assert Pad2(3) + "/" + Pad2(4) + "/" + Pad2(90) == "03/04/90";
    DayFirstWins(3, 4, 90, year);
  }

  const DMY4: seq<Tok> := [Day, Lit('/'), Month, Lit('/'), Year4]
  const DMDashY4: seq<Tok> := [Day, Lit('/'), Month, Lit('-'), Year4]
  const DBY2: seq<Tok> := [Day, Lit('-'), MonthName, Lit('-'), Year2]
  const DBY4: seq<Tok> := [Day, Lit('-'), MonthName, Lit('-'), Year4]
  const MDY2: seq<Tok> := [Month, Lit('/'), Day, Lit('/'), Year2]
  const MDY4: seq<Tok> := [Month, Lit('/'), Day, Lit('/'), Year4]

  /** The compiled forms of the formats, as they are tried (a year-less
      format with "-%Y" appended). */
  lemma {:induction false} CompileDMY4()
    ensures Compile("%d/%m/%Y") == DMY4
  {
    assert Compile("%Y") == [Year4];
    assert Compile("/%Y") == [Lit('/'), Year4];
    assert Compile("%m/%Y") == [Month, Lit('/'), Year4];
    assert Compile("/%m/%Y") == [Lit('/'), Month, Lit('/'), Year4];
  }

  lemma {:induction false} CompileDMDashY4()
    ensures Compile("%d/%m" + "-%Y") == DMDashY4
  {
    assert "%d/%m" + "-%Y" == "%d/%m-%Y";
    assert Compile("%Y") == [Year4];
    assert Compile("-%Y") == [Lit('-'), Year4];
    assert Compile("%m-%Y") == [Month, Lit('-'), Year4];
    assert Compile("/%m-%Y") == [Lit('/'), Month, Lit('-'), Year4];
  }

  lemma {:induction false} CompileDBY4()
    ensures Compile("%d-%b-%Y") == DBY4
    ensures Compile("%d-%b" + "-%Y") == DBY4
  {
    assert "%d-%b" + "-%Y" == "%d-%b-%Y";
    assert Compile("%Y") == [Year4];
    assert Compile("-%Y") == [Lit('-'), Year4];
    assert Compile("%b-%Y") == [MonthName, Lit('-'), Year4];
    assert Compile("-%b-%Y") == [Lit('-'), MonthName, Lit('-'), Year4];
  }

  lemma {:induction false} CompileDBY2()
    ensures Compile("%d-%b-%y") == DBY2
  {
    assert Compile("%y") == [Year2];
    assert Compile("-%y") == [Lit('-'), Year2];
    assert Compile("%b-%y") == [MonthName, Lit('-'), Year2];
    assert Compile("-%b-%y") == [Lit('-'), MonthName, Lit('-'), Year2];
  }

  lemma {:induction false} CompileMDY2()
    ensures Compile("%m/%d/%y") == MDY2
  {
    assert Compile("%y") == [Year2];
    assert Compile("/%y") == [Lit('/'), Year2];
    assert Compile("%d/%y") == [Day, Lit('/'), Year2];
    assert Compile("/%d/%y") == [Lit('/'), Day, Lit('/'), Year2];
  }

  lemma {:induction false} CompileMDY4()
    ensures Compile("%m/%d/%Y") == MDY4
  {
    assert Compile("%Y") == [Year4];
    assert Compile("/%Y") == [Lit('/'), Year4];
    assert Compile("%d/%Y") == [Day, Lit('/'), Year4];
    assert Compile("/%d/%Y") == [Lit('/'), Day, Lit('/'), Year4];
  }

  /** A month of two digits above 13 followed by a separator that is not a
      digit: the one-digit reading meets the second digit instead. */
  lemma {:induction false} LargeMonthFails(t: seq<Tok>, s: string)
    requires |t| >= 4 && t[2] == Month && t[3].Lit? && !IsDigit(t[3].c)
    requires |s| >= 5 && IsDigit(s[3]) && IsDigit(s[4]) && TwoDigitValue(s, 3) >= 13
    ensures Match(t, 2, s, 3).None?
  {
    MonthOver12(s, 3);
    FieldThenLitFails(t, 2, s, 3);
  }

  /** Text "dd/nn..." with nn above 12 fails every day-first numeric format:
      nn can only be a one-digit month, and then a digit follows where the
      separator should be. */
  lemma {:induction false} DayFirstFailsOnLargeSecond(t: seq<Tok>, s: string)
    requires |t| >= 4 && t[0] == Day && t[1] == Lit('/') && t[2] == Month && t[3].Lit? && !IsDigit(t[3].c)
    requires |s| >= 5 && IsDigit(s[1]) && s[2] == '/' && IsDigit(s[3]) && IsDigit(s[4])
    requires TwoDigitValue(s, 3) >= 13
    ensures Match(t, 0, s, 0).None?
  {
    LargeMonthFails(t, s);
    assert t[1].c == '/' && s[1] != '/';
    MatchLit(t, 1, s, 1);
    assert Match(t, 1, s, 1).None?;
    MatchLit(t, 1, s, 2);
    assert Match(t, 1, s, 2).None?;
    ShortFieldFails(t, 0, s, 0);
  }

  /** Text whose second and third characters are not '-' fails the "%d-%b" formats. */
  lemma {:induction false} DashFormatFails(t: seq<Tok>, s: string)
    requires |t| >= 2 && t[0] == Day && t[1] == Lit('-')
    requires |s| >= 3 && s[1] != '-' && s[2] != '-'
    ensures Match(t, 0, s, 0).None?
  {
    ShortFieldThenLitFails(t, 0, s, 0);
  }

  lemma {:induction false} MatchMDY2(m: nat, d: nat, yy: nat)
    requires 1 <= m <= 12 && 1 <= d <= 31 && yy < 100
    ensures var s := Pad2(m) + "/" + Pad2(d) + "/" + Pad2(yy);
            && Match(MDY2, 0, s, 0).Some? && Match(MDY2, 0, s, 0).value.0 == 8
            && Fields(Match(MDY2, 0, s, 0).value.1) == [MonthField(m), DayField(d), YearField(Pivot(yy))]
  {
    var s := Pad2(m) + "/" + Pad2(d) + "/" + Pad2(yy);
    assert s == Pad2(m) + ['/'] + Pad2(d) + ['/'] + Pad2(yy);
    PaddedFields(m, d, '/', '/', Pad2(yy));
    assert MDY2[0] == Month && MDY2[2] == Day;
    MatchTwoDigitYear(MDY2, m, d, yy, '/');
    TwoDigitYearValues(Month, Day, m, d, yy, '/');
  }

  lemma {:induction false} AssembleMDY(m: nat, d: nat, y: int)
    ensures Assemble([MonthField(m), DayField(d), YearField(y)], Date(1900, 1, 1)) == Date(y, m, d)
  {
    var f := [MonthField(m), DayField(d), YearField(y)];
    assert f[1..] == [DayField(d), YearField(y)];
    assert f[1..][1..] == [YearField(y)];
    assert f[1..][1..][1..] == [];
    var d0 := Date(1900, 1, 1);
    assert Assemble(f[1..][1..], d0.(month := m).(day := d)) == Date(y, m, d);
    assert Assemble(f[1..], d0.(month := m)) == Date(y, m, d);
  }

  /** Numeric text "dd/nn..." whose second field is above 12. */
  predicate LargeSecondField(s: string) {
    && |s| >= 5 && IsDigit(s[0]) && IsDigit(s[1]) && s[2] == '/' && IsDigit(s[3]) && IsDigit(s[4])
    && TwoDigitValue(s, 3) >= 13
  }

  lemma {:induction false} AppendYearKeepsLargeSecond(s: string, year: nat)
    requires LargeSecondField(s)
    ensures LargeSecondField(s + "-" + NatToString(year))
    ensures (s + "-" + NatToString(year))[1] == s[1] && (s + "-" + NatToString(year))[2] == s[2]
  {
  }

  /** Such text fails the first six formats. */
  lemma {:induction false} DayFirstFormatsFail(s: string, year: nat)
    requires LargeSecondField(s)
    ensures TryFormat(s, year, "%d/%m/%y").None? && TryFormat(s, year, "%d/%m/%Y").None?
    ensures TryFormat(s, year, "%d-%b").None? && TryFormat(s, year, "%d/%m").None?
    ensures TryFormat(s, year, "%d-%b-%y").None?
  {
    var s' := s + "-" + NatToString(year);
    AppendYearKeepsLargeSecond(s, year);
    CompileDMY2();
    DayFirstFailsOnLargeSecond(DMY2, s);
    CompileDMY4();
    DayFirstFailsOnLargeSecond(DMY4, s);
    CompileDBY4();
    DashFormatFails(DBY4, s');
    CompileDMDashY4();
    DayFirstFailsOnLargeSecond(DMDashY4, s');
    CompileDBY2();
    DashFormatFails(DBY2, s);
  }

  /** Text that is not empty and not "nil" or "null" goes through the formats. */
  lemma {:induction false} FormatsDecide(s: string, year: nat, d: Date)
    requires |s| != 0 && |s| != 3 && |s| != 4
    requires FirstFormat(s, year, DATE_FORMATS) == Some(d)
    ensures ParseDate(s, year) == Some(d)
  {
    assert |Lower(s)| == |s|;
  }

  /** The first six formats, named. */
  lemma {:induction false} FirstSixFormats(s: string, year: nat)
    requires TryFormat(s, year, "%d/%m/%y").None? && TryFormat(s, year, "%d/%m/%Y").None?
    requires TryFormat(s, year, "%d-%b").None? && TryFormat(s, year, "%d/%m").None?
    requires TryFormat(s, year, "%d-%b-%y").None?
    ensures forall k :: 0 <= k < 6 ==> TryFormat(s, year, DATE_FORMATS[k]).None?
  {
    forall k | 0 <= k < 6
      ensures TryFormat(s, year, DATE_FORMATS[k]).None?
    {
      assert DATE_FORMATS[k] in ["%d/%m/%y", "%d/%m/%Y", "%d-%b", "%d/%m", "%d-%b-%y"];
    }
  }

  lemma {:induction false} SkipFirstSix(s: string, year: nat)
    requires forall k :: 0 <= k < 6 ==> TryFormat(s, year, DATE_FORMATS[k]).None?
    ensures FirstFormat(s, year, DATE_FORMATS) == FirstFormat(s, year, DATE_FORMATS[6..])
  {
    FirstFormatSkip(s, year, DATE_FORMATS, 6);
  }

  lemma {:induction false} SeventhFormatFirst(s: string, year: nat, d: Date)
    requires TryFormat(s, year, "%m/%d/%y") == Some(d)
    ensures FirstFormat(s, year, DATE_FORMATS[6..]) == Some(d)
  {
    assert DATE_FORMATS[6..][0] == "%m/%d/%y";
  }

  /** Text that fails the first six formats and parses with "%m/%d/%y" is
      read with that format. */
  lemma {:induction false} SeventhFormatWins(s: string, year: nat, d: Date)
    requires TryFormat(s, year, "%d/%m/%y").None? && TryFormat(s, year, "%d/%m/%Y").None?
    requires TryFormat(s, year, "%d-%b").None? && TryFormat(s, year, "%d/%m").None?
    requires TryFormat(s, year, "%d-%b-%y").None?
    requires TryFormat(s, year, "%m/%d/%y") == Some(d)
    ensures FirstFormat(s, year, DATE_FORMATS) == Some(d)
  {
    FirstSixFormats(s, year);
    SkipFirstSix(s, year);
    SeventhFormatFirst(s, year, d);
  }

  /** "mm/dd/yy" text whose day is above 12 falls through the day-first
      formats and is read month first. */
  lemma {:induction false} MonthFirstWhenDayOver12(m: nat, d: nat, yy: nat, year: nat)
    requires 1 <= m <= 12 && 13 <= d <= 31 && yy < 100
    requires ValidDate(Date(Pivot(yy), m, d))
    ensures ParseDate(Pad2(m) + "/" + Pad2(d) + "/" + Pad2(yy), year) == Some(Date(Pivot(yy), m, d))
  {
    var s := Pad2(m) + "/" + Pad2(d) + "/" + Pad2(yy);
    assert s[3..5] == Pad2(d);
    assert LargeSecondField(s);
    DayFirstFormatsFail(s, year);
    CompileMDY2();
    MatchMDY2(m, d, yy);
    AssembleMDY(m, d, Pivot(yy));
    assert TryFormat(s, year, "%m/%d/%y") == Some(Date(Pivot(yy), m, d));
    SeventhFormatWins(s, year, Date(Pivot(yy), m, d));
    FormatsDecide(s, year, Date(Pivot(yy), m, d));
  }

  /** "12/26/90" is 26 December 1990. */
  lemma {:induction false} MonthFirstExample(year: nat)
    ensures ParseDate("12/26/90", year) == Some(Date(1990, 12, 26))
  {
    assert Pad2(12) + "/" + Pad2(26) + "/" + Pad2(90) == "12/26/90";
    MonthFirstWhenDayOver12(12, 26, 90, year);
  }

  // ---------------------------------------------------------------------------
  // Year-less "dd/mm"
  // ---------------------------------------------------------------------------

  /** "dd/mm": two digits, a slash, two digits. */
  predicate DayMonthText(s: string) {
    |s| == 5 && IsDigit(s[0]) && IsDigit(s[1]) && s[2] == '/' && IsDigit(s[3]) && IsDigit(s[4])
  }

  /** "dd/mm" text is too short for every "a/b/year" format. */
  lemma {:induction false} SlashFormatFailsOnDayMonth(t: seq<Tok>, s: string)
    requires |t| >= 4 && (t[0] == Day || t[0] == Month) && t[1] == Lit('/')
    requires (t[2] == Day || t[2] == Month) && t[3] == Lit('/')
    requires DayMonthText(s)
    ensures Match(t, 0, s, 0).None?
  {
    ShortFieldThenLitFails(t, 2, s, 3);
    MatchLit(t, 1, s, 1);
    MatchLit(t, 1, s, 2);
    ShortFieldFails(t, 0, s, 0);
  }

  /** "dd/mm" with "-" and a four-digit year appended matches "%d/%m-%Y". */
  lemma {:induction false} MatchDayMonthYear(d: nat, m: nat, year: nat)
    requires 1 <= d <= 31 && 1 <= m <= 12 && 1000 <= year <= 9999
    ensures var s' := Pad2(d) + "/" + Pad2(m) + "-" + NatToString(year);
            Match(DMDashY4, 0, s', 0) == Some((|s'|, [Group(Day, s'[0..2]), Group(Month, s'[3..5]), Group(Year4, s'[6..])]))
  {
    var y := NatToString(year);
    var s' := Pad2(d) + "/" + Pad2(m) + "-" + y;
    NatToStringFourDigits(year);
    PaddedFields(d, m, '/', '-', y);
    assert s' == Pad2(d) + ['/'] + Pad2(m) + ['-'] + y;
    assert forall k :: 6 <= k < |s'| ==> s'[k] == y[k - 6];
    MatchFinalYear4(DMDashY4, 4, s', 6);
    assert DMDashY4[0] == Day && DMDashY4[2] == Month;
    MatchSlashFields(DMDashY4, s', 10, [Group(Year4, s'[6..])]);
    assert [Group(Day, s'[0..2]), Group(Month, s'[3..5])] + [Group(Year4, s'[6..])]
        == [Group(Day, s'[0..2]), Group(Month, s'[3..5]), Group(Year4, s'[6..])];
  }

  /** Its groups hold the day, the month and the year. */
  lemma {:induction false} DayMonthYearValues(d: nat, m: nat, year: nat)
    requires 1 <= d <= 31 && 1 <= m <= 12 && 1000 <= year <= 9999
    ensures var s' := Pad2(d) + "/" + Pad2(m) + "-" + NatToString(year);
            Fields([Group(Day, s'[0..2]), Group(Month, s'[3..5]), Group(Year4, s'[6..])])
            == [DayField(d), MonthField(m), YearField(year)]
  {
    var y := NatToString(year);
    var s' := Pad2(d) + "/" + Pad2(m) + "-" + y;
    NatToStringFourDigits(year);
    NatToStringRoundTrip(year);
    PaddedFields(d, m, '/', '-', y);
    assert s'[6..] == y;
    FieldsOfThree(Group(Day, s'[0..2]), Group(Month, s'[3..5]), Group(Year4, y));
    CaptureTwoDigits(Day, s', 0);
    CaptureTwoDigits(Month, s', 3);
    NumberValueOfDigits(y);
  }

  lemma {:induction false} AssembleDMYear(d: nat, m: nat, y: int)
    ensures Assemble([DayField(d), MonthField(m), YearField(y)], Date(1900, 1, 1)) == Date(y, m, d)
  {
    AssembleDMY(d, m, y);
  }

  /** The fourth format, "%d/%m" tried as "%d/%m-%Y" on the text with the
      year appended, reads "dd/mm" as that day of the current year. */
  lemma {:induction false} YearlessFormat(d: nat, m: nat, year: nat)
    requires 1 <= d <= 31 && 1 <= m <= 12 && 1000 <= year <= 9999
    ensures var s := Pad2(d) + "/" + Pad2(m);
            TryFormat(s, year, "%d/%m")
            == if ValidDate(Date(year, m, d)) then Some(Date(year, m, d)) else None
  {
    var s := Pad2(d) + "/" + Pad2(m);
    assert s + "-" + NatToString(year) == Pad2(d) + "/" + Pad2(m) + "-" + NatToString(year);
    MatchDayMonthYear(d, m, year);
    DayMonthYearValues(d, m, year);
    CompileDMDashY4();
    AssembleDMY(d, m, year);
  }

  lemma {:induction false} CountConcat(a: string, b: string, c: char)
    ensures Count(a + b, c) == Count(a, c) + Count(b, c)
  {
    if a != [] {
      assert (a + b)[1..] == a[1..] + b && (a + b)[0] == a[0];
      CountConcat(a[1..], b, c);
    } else {
      assert a + b == b;
    }
  }

  lemma {:induction false} Pad2Facts(n: nat)
    requires n < 100
    ensures Count(Pad2(n), '/') == 0
    ensures IsDigits(Pad2(n)) && DigitsValue(Pad2(n)) == n
  {
    var p := Pad2(n);
    assert p[0] != '/' && p[1] != '/';
    assert p[1..][1..] == [] && p[1..][0] == p[1];
    assert Count(p[1..], '/') == 0;
    assert p[..1][..0] == [] && p[..1][0] == p[0];
    assert DigitsValue(p[..1]) == DigitValue(p[0]);
    assert p[..|p| - 1] == p[..1];
  }

  /** The last attempt on "dd/mm": one slash, two integers. */
  lemma {:induction false} FallbackOnDayMonth(d: nat, m: nat, year: nat)
    requires 1 <= d <= 31 && 1 <= m <= 12
    ensures var s := Pad2(d) + "/" + Pad2(m);
            DayMonthFallback(s, year)
            == if ValidDate(Date(year, m, d)) then Some(Date(year, m, d)) else None
  {
    var s := Pad2(d) + "/" + Pad2(m);
    Pad2Facts(d);
    Pad2Facts(m);
    CountConcat(Pad2(d) + "/", Pad2(m), '/');
    CountConcat(Pad2(d), "/", '/');
    assert Count(s, '/') == 1;
    assert s[2] == '/' && s[0] != '/' && s[1] != '/';
    assert IndexOf(s, '/') == 2;
    assert s[..2] == Pad2(d) && s[3..] == Pad2(m);
    PyIntOfDigits(Pad2(d));
    PyIntOfDigits(Pad2(m));
  }

  lemma {:induction false} AppendYearKeepsSlash(s: string, year: nat)
    requires DayMonthText(s)
    ensures var s' := s + "-" + NatToString(year); |s'| >= 3 && s'[1] != '-' && s'[2] != '-'
  {
  }

  /** "dd/mm" fails every format but the year-less "%d/%m". */
  lemma {:induction false} DayMonthFailsOtherFormats(s: string, year: nat)
    requires DayMonthText(s)
    ensures TryFormat(s, year, "%d/%m/%y").None? && TryFormat(s, year, "%d/%m/%Y").None?
    ensures TryFormat(s, year, "%d-%b").None? && TryFormat(s, year, "%d-%b-%y").None?
    ensures TryFormat(s, year, "%m/%d/%y").None? && TryFormat(s, year, "%m/%d/%Y").None?
    ensures TryFormat(s, year, "%d-%b-%Y").None?
  {
    AppendYearKeepsSlash(s, year);
    CompileDMY2();
    SlashFormatFailsOnDayMonth(DMY2, s);
    CompileDMY4();
    SlashFormatFailsOnDayMonth(DMY4, s);
    CompileDBY4();
    DashFormatFails(DBY4, s + "-" + NatToString(year));
    DashFormatFails(DBY4, s);
    CompileDBY2();
    DashFormatFails(DBY2, s);
    CompileMDY2();
    SlashFormatFailsOnDayMonth(MDY2, s);
    CompileMDY4();
    SlashFormatFailsOnDayMonth(MDY4, s);
  }

  lemma {:induction false} SkipFirstThree(s: string, year: nat)
    requires TryFormat(s, year, "%d/%m/%y").None? && TryFormat(s, year, "%d/%m/%Y").None?
    requires TryFormat(s, year, "%d-%b").None?
    ensures FirstFormat(s, year, DATE_FORMATS) == FirstFormat(s, year, DATE_FORMATS[3..])
  {
    assert forall k :: 0 <= k < 3 ==> TryFormat(s, year, DATE_FORMATS[k]).None?;
    FirstFormatSkip(s, year, DATE_FORMATS, 3);
  }

  lemma {:induction false} FourthFormatFirst(s: string, year: nat, d: Date)
    requires TryFormat(s, year, "%d/%m") == Some(d)
    ensures FirstFormat(s, year, DATE_FORMATS[3..]) == Some(d)
  {
    assert DATE_FORMATS[3..][0] == "%d/%m";
  }

  lemma {:induction false} NoFormatParses(s: string, year: nat)
    requires TryFormat(s, year, "%d/%m/%y").None? && TryFormat(s, year, "%d/%m/%Y").None?
    requires TryFormat(s, year, "%d-%b").None? && TryFormat(s, year, "%d-%b-%y").None?
    requires TryFormat(s, year, "%m/%d/%y").None? && TryFormat(s, year, "%m/%d/%Y").None?
    requires TryFormat(s, year, "%d-%b-%Y").None? && TryFormat(s, year, "%d/%m").None?
    ensures forall k :: 0 <= k < |DATE_FORMATS| ==> TryFormat(s, year, DATE_FORMATS[k]).None?
  {
    forall k | 0 <= k < |DATE_FORMATS|
      ensures TryFormat(s, year, DATE_FORMATS[k]).None?
    {
      if k < 3 {
        assert DATE_FORMATS[k] in ["%d/%m/%y", "%d/%m/%Y", "%d-%b"];
      } else if k < 6 {
        assert DATE_FORMATS[k] in ["%d/%m", "%d-%b-%y"];
      } else {
        assert DATE_FORMATS[k] in ["%m/%d/%y", "%m/%d/%Y", "%d-%b-%Y"];
      }
    }
  }

  lemma {:induction false} AllFormatsFail(s: string, year: nat)
    requires forall k :: 0 <= k < |DATE_FORMATS| ==> TryFormat(s, year, DATE_FORMATS[k]).None?
    ensures FirstFormat(s, year, DATE_FORMATS).None?
  {
    FirstFormatIsFirst(s, year, DATE_FORMATS);
  }

  /** Text that no format parses is left to the "day/month" fallback. */
  lemma {:induction false} FallbackDecides(s: string, year: nat)
    requires |s| != 0 && |s| != 3 && |s| != 4
    requires FirstFormat(s, year, DATE_FORMATS).None?
    ensures ParseDate(s, year) == DayMonthFallback(s, year)
  {
    assert |Lower(s)| == |s|;
  }

  /** "dd/mm" is that day of the current year, and nothing when the current
      year has no such day. */
  lemma {:induction false} YearlessDayMonth(d: nat, m: nat, year: nat)
    requires 1 <= d <= 31 && 1 <= m <= 12 && 1000 <= year <= 9999
    ensures ParseDate(Pad2(d) + "/" + Pad2(m), year)
            == if ValidDate(Date(year, m, d)) then Some(Date(year, m, d)) else None
  {
    var s := Pad2(d) + "/" + Pad2(m);
    assert DayMonthText(s);
    DayMonthFailsOtherFormats(s, year);
    YearlessFormat(d, m, year);
    if ValidDate(Date(year, m, d)) {
      SkipFirstThree(s, year);
      FourthFormatFirst(s, year, Date(year, m, d));
      FormatsDecide(s, year, Date(year, m, d));
    } else {
      NoFormatParses(s, year);
      AllFormatsFail(s, year);
      FallbackDecides(s, year);
      FallbackOnDayMonth(d, m, year);
    }
  }

  /** "26/12" is 26 December of the current year. */
  lemma {:induction false} YearlessExample()
    ensures ParseDate("26/12", 2024) == Some(Date(2024, 12, 26))
  {
    assert Pad2(26) + "/" + Pad2(12) == "26/12";
    YearlessDayMonth(26, 12, 2024);
  }

  /** "26-Dec" is 26 December of the current year. */
  lemma {:induction false} YearlessNameExample(year: nat)
    requires 1000 <= year <= 9999
    ensures ParseDate("26-Dec", year) == Some(Date(year, 12, 26))
  {
    assert Pad2(26) + "-" + "Dec" == "26-Dec";
    DecIsDecember();
    YearlessDayMonthName(26, "Dec", year);
  }

  /** `%b` reads "Dec" as month 12. */
  lemma {:induction false} DecIsDecember()
    ensures MonthNameText("Dec") && MonthIndex("Dec") == 12
  {
    var low := Lower("Dec");
    assert low[0] == 'd' && low[1] == 'e' && low[2] == 'c';
    assert low == "dec";
    var names := MONTH_ABBRS;
    assert names[11..] == ["dec"];
    assert forall k :: 0 <= k < 11 ==> names[k][0] != 'd';
    var k := 11;
    while k > 0
      invariant 0 <= k <= 11 && PositionIn("dec", names[k..]) == 12 - k
    {
      PositionInStep("dec", names, k - 1);
      k := k - 1;
    }
    assert names[0..] == names;
  }

  /** "31/02" names no date: it is not parsed. */
  lemma {:induction false} InvalidDayMonthExample(year: nat)
    requires 1000 <= year <= 9999
    ensures ParseDate("31/02", year).None?
  {
    assert Pad2(31) + "/" + Pad2(2) == "31/02";
    YearlessDayMonth(31, 2, year);
  }

  // ---------------------------------------------------------------------------
  // Year-less "dd-Mon"
  // ---------------------------------------------------------------------------

  /** A month abbreviation, in any case: three characters `%b` reads. */
  predicate MonthNameText(name: string) {
    |name| == 3 && MonthIndex(name) > 0
  }

  /** The twelve abbreviations are made of lower-case letters. */
  lemma {:induction false} MonthAbbrsAreLetters()
    ensures forall k, i :: 0 <= k < 12 && 0 <= i < |MONTH_ABBRS[k]| ==> 'a' <= MONTH_ABBRS[k][i] <= 'z'
  {
  }

  /** A month abbreviation has no '/'. */
  lemma {:induction false} MonthNameHasNoSlash(name: string)
    requires MonthNameText(name)
    ensures forall i :: 0 <= i < |name| ==> name[i] != '/'
  {
    MonthIndexFinds(name);
    MonthAbbrsAreLetters();
    var abbr := MONTH_ABBRS[MonthIndex(name) - 1];
    forall i | 0 <= i < |name|
      ensures name[i] != '/'
    {
      assert Lower(name)[i] == abbr[i] == LowerChar(name[i]);
    }
  }

  lemma {:induction false} CountAbsent(s: string, c: char)
    requires forall i :: 0 <= i < |s| ==> s[i] != c
    ensures Count(s, c) == 0
  {
    if s != [] {
      assert s[0] != c;
      CountAbsent(s[1..], c);
    }
  }

  /** The layout of "dd-Mon-yyyy". */
  lemma {:induction false} DayNameYearLayout(d: nat, name: string, year: nat)
    requires 1 <= d <= 31 && MonthNameText(name) && 1000 <= year <= 9999
    ensures var s' := Pad2(d) + "-" + name + "-" + NatToString(year);
            && |s'| == 11 && s'[2] == '-' && s'[6] == '-' && s'[3..6] == name && s'[7..] == NatToString(year)
            && TwoDigitField(Day, s', 0) && TwoDigitValue(s', 0) == d
            && forall k :: 7 <= k < |s'| ==> IsDigit(s'[k])
  {
    var y := NatToString(year);
    var s' := Pad2(d) + "-" + name + "-" + y;
    NatToStringFourDigits(year);
    PaddedFields(d, 0, '-', '-', y);
    assert s' == Pad2(d) + ['-'] + name + ['-'] + y;
    assert forall k :: 7 <= k < |s'| ==> s'[k] == y[k - 7];
  }

  /** The month name and the year at the end of "dd-Mon-yyyy" match the tail
      of "%d-%b-%Y". */
  lemma {:induction false} MatchNameYearTail(s: string)
    requires |s| == 11 && s[6] == '-' && MonthNameText(s[3..6])
    requires forall k :: 7 <= k < |s| ==> IsDigit(s[k])
    ensures Match(DBY4, 2, s, 3) == Some((11, [Group(MonthName, s[3..6]), Group(Year4, s[7..])]))
  {
    assert DBY4[2] == MonthName && DBY4[3] == Lit('-') && DBY4[4] == Year4;
    MatchFinalYear4(DBY4, 4, s, 7);
    MatchLit(DBY4, 3, s, 6);
    assert Alternatives(MonthName, s, 3) == [3];
    MatchOne(DBY4, 2, s, 3, 3);
    assert Emit(MonthName, s[3..6]) + [Group(Year4, s[7..])] == [Group(MonthName, s[3..6]), Group(Year4, s[7..])];
  }

  /** "dd-Mon" with "-" and a four-digit year appended matches "%d-%b-%Y". */
  lemma {:induction false} MatchDayNameYear(d: nat, name: string, year: nat)
    requires 1 <= d <= 31 && MonthNameText(name) && 1000 <= year <= 9999
    ensures var s' := Pad2(d) + "-" + name + "-" + NatToString(year);
            Match(DBY4, 0, s', 0) == Some((|s'|, [Group(Day, s'[0..2]), Group(MonthName, s'[3..6]), Group(Year4, s'[7..])]))
  {
    var s' := Pad2(d) + "-" + name + "-" + NatToString(year);
    DayNameYearLayout(d, name, year);
    MatchNameYearTail(s');
    assert DBY4[0] == Day && DBY4[1] == Lit('-');
    var g1, g2, g3 := Group(Day, s'[0..2]), Group(MonthName, s'[3..6]), Group(Year4, s'[7..]);
    MatchFieldThenLit(DBY4, 0, s', 0);
    assert [g1] + [g2, g3] == [g1, g2, g3];
  }

  /** Its groups hold the day, the month the abbreviation names and the year. */
  lemma {:induction false} DayNameYearValues(d: nat, name: string, year: nat)
    requires 1 <= d <= 31 && MonthNameText(name) && 1000 <= year <= 9999
    ensures var s' := Pad2(d) + "-" + name + "-" + NatToString(year);
            Fields([Group(Day, s'[0..2]), Group(MonthName, s'[3..6]), Group(Year4, s'[7..])])
            == [DayField(d), MonthField(MonthIndex(name)), YearField(year)]
  {
    var y := NatToString(year);
    var s' := Pad2(d) + "-" + name + "-" + y;
    DayNameYearLayout(d, name, year);
    NatToStringRoundTrip(year);
    FieldsOfThree(Group(Day, s'[0..2]), Group(MonthName, name), Group(Year4, y));
    CaptureTwoDigits(Day, s', 0);
    NumberValueOfDigits(y);
  }

  /** The third format, "%d-%b" tried as "%d-%b-%Y" on the text with the year
      appended, reads "dd-Mon" as that day of the current year. */
  lemma {:induction false} YearlessNameFormat(d: nat, name: string, year: nat)
    requires 1 <= d <= 31 && MonthNameText(name) && 1000 <= year <= 9999
    ensures var s := Pad2(d) + "-" + name;
            var date := Date(year, MonthIndex(name), d);
            TryFormat(s, year, "%d-%b") == if ValidDate(date) then Some(date) else None
  {
    var s := Pad2(d) + "-" + name;
    assert s + "-" + NatToString(year) == Pad2(d) + "-" + name + "-" + NatToString(year);
    MatchDayNameYear(d, name, year);
    DayNameYearValues(d, name, year);
    CompileDBY4();
    AssembleDMY(d, MonthIndex(name), year);
  }

  /** "dd-Mon": two digits, a dash, a month abbreviation. */
  predicate DayNameText(s: string) {
    |s| == 6 && IsDigit(s[0]) && IsDigit(s[1]) && s[2] == '-' && MonthNameText(s[3..])
  }

  /** "dd-Mon" ends where "%d-%b-%y" and "%d-%b-%Y" want their second dash. */
  lemma {:induction false} DashYearFormatFailsOnDayName(t: seq<Tok>, s: string)
    requires |t| == 5 && t[0] == Day && t[1] == Lit('-') && t[2] == MonthName && t[3] == Lit('-')
    requires DayNameText(s)
    ensures Match(t, 0, s, 0).None?
  {
    MatchLit(t, 3, s, 6);
    assert s[3..6] == s[3..];
    assert Alternatives(MonthName, s, 3) == [3];
    MatchOne(t, 2, s, 3, 3);
    MatchLit(t, 1, s, 2);
    MatchLit(t, 1, s, 1);
    ShortFieldFails(t, 0, s, 0);
  }

  /** "dd-Mon" fails every format but the year-less "%d-%b". */
  lemma {:induction false} DayNameFailsOtherFormats(s: string, year: nat)
    requires DayNameText(s)
    ensures TryFormat(s, year, "%d/%m/%y").None? && TryFormat(s, year, "%d/%m/%Y").None?
    ensures TryFormat(s, year, "%d/%m").None? && TryFormat(s, year, "%d-%b-%y").None?
    ensures TryFormat(s, year, "%m/%d/%y").None? && TryFormat(s, year, "%m/%d/%Y").None?
    ensures TryFormat(s, year, "%d-%b-%Y").None?
  {
    DayNameFailsDayFirst(s, year);
    DayNameFailsMonthFirst(s, year);
    DayNameFailsDashYear(s, year);
  }

  /** A format that starts with a day or a month and a separator fails on
      text whose second and third characters are not that separator. */
  lemma {:induction false} SeparatorMissingFails(s: string, fmt: string, t: seq<Tok>)
    requires Compile(fmt) == t && |t| >= 2 && (t[0] == Day || t[0] == Month) && t[1].Lit?
    requires |s| >= 3 && s[1] != t[1].c && s[2] != t[1].c
    ensures Strptime(s, fmt).None?
  {
    ShortFieldThenLitFails(t, 0, s, 0);
  }

  lemma {:induction false} DayNameFailsDayFirst(s: string, year: nat)
    requires DayNameText(s)
    ensures TryFormat(s, year, "%d/%m/%y").None? && TryFormat(s, year, "%d/%m/%Y").None?
    ensures TryFormat(s, year, "%d/%m").None?
  {
    var s' := s + "-" + NatToString(year);
    assert s'[1] == s[1] && s'[2] == s[2];
    CompileDMY2();
    SeparatorMissingFails(s, "%d/%m/%y", DMY2);
    CompileDMY4();
    SeparatorMissingFails(s, "%d/%m/%Y", DMY4);
    CompileDMDashY4();
    SeparatorMissingFails(s', "%d/%m" + "-%Y", DMDashY4);
  }

  lemma {:induction false} DayNameFailsMonthFirst(s: string, year: nat)
    requires DayNameText(s)
    ensures TryFormat(s, year, "%m/%d/%y").None? && TryFormat(s, year, "%m/%d/%Y").None?
  {
    CompileMDY2();
    SeparatorMissingFails(s, "%m/%d/%y", MDY2);
    CompileMDY4();
    SeparatorMissingFails(s, "%m/%d/%Y", MDY4);
  }

  lemma {:induction false} DayNameFailsDashYear(s: string, year: nat)
    requires DayNameText(s)
    ensures TryFormat(s, year, "%d-%b-%y").None? && TryFormat(s, year, "%d-%b-%Y").None?
  {
    CompileDBY2();
    DashYearFormatFailsOnDayName(DBY2, s);
    CompileDBY4();
    DashYearFormatFailsOnDayName(DBY4, s);
  }

  lemma {:induction false} ThirdFormatFirst(s: string, year: nat, d: Date)
    requires TryFormat(s, year, "%d/%m/%y").None? && TryFormat(s, year, "%d/%m/%Y").None?
    requires TryFormat(s, year, "%d-%b") == Some(d)
    ensures FirstFormat(s, year, DATE_FORMATS) == Some(d)
  {
    assert forall k :: 0 <= k < 2 ==> TryFormat(s, year, DATE_FORMATS[k]).None?;
    FirstFormatSkip(s, year, DATE_FORMATS, 2);
    assert DATE_FORMATS[2..][0] == "%d-%b";
  }

  /** "dd-Mon" has no '/', so the "day/month" fallback gives nothing. */
  lemma {:induction false} FallbackOnDayName(s: string, year: nat)
    requires DayNameText(s)
    ensures DayMonthFallback(s, year).None?
  {
    MonthNameHasNoSlash(s[3..]);
    assert forall i :: 0 <= i < |s| ==> s[i] != '/' by {
      forall i | 3 <= i < |s|
        ensures s[i] != '/'
      {
        assert s[3..][i - 3] == s[i];
      }
    }
    CountAbsent(s, '/');
  }

  /** "dd-Mon", the abbreviation in any case, is that day of the current
      year, and nothing when the current year has no such day. */
  lemma {:induction false} YearlessDayMonthName(d: nat, name: string, year: nat)
    requires 1 <= d <= 31 && MonthNameText(name) && 1000 <= year <= 9999
    ensures var date := Date(year, MonthIndex(name), d);
            ParseDate(Pad2(d) + "-" + name, year) == if ValidDate(date) then Some(date) else None
  {
    var s := Pad2(d) + "-" + name;
    var date := Date(year, MonthIndex(name), d);
    PaddedFields(d, 0, '-', '-', []);
    assert s[3..] == name;
    assert DayNameText(s);
    DayNameFailsOtherFormats(s, year);
    YearlessNameFormat(d, name, year);
    if ValidDate(date) {
      ThirdFormatFirst(s, year, date);
      FormatsDecide(s, year, date);
    } else {
      NoFormatParses(s, year);
      AllFormatsFail(s, year);
      FallbackDecides(s, year);
      FallbackOnDayName(s, year);
    }
  }
}
