/** The member import of core/utils/csv_import.py: the unit and cell lookup
    tables (`create_units`, `create_cells`), `get_or_create_family`, the
    mapping of one CSV row to member fields, and the upsert loop of
    `import_members_from_csv` that matches an existing member by phone, then
    by email, and counts the members created and updated. */
module CsvImport {
  import opened Common
  import opened Models
  import opened Sorting
  import opened DateParse
  import opened Provisioning

  /** A CSV row: column name to cell text. A column the row lacks reads as "". */
  type Row = map<string, string>

  function Get(row: Row, column: string): string {
    if column in row then row[column] else ""
  }

  const ASSEMBLY_NAME: string := "Ifelodun Assembly"

  const UNIT_NAMES: seq<string> :=
    ["Praise Team", "Media", "Ushering", "Children", "Decoration",
     "Sanctuary Keeper", "Evangelism", "Drama", "Security", "Welfare",
     "Organizing", "Technical", "Prayer", "Interpreting"]

  const CELL_NAMES: seq<string> :=
    ["Ifelodun A", "Ifelodun B", "Ipinsa", "Oke Odu", "Orita-Obele",
     "Akad/Unity", "FUTA South Gate", "Oba-Ile"]

  // ---------------------------------------------------------------------------
  // get_or_create by name
  // ---------------------------------------------------------------------------

  /** How many entries of `names` equal `name`. */
  function Occurrences(names: seq<string>, name: string): (n: nat)
    ensures n <= |names|
    ensures n == 0 <==> name !in names
  {
    if names == [] then 0
    else (if names[0] == name then 1 else 0) + Occurrences(names[1..], name)
  }

  /** The position of the first entry equal to `name`. */
  function PositionOf(names: seq<string>, name: string): (i: nat)
    requires name in names
    ensures i < |names| && names[i] == name
    ensures forall j :: 0 <= j < i ==> names[j] != name
  {
    if names[0] == name then 0 else 1 + PositionOf(names[1..], name)
  }

  /** The `name` column of a table, row by row. */
  function Names<T>(rows: seq<T>, nameOf: T -> string): (r: seq<string>)
    ensures |r| == |rows| && forall i :: 0 <= i < |rows| ==> r[i] == nameOf(rows[i])
  {
    if rows == [] then [] else [nameOf(rows[0])] + Names(rows[1..], nameOf)
  }

  const MULTIPLE_OBJECTS: string := "MultipleObjectsReturned"

  /** `Unit.objects.get_or_create(name=name)` on the unit table: the one unit
      of that name, a new unit when there is none, and the error `get` raises
      when there are several. Returns the table afterwards and the unit's id. */
  function GetOrCreateUnit(units: seq<Unit>, name: string): (r: Result<(seq<Unit>, nat), string>)
    ensures r.Err? <==> Occurrences(Names(units, UnitName), name) >= 2
    ensures r.Err? ==> r.error == MULTIPLE_OBJECTS
    ensures Occurrences(Names(units, UnitName), name) == 1 ==> r == Ok((units, PositionOf(Names(units, UnitName), name)))
    ensures Occurrences(Names(units, UnitName), name) == 0 ==>
              r == Ok((units + [Unit(|units|, name, "", None)], |units|))
    ensures r.Ok? ==> r.value.1 < |r.value.0| && r.value.0[r.value.1].name == name
    ensures r.Ok? ==> |units| <= |r.value.0| && r.value.0[..|units|] == units
  {
    var names := Names(units, UnitName);
    var n := Occurrences(names, name);
    if n >= 2 then Err(MULTIPLE_OBJECTS)
    else if n == 1 then Ok((units, PositionOf(names, name)))
    else
      assert (units + [Unit(|units|, name, "", None)])[..|units|] == units;
      Ok((units + [Unit(|units|, name, "", None)], |units|))
  }

  /** `Cell.objects.get_or_create(name=name, defaults={'created_at': today})` on the cell table. */
  function GetOrCreateCell(cells: seq<Cell>, name: string, today: Date): (r: Result<(seq<Cell>, nat), string>)
    ensures r.Err? <==> Occurrences(Names(cells, CellName), name) >= 2
    ensures r.Err? ==> r.error == MULTIPLE_OBJECTS
    ensures Occurrences(Names(cells, CellName), name) == 1 ==> r == Ok((cells, PositionOf(Names(cells, CellName), name)))
    ensures Occurrences(Names(cells, CellName), name) == 0 ==>
              r == Ok((cells + [Cell(|cells|, name, today)], |cells|))
    ensures r.Ok? ==> r.value.1 < |r.value.0| && r.value.0[r.value.1].name == name
    ensures r.Ok? ==> |cells| <= |r.value.0| && r.value.0[..|cells|] == cells
  {
    var names := Names(cells, CellName);
    var n := Occurrences(names, name);
    if n >= 2 then Err(MULTIPLE_OBJECTS)
    else if n == 1 then Ok((cells, PositionOf(names, name)))
    else
      assert (cells + [Cell(|cells|, name, today)])[..|cells|] == cells;
      Ok((cells + [Cell(|cells|, name, today)], |cells|))
  }

  /** A lookup table from names to rows of the unit table: each listed name
      maps to a unit of that name. */
  ghost predicate UnitTable(ids: map<string, nat>, names: seq<string>, units: seq<Unit>) {
    && (forall n :: n in ids <==> n in names)
    && forall n :: n in ids ==> ids[n] < |units| && units[ids[n]].name == n
  }

  ghost predicate CellTable(ids: map<string, nat>, names: seq<string>, cells: seq<Cell>) {
    && (forall n :: n in ids <==> n in names)
    && forall n :: n in ids ==> ids[n] < |cells| && cells[ids[n]].name == n
  }

  /** One more name in the units lookup table: the table stays a lookup table
      after the rows grow, and stays an extension of the first rows. */
  lemma {:induction false} UnitTableGrows(ids: map<string, nat>, names: seq<string>, first: seq<Unit>, units: seq<Unit>,
                       grown: seq<Unit>, name: string, id: nat)
    requires UnitTable(ids, names, units)
    requires |first| <= |units| && units[..|first|] == first
    requires |units| <= |grown| && grown[..|units|] == units
    requires id < |grown| && grown[id].name == name
    ensures UnitTable(ids[name := id], names + [name], grown)
    ensures |first| <= |grown| && grown[..|first|] == first
  {
    forall n | n in ids && n != name
      ensures grown[ids[n]].name == n
    {
      assert grown[ids[n]] == grown[..|units|][ids[n]];
    }
    assert grown[..|first|] == grown[..|units|][..|first|];
  }

  /** `create_units`: get or create every listed unit and map each name to it. */
  method CreateUnits(db: Database) returns (r: Result<map<string, nat>, string>)
    requires db.Valid()
    modifies db
    ensures db.Valid()
    ensures r.Ok? ==> UnitTable(r.value, UNIT_NAMES, db.units)
    ensures r.Err? ==> r.error == MULTIPLE_OBJECTS
    ensures |old(db.units)| <= |db.units| && db.units[..|old(db.units)|] == old(db.units)
    ensures db.users == old(db.users) && db.members == old(db.members) && db.admins == old(db.admins)
    ensures db.cells == old(db.cells) && db.families == old(db.families) && db.tokens == old(db.tokens)
  {
    r := GetOrCreateUnits(db, UNIT_NAMES);
  }

  /** The loop of `create_units` over a list of names. */
  method GetOrCreateUnits(db: Database, names: seq<string>) returns (r: Result<map<string, nat>, string>)
    requires db.Valid()
    modifies db
    ensures db.Valid()
    ensures r.Ok? ==> UnitTable(r.value, names, db.units)
    ensures r.Err? ==> r.error == MULTIPLE_OBJECTS
    ensures |old(db.units)| <= |db.units| && db.units[..|old(db.units)|] == old(db.units)
    ensures db.users == old(db.users) && db.members == old(db.members) && db.admins == old(db.admins)
    ensures db.cells == old(db.cells) && db.families == old(db.families) && db.tokens == old(db.tokens)
  {
    var units := db.units;
    var ids: map<string, nat> := map[];
    var i := 0;
    while i < |names|
      invariant 0 <= i <= |names|
      invariant UnitTable(ids, names[..i], units)
      invariant unchanged(db)
      invariant |db.units| <= |units| && units[..|db.units|] == db.units
      invariant (forall k :: 0 <= k < |units| ==> units[k].id == k)
    {
      var name := names[i];
      var u := GetOrCreateUnit(units, name);
      if u.Err? {
        db.units := units;
        return Err(u.error);
      }
      UnitTableGrows(ids, names[..i], db.units, units, u.value.0, name, u.value.1);
      assert forall k :: 0 <= k < |units| ==> u.value.0[k] == units[k];
      units, ids := u.value.0, ids[name := u.value.1];
      assert names[..i + 1] == names[..i] + [name];
      i := i + 1;
    }
    assert names[..i] == names;
    db.units := units;
    r := Ok(ids);
  }


  /** One more name in the cells lookup table: the table stays a lookup table
      after the rows grow, and stays an extension of the first rows. */
  lemma {:induction false} CellTableGrows(ids: map<string, nat>, names: seq<string>, first: seq<Cell>, cells: seq<Cell>,
                       grown: seq<Cell>, name: string, id: nat)
    requires CellTable(ids, names, cells)
    requires |first| <= |cells| && cells[..|first|] == first
    requires |cells| <= |grown| && grown[..|cells|] == cells
    requires id < |grown| && grown[id].name == name
    ensures CellTable(ids[name := id], names + [name], grown)
    ensures |first| <= |grown| && grown[..|first|] == first
  {
    forall n | n in ids && n != name
      ensures grown[ids[n]].name == n
    {
      assert grown[ids[n]] == grown[..|cells|][ids[n]];
    }
    assert grown[..|first|] == grown[..|cells|][..|first|];
  }

  /** `create_cells`: get or create every listed cell (dated today) and map each name to it. */
  method CreateCells(db: Database, today: Date) returns (r: Result<map<string, nat>, string>)
    requires db.Valid()
    modifies db
    ensures db.Valid()
    ensures r.Ok? ==> CellTable(r.value, CELL_NAMES, db.cells)
    ensures r.Err? ==> r.error == MULTIPLE_OBJECTS
    ensures |old(db.cells)| <= |db.cells| && db.cells[..|old(db.cells)|] == old(db.cells)
    ensures db.users == old(db.users) && db.members == old(db.members) && db.admins == old(db.admins)
    ensures db.units == old(db.units) && db.families == old(db.families) && db.tokens == old(db.tokens)
  {
    r := GetOrCreateCells(db, CELL_NAMES, today);
  }

  /** The loop of `create_cells` over a list of names. */
  method GetOrCreateCells(db: Database, names: seq<string>, today: Date) returns (r: Result<map<string, nat>, string>)
    requires db.Valid()
    modifies db
    ensures db.Valid()
    ensures r.Ok? ==> CellTable(r.value, names, db.cells)
    ensures r.Err? ==> r.error == MULTIPLE_OBJECTS
    ensures |old(db.cells)| <= |db.cells| && db.cells[..|old(db.cells)|] == old(db.cells)
    ensures db.users == old(db.users) && db.members == old(db.members) && db.admins == old(db.admins)
    ensures db.units == old(db.units) && db.families == old(db.families) && db.tokens == old(db.tokens)
  {
    var cells := db.cells;
    var ids: map<string, nat> := map[];
    var i := 0;
    while i < |names|
      invariant 0 <= i <= |names|
      invariant CellTable(ids, names[..i], cells)
      invariant unchanged(db)
      invariant |db.cells| <= |cells| && cells[..|db.cells|] == db.cells
      invariant (forall k :: 0 <= k < |cells| ==> cells[k].id == k)
    {
      var name := names[i];
      var c := GetOrCreateCell(cells, name, today);
      if c.Err? {
        db.cells := cells;
        return Err(c.error);
      }
      CellTableGrows(ids, names[..i], db.cells, cells, c.value.0, name, c.value.1);
      assert forall k :: 0 <= k < |cells| ==> c.value.0[k] == cells[k];
      cells, ids := c.value.0, ids[name := c.value.1];
      assert names[..i + 1] == names[..i] + [name];
      i := i + 1;
    }
    assert names[..i] == names;
    db.cells := cells;
    r := Ok(ids);
  }


  // ---------------------------------------------------------------------------
  // get_or_create_family
  // ---------------------------------------------------------------------------

  /** The stored order of families: by family name. */
  predicate FamilyNameLeq(a: Family, b: Family) {
    LexLeq(a.familyName, b.familyName)
  }

  lemma {:induction false} FamilyNameLeqIsTotalPreorder()
    ensures TotalPreorder(FamilyNameLeq)
  {
    forall a: Family, b: Family
      ensures FamilyNameLeq(a, b) || FamilyNameLeq(b, a)
    {
      LexLeqTotal(a.familyName, b.familyName);
    }
    forall a: Family, b: Family, c: Family | FamilyNameLeq(a, b) && FamilyNameLeq(b, c)
      ensures FamilyNameLeq(a, c)
    {
      LexLeqTransitive(a.familyName, b.familyName, c.familyName);
    }
  }

  /** The families of the assembly whose name contains the surname, ignoring case. */
  function FamiliesLike(families: seq<Family>, assembly: nat, surname: string): (r: seq<Family>)
    ensures forall f :: f in r <==> f in families && f.assembly == assembly && IContains(f.familyName, surname)
  {
    if families == [] then []
    else
      var rest := FamiliesLike(families[1..], assembly, surname);
      var f := families[0];
      assert forall g :: g in families <==> g == f || g in families[1..];
      if f.assembly == assembly && IContains(f.familyName, surname) then [f] + rest else rest
  }

  /** `get_or_create_family`: nothing for an empty surname; else the first
      family (by name) of the assembly whose name contains the surname; else
      a new family named by the surname, with the row's address, phone and
      email as written. */
  method GetOrCreateFamily(db: Database, assembly: nat, surname: string, row: Row) returns (r: Option<nat>)
    requires db.Valid()
    modifies db
    ensures db.Valid()
    ensures surname == "" ==> r.None? && db.families == old(db.families)
    ensures var like := FamiliesLike(old(db.families), assembly, surname);
            surname != "" && like != [] ==>
              r == Some(FirstInOrder(like, FamilyNameLeq).value.id) && db.families == old(db.families)
    ensures surname != "" && FamiliesLike(old(db.families), assembly, surname) == [] ==>
              r == Some(|old(db.families)|)
              && db.families == old(db.families) +
                   [Family(|old(db.families)|, assembly, surname, Get(row, "Address"), Get(row, "Phone"), Get(row, "Email"))]
    ensures db.users == old(db.users) && db.members == old(db.members) && db.admins == old(db.admins)
    ensures db.units == old(db.units) && db.cells == old(db.cells) && db.tokens == old(db.tokens)
  {
    if surname == "" {
      return None;
    }
    var like := FamiliesLike(db.families, assembly, surname);
    if like != [] {
      return Some(FirstInOrder(like, FamilyNameLeq).value.id);
    }
    var id := |db.families|;
    db.families := db.families + [Family(id, assembly, surname, Get(row, "Address"), Get(row, "Phone"), Get(row, "Email"))];
    r := Some(id);
  }

  /** The family found is one of the assembly's, its name contains the
      surname, and no matching family sorts before it. */
  lemma {:induction false} FoundFamilyMatches(families: seq<Family>, assembly: nat, surname: string)
    requires FamiliesLike(families, assembly, surname) != []
    ensures var f := FirstInOrder(FamiliesLike(families, assembly, surname), FamilyNameLeq).value;
            && f in families && f.assembly == assembly && IContains(f.familyName, surname)
            && forall g :: g in families && g.assembly == assembly && IContains(g.familyName, surname) ==>
                 LexLeq(f.familyName, g.familyName)
  {
    FamilyNameLeqIsTotalPreorder();
    FirstInOrderIsLeast(FamiliesLike(families, assembly, surname), FamilyNameLeq);
  }

  // ---------------------------------------------------------------------------
  // Years
  // ---------------------------------------------------------------------------

  /** `datetime(int(text), 1, 1).date()` behind the `text and text.isdigit()`
      guard, as written: digits outside 1-9999 make `datetime` raise, and the
      exception ends the import (`Err`). */
  function YearStartAsWritten(text: string): (r: Result<Option<Date>, string>)
    ensures !IsDigits(text) ==> r == Ok(None)
  {
    if !IsDigits(text) then Ok(None)
    else
      var y := DigitsValue(text);
      if 1 <= y <= 9999 then Ok(Some(Date(y, 1, 1))) else Err("year is out of range")
  }

  /** The same guard with the year range checked: 1 January of the year, or nothing. */
  function YearStart(text: string): (r: Option<Date>)
    ensures r.Some? <==> IsDigits(text) && 1 <= DigitsValue(text) <= 9999
    ensures r.Some? ==> ValidDate(r.value) && r.value == Date(DigitsValue(text), 1, 1)
  {
    if IsDigits(text) && 1 <= DigitsValue(text) <= 9999 then Some(Date(DigitsValue(text), 1, 1)) else None
  }

  /** Where the code as written does not raise it agrees with the corrected
      reading; it raises exactly for digit strings outside 1-9999. */
  lemma {:induction false} YearStartRefinesAsWritten(text: string)
    ensures YearStartAsWritten(text).Ok? ==> YearStartAsWritten(text).value == YearStart(text)
    ensures YearStartAsWritten(text).Err? <==> IsDigits(text) && !(1 <= DigitsValue(text) <= 9999)
  {
  }

  /** "0" and "10000" pass `isdigit()` and then make `datetime` raise. */
  lemma {:induction false} YearZeroAbortsImport()
    ensures YearStartAsWritten("0").Err?
    ensures YearStartAsWritten("10000").Err?
    ensures YearStart("0").None? && YearStart("10000").None?
  {
    BoundaryYearDigits();
  }

  // ---------------------------------------------------------------------------
  // One row
  // ---------------------------------------------------------------------------

  /** The member fields one row sets (the `member_data` dictionary). */
  datatype MemberData = MemberData(
    assembly: nat,
    firstName: string,
    lastName: string,
    middleName: string,
    dateOfBirth: Option<Date>,
    gender: string,
    maritalStatus: string,
    email: string,
    phone: string,
    address: string,
    unit: Option<nat>,
    cell: Option<nat>,
    baptismDate: Option<Date>,
    membershipDate: Option<Date>,
    membershipStatus: string)

  /** A row with neither a surname nor a first other name (as written, before stripping) is skipped. */
  predicate SkipRow(row: Row) {
    Get(row, "Surname") == "" && Get(row, "Other Names 1") == ""
  }

  /** The gender column: "M" or "F", anything else is "O". */
  function GenderOf(text: string): (g: string)
    ensures g in {"M", "F", "O"}
    ensures g == "O" <==> text != "M" && text != "F"
    ensures g != "O" ==> g == text
  {
    if text == "M" || text == "F" then text else "O"
  }

  /** The marital-status column mapped to a choice value; unknown text is "SINGLE". */
  function MaritalStatusOf(text: string): (m: string)
    ensures m in {"SINGLE", "MARRIED", "WIDOWED", "SEPARATED"}
    ensures text !in {"Single", "Married", "Widow", "Widowed", "Seprated", "Separated"} ==> m == "SINGLE"
  {
    match text
    case "Single" => "SINGLE"
    case "Married" => "MARRIED"
    case "Widow" => "WIDOWED"
    case "Widowed" => "WIDOWED"
    case "Seprated" => "SEPARATED"
    case "Separated" => "SEPARATED"
    case _ => "SINGLE"
  }

  /** Python `a or b` on strings. */
  function OrElse(a: string, b: string): string {
    if a != "" then a else b
  }

  /** `units.get(name) if name in units else None`: the row a name maps to, if any. */
  function LookUp(ids: map<string, nat>, name: string): Option<nat> {
    if name in ids then Some(ids[name]) else None
  }

  /** In a unit lookup table, a name finds a row iff it is listed, and the row has that name. */
  lemma {:induction false} LookUpUnit(ids: map<string, nat>, names: seq<string>, units: seq<Unit>, name: string)
    requires UnitTable(ids, names, units)
    ensures LookUp(ids, name).Some? <==> name in names
    ensures LookUp(ids, name).Some? ==> LookUp(ids, name).value < |units| && units[LookUp(ids, name).value].name == name
  {
  }

  lemma {:induction false} LookUpCell(ids: map<string, nat>, names: seq<string>, cells: seq<Cell>, name: string)
    requires CellTable(ids, names, cells)
    ensures LookUp(ids, name).Some? <==> name in names
    ensures LookUp(ids, name).Some? ==> LookUp(ids, name).value < |cells| && cells[LookUp(ids, name).value].name == name
  {
  }

  /** The birth date column, read by `parse_date` with the current year. */
  function BirthDate(row: Row, year: nat): (r: Option<Date>)
    ensures r.Some? ==> ValidDate(r.value)
  {
    ParseDate(Strip(Get(row, "DOB")), year)
  }

  /** The member fields a row maps to, given its parsed birth date. */
  function RowData(row: Row, assembly: nat, units: map<string, nat>, cells: map<string, nat>, dob: Option<Date>): MemberData
  {
    var surname := Strip(Get(row, "Surname"));
    var otherNames1 := Strip(Get(row, "Other Names 1"));
    MemberData(
      assembly := assembly,
      firstName := OrElse(otherNames1, surname),
      lastName := surname,
      middleName := Strip(Get(row, "Other Names 2")),
      dateOfBirth := dob,
      gender := GenderOf(Strip(Get(row, "Gender"))),
      maritalStatus := MaritalStatusOf(Strip(Get(row, "Status"))),
      email := Strip(Get(row, "Email")),
      phone := Strip(Get(row, "Phone")),
      address := OrElse(Get(row, "Address"), Get(row, "Place of Work")),
      unit := LookUp(units, OrElse(Strip(Get(row, "Main Unit")), Strip(Get(row, "Sub-Unit 1")))),
      cell := LookUp(cells, OrElse(Strip(Get(row, "Cell")), Strip(Get(row, "Assembly")))),
      baptismDate :=
        if Lower(Strip(Get(row, "Baptism"))) == "yes" then YearStart(Strip(Get(row, "Baptism Year"))) else None,
      membershipDate := YearStart(Strip(Get(row, "born again year"))),
      membershipStatus := ACTIVE)
  }

  /** Names: the first name is the first other name, or the surname when
      that is blank; the last name is the surname. All are stripped. */
  lemma {:induction false} RowNames(row: Row, assembly: nat, units: map<string, nat>, cells: map<string, nat>, dob: Option<Date>)
    ensures var d := RowData(row, assembly, units, cells, dob);
            && d.lastName == Strip(Get(row, "Surname"))
            && d.middleName == Strip(Get(row, "Other Names 2"))
            && (Strip(Get(row, "Other Names 1")) != "" ==> d.firstName == Strip(Get(row, "Other Names 1")))
            && (Strip(Get(row, "Other Names 1")) == "" ==> d.firstName == d.lastName)
            && (d.firstName == "" ==> d.lastName == "")
  {
  }

  /** The marital status is always a choice value ("SINGLE" for unknown
      text), and the membership status is always "ACTIVE". */
  lemma {:induction false} RowStatus(row: Row, assembly: nat, units: map<string, nat>, cells: map<string, nat>, dob: Option<Date>)
    ensures var d := RowData(row, assembly, units, cells, dob);
            && d.maritalStatus in {"SINGLE", "MARRIED", "WIDOWED", "SEPARATED"}
            && d.membershipStatus == ACTIVE && d.assembly == assembly
  {
    var d := RowData(row, assembly, units, cells, dob);
    assert d.maritalStatus == MaritalStatusOf(Strip(Get(row, "Status")));
  }

  /** Dates: every date set is a real one; the baptism date is 1 January of
      the baptism year, and only when the Baptism column says "yes" in any
      case; the membership date is 1 January of the born-again year. */
  lemma {:induction false} RowDates(row: Row, assembly: nat, units: map<string, nat>, cells: map<string, nat>, dob: Option<Date>)
    ensures var d := RowData(row, assembly, units, cells, dob);
            && d.dateOfBirth == dob
            && (d.baptismDate.Some? <==>
                  Lower(Strip(Get(row, "Baptism"))) == "yes" && YearStart(Strip(Get(row, "Baptism Year"))).Some?)
            && (d.baptismDate.Some? ==>
                  ValidDate(d.baptismDate.value) && d.baptismDate.value.month == 1 && d.baptismDate.value.day == 1
                  && d.baptismDate.value.year == DigitsValue(Strip(Get(row, "Baptism Year"))))
            && (d.membershipDate.Some? <==> YearStart(Strip(Get(row, "born again year"))).Some?)
            && (d.membershipDate.Some? ==>
                  d.membershipDate.value == Date(DigitsValue(Strip(Get(row, "born again year"))), 1, 1))
  {
    RowBaptismDate(row, RowData(row, assembly, units, cells, dob));
    RowMembershipDate(row, RowData(row, assembly, units, cells, dob));
  }

  lemma {:induction false} RowBaptismDate(row: Row, d: MemberData)
    requires d.baptismDate ==
               if Lower(Strip(Get(row, "Baptism"))) == "yes" then YearStart(Strip(Get(row, "Baptism Year"))) else None
    ensures d.baptismDate.Some? <==>
              Lower(Strip(Get(row, "Baptism"))) == "yes" && YearStart(Strip(Get(row, "Baptism Year"))).Some?
    ensures d.baptismDate.Some? ==>
              ValidDate(d.baptismDate.value) && d.baptismDate.value.month == 1 && d.baptismDate.value.day == 1
              && d.baptismDate.value.year == DigitsValue(Strip(Get(row, "Baptism Year")))
  {
    var year := Strip(Get(row, "Baptism Year"));
    if d.baptismDate.Some? {
      assert d.baptismDate == YearStart(year);
    }
  }

  lemma {:induction false} RowMembershipDate(row: Row, d: MemberData)
    requires d.membershipDate == YearStart(Strip(Get(row, "born again year")))
    ensures d.membershipDate.Some? <==> YearStart(Strip(Get(row, "born again year"))).Some?
    ensures d.membershipDate.Some? ==>
              d.membershipDate.value == Date(DigitsValue(Strip(Get(row, "born again year"))), 1, 1)
  {
  }

  /** A name made only of spaces passes the skip test yet maps to empty names. */
  lemma {:induction false} BlankNamesAreNotSkipped(assembly: nat, units: map<string, nat>, cells: map<string, nat>, dob: Option<Date>)
    ensures var row := map["Surname" := " "];
            !SkipRow(row) && RowData(row, assembly, units, cells, dob).firstName == ""
  {
    var row := map["Surname" := " "];
    assert Get(row, "Surname") == " ";
    assert Get(row, "Other Names 1") == "";
    assert StripLeft(" ") == [];
    assert Strip(" ") == [];
  }

  /** With a table built as `create_units` builds it (from `UNIT_NAMES`), a
      unit is assigned exactly when its name is on the list, and it is the
      row of that name. */
  lemma {:induction false} RowUnit(row: Row, assembly: nat, units: map<string, nat>, cells: map<string, nat>, dob: Option<Date>,
                unitNames: seq<string>, unitRows: seq<Unit>)
    requires UnitTable(units, unitNames, unitRows)
    ensures var d := RowData(row, assembly, units, cells, dob);
            var unitName := OrElse(Strip(Get(row, "Main Unit")), Strip(Get(row, "Sub-Unit 1")));
            && (d.unit.Some? <==> unitName in unitNames)
            && (d.unit.Some? ==> d.unit.value < |unitRows| && unitRows[d.unit.value].name == unitName)
  {
    var unitName := OrElse(Strip(Get(row, "Main Unit")), Strip(Get(row, "Sub-Unit 1")));
    assert RowData(row, assembly, units, cells, dob).unit == LookUp(units, unitName);
    LookUpUnit(units, unitNames, unitRows, unitName);
  }

  /** The same for cells and `create_cells`. */
  lemma {:induction false} RowCell(row: Row, assembly: nat, units: map<string, nat>, cells: map<string, nat>, dob: Option<Date>,
                cellNames: seq<string>, cellRows: seq<Cell>)
    requires CellTable(cells, cellNames, cellRows)
    ensures var d := RowData(row, assembly, units, cells, dob);
            var cellName := OrElse(Strip(Get(row, "Cell")), Strip(Get(row, "Assembly")));
            && (d.cell.Some? <==> cellName in cellNames)
            && (d.cell.Some? ==> d.cell.value < |cellRows| && cellRows[d.cell.value].name == cellName)
  {
    var cellName := OrElse(Strip(Get(row, "Cell")), Strip(Get(row, "Assembly")));
    assert RowData(row, assembly, units, cells, dob).cell == LookUp(cells, cellName);
    LookUpCell(cells, cellNames, cellRows, cellName);
  }

  /** `setattr` of every key of `member_data` on an existing member. */
  function Overwrite(m: Member, d: MemberData): (r: Member)
    ensures r.id == m.id && r.family == m.family && r.confirmationDate == m.confirmationDate
    ensures r.emergencyContactName == m.emergencyContactName && r.emergencyContactPhone == m.emergencyContactPhone
    ensures DataOf(r) == d
  {
    m.(assembly := d.assembly, firstName := d.firstName, lastName := d.lastName, middleName := d.middleName,
       dateOfBirth := d.dateOfBirth, gender := d.gender, maritalStatus := d.maritalStatus, email := d.email,
       phone := d.phone, address := d.address, unit := d.unit, cell := d.cell, baptismDate := d.baptismDate,
       membershipDate := d.membershipDate, membershipStatus := d.membershipStatus)
  }

  /** `Member.objects.create(**member_data)`: the other fields take their defaults. */
  function NewMember(id: nat, d: MemberData): (m: Member)
    ensures m.id == id && m.family.None? && m.confirmationDate.None?
    ensures m.emergencyContactName == "" && m.emergencyContactPhone == ""
    ensures DataOf(m) == d
  {
    Member(id, d.assembly, d.firstName, d.lastName, d.middleName, d.dateOfBirth, d.gender, d.maritalStatus,
           None, d.email, d.phone, d.address, "", "", d.unit, d.membershipStatus, d.membershipDate, d.cell,
           d.baptismDate, None)
  }

  /** The fields of a member an import row sets. */
  function DataOf(m: Member): MemberData {
    MemberData(m.assembly, m.firstName, m.lastName, m.middleName, m.dateOfBirth, m.gender, m.maritalStatus,
               m.email, m.phone, m.address, m.unit, m.cell, m.baptismDate, m.membershipDate, m.membershipStatus)
  }

  // ---------------------------------------------------------------------------
  // The upsert
  // ---------------------------------------------------------------------------

  /** Which column an existing member is looked up by. */
  datatype Key = ByPhone | ByEmail

  /** The lookup filter: the phone (or email) is equal and both names
      contain the row's names, ignoring case. */
  predicate SameContact(m: Member, key: Key, value: string, firstName: string, lastName: string) {
    && (if key == ByPhone then m.phone == value else m.email == value)
    && IContains(m.firstName, firstName) && IContains(m.lastName, lastName)
  }

  function Filter(members: seq<Member>, key: Key, value: string, firstName: string, lastName: string): (r: seq<Member>)
    ensures forall m :: m in r <==> m in members && SameContact(m, key, value, firstName, lastName)
  {
    if members == [] then []
    else
      var rest := Filter(members[1..], key, value, firstName, lastName);
      var m := members[0];
      assert forall x :: x in members <==> x == m || x in members[1..];
      if SameContact(m, key, value, firstName, lastName) then [m] + rest else rest
  }

  /** `Member.objects.filter(...).first()` for one key. */
  function FirstContact(members: seq<Member>, key: Key, value: string, d: MemberData): Option<Member> {
    FirstInOrder(Filter(members, key, value, d.firstName, d.lastName), MemberNameLeq)
  }

  /** The member a row updates: looked up by phone when the row has one,
      then by email when the row has one and the phone found nobody. */
  function ExistingMember(members: seq<Member>, row: Row, d: MemberData): Option<Member> {
    var byPhone := if Get(row, "Phone") != "" then FirstContact(members, ByPhone, d.phone, d) else None;
    if byPhone.Some? then byPhone
    else if Get(row, "Email") != "" then FirstContact(members, ByEmail, d.email, d)
    else None
  }

  /** The member found matches the row by phone or by email, and both its
      names contain the row's. A phone match wins when there is one; failing
      that, an email match is found when the row has an email. Either way it
      is the first match in `Member` order. When the row has neither a phone
      nor an email, nobody is found. */
  lemma {:induction false} ExistingMemberMatches(members: seq<Member>, row: Row, d: MemberData)
    ensures Get(row, "Phone") == "" && Get(row, "Email") == "" ==> ExistingMember(members, row, d).None?
    ensures var e := ExistingMember(members, row, d);
            e.Some? ==>
              && e.value in members
              && ((Get(row, "Phone") != "" && SameContact(e.value, ByPhone, d.phone, d.firstName, d.lastName))
                  || (Get(row, "Email") != "" && SameContact(e.value, ByEmail, d.email, d.firstName, d.lastName)))
    ensures var e := ExistingMember(members, row, d);
            Get(row, "Phone") != "" && (exists m :: m in members && SameContact(m, ByPhone, d.phone, d.firstName, d.lastName)) ==>
              e.Some? && SameContact(e.value, ByPhone, d.phone, d.firstName, d.lastName)
              && forall m :: m in members && SameContact(m, ByPhone, d.phone, d.firstName, d.lastName) ==>
                   MemberNameLeq(e.value, m)
    ensures var e := ExistingMember(members, row, d);
            && (Get(row, "Phone") == "" || !exists m :: m in members && SameContact(m, ByPhone, d.phone, d.firstName, d.lastName))
            && Get(row, "Email") != ""
            && (exists m :: m in members && SameContact(m, ByEmail, d.email, d.firstName, d.lastName)) ==>
              e.Some? && SameContact(e.value, ByEmail, d.email, d.firstName, d.lastName)
              && forall m :: m in members && SameContact(m, ByEmail, d.email, d.firstName, d.lastName) ==>
                   MemberNameLeq(e.value, m)
  {
    MemberNameLeqIsTotalPreorder();
    FirstInOrderIsLeast(Filter(members, ByPhone, d.phone, d.firstName, d.lastName), MemberNameLeq);
    FirstInOrderIsLeast(Filter(members, ByEmail, d.email, d.firstName, d.lastName), MemberNameLeq);
  }

  /** Row ids equal positions. */
  predicate Indexed(members: seq<Member>) {
    forall i :: 0 <= i < |members| ==> members[i].id == i
  }

  datatype Outcome = Skipped | Created | Updated(id: nat)

  /** One iteration of the import loop on the member table. */
  function ImportRow(members: seq<Member>, row: Row, d: MemberData): (r: (seq<Member>, Outcome))
    requires Indexed(members)
    ensures Indexed(r.0) && |r.0| >= |members|
    ensures SkipRow(row) <==> r.1.Skipped?
    ensures r.1.Skipped? ==> r.0 == members
    ensures r.1.Created? ==> r.0 == members + [NewMember(|members|, d)]
    ensures r.1.Created? <==> !SkipRow(row) && ExistingMember(members, row, d).None?
    ensures r.1.Updated? ==>
              && r.1.id < |members| && ExistingMember(members, row, d) == Some(members[r.1.id])
              && r.0 == members[r.1.id := Overwrite(members[r.1.id], d)]
  {
    if SkipRow(row) then (members, Skipped)
    else
      match ExistingMember(members, row, d)
      case None => (members + [NewMember(|members|, d)], Created)
      case Some(m) =>
        ExistingMemberIsStored(members, row, d);
        var k :| 0 <= k < |members| && members[k] == m;
        assert m.id == k;
        (members[m.id := Overwrite(m, d)], Updated(m.id))
  }

  /** Importing a row that was just created again finds the member it
      created and updates it to the same values when the row has a phone or
      an email; with neither, the row is created a second time. */
  lemma {:induction false} ReimportUpdates(members: seq<Member>, row: Row, d: MemberData)
    requires Indexed(members) && ImportRow(members, row, d).1.Created?
    ensures var once := ImportRow(members, row, d).0;
            Get(row, "Phone") != "" || Get(row, "Email") != "" ==>
              ImportRow(once, row, d) == (once, Updated(|members|))
    ensures var once := ImportRow(members, row, d).0;
            Get(row, "Phone") == "" && Get(row, "Email") == "" ==>
              ImportRow(once, row, d) == (once + [NewMember(|once|, d)], Created)
  {
    var once := members + [NewMember(|members|, d)];
    assert ImportRow(members, row, d).0 == once;
    if Get(row, "Phone") != "" || Get(row, "Email") != "" {
      ReimportFindsNewMember(members, row, d);
      var m := NewMember(|members|, d);
      assert Overwrite(m, d) == m;
      assert once[m.id := Overwrite(m, d)] == once;
    } else {
      ExistingMemberMatches(once, row, d);
    }
  }

  /** When nobody matched a row with a phone or an email, the member created
      from it is the one the same row finds next time. */
  lemma {:induction false} ReimportFindsNewMember(members: seq<Member>, row: Row, d: MemberData)
    requires ExistingMember(members, row, d).None? && (Get(row, "Phone") != "" || Get(row, "Email") != "")
    ensures ExistingMember(members + [NewMember(|members|, d)], row, d) == Some(NewMember(|members|, d))
  {
    var m := NewMember(|members|, d);
    var once := members + [m];
    IContainsItself(d.firstName);
    IContainsItself(d.lastName);
    assert SameContact(m, ByPhone, d.phone, d.firstName, d.lastName);
    assert SameContact(m, ByEmail, d.email, d.firstName, d.lastName);
    assert m in once;
    MemberNameLeqIsTotalPreorder();
    FirstInOrderIsLeast(Filter(members, ByPhone, d.phone, d.firstName, d.lastName), MemberNameLeq);
    FirstInOrderIsLeast(Filter(members, ByEmail, d.email, d.firstName, d.lastName), MemberNameLeq);
    ExistingMemberMatches(once, row, d);
    var e := ExistingMember(once, row, d);
    assert e.Some?;
    assert e.value in once && e.value !in members;
  }

  /** The member found is a row of the table. */
  lemma {:induction false} ExistingMemberIsStored(members: seq<Member>, row: Row, d: MemberData)
    ensures ExistingMember(members, row, d).Some? ==> ExistingMember(members, row, d).value in members
  {
    ExistingMemberMatches(members, row, d);
  }

  /** The member fields of a row, as the import loop computes them. */
  function RowDataFor(row: Row, assembly: nat, units: map<string, nat>, cells: map<string, nat>, year: nat): MemberData {
    RowData(row, assembly, units, cells, BirthDate(row, year))
  }

  /** The loop of `import_members_from_csv` over the rows, with the row
      mapping `data` (`RowDataFor` with the run's tables and year): the
      member table and the created and updated counts after them. */
  function ImportAll(members: seq<Member>, rows: seq<Row>, data: Row -> MemberData): (r: (seq<Member>, nat, nat))
    requires Indexed(members)
    ensures Indexed(r.0)
    decreases |rows|
  {
    if rows == [] then (members, 0, 0)
    else ImportStep(ImportAll(members, rows[..|rows| - 1], data), rows[|rows| - 1], data)
  }

  /** One pass of the loop body: import the row (skip it, update the member
      it matches, or create one) and count a creation or an update. */
  function ImportStep(acc: (seq<Member>, nat, nat), row: Row, data: Row -> MemberData): (r: (seq<Member>, nat, nat))
    requires Indexed(acc.0)
    ensures Indexed(r.0)
  {
    var step := ImportRow(acc.0, row, data(row));
    (step.0, acc.1 + (if step.1.Created? then 1 else 0), acc.2 + (if step.1.Updated? then 1 else 0))
  }

  /** The number of rows the loop does not skip. */
  function Kept(rows: seq<Row>): nat {
    if rows == [] then 0 else Kept(rows[..|rows| - 1]) + (if SkipRow(rows[|rows| - 1]) then 0 else 1)
  }

  /** Every row that is not skipped is counted exactly once, as created or
      as updated; the table grows by the number created. */
  lemma {:induction false} CountsAddUp(members: seq<Member>, rows: seq<Row>, data: Row -> MemberData)
    requires Indexed(members)
    ensures var r := ImportAll(members, rows, data);
            r.1 + r.2 == Kept(rows) && |r.0| == |members| + r.1
  {
    if rows != [] {
      CountsAddUp(members, rows[..|rows| - 1], data);
    }
  }

  /** Skipped rows change nothing: a file of skipped rows leaves the table as it was. */
  lemma {:induction false} SkippedRowsChangeNothing(members: seq<Member>, rows: seq<Row>, data: Row -> MemberData)
    requires Indexed(members)
    requires forall i :: 0 <= i < |rows| ==> SkipRow(rows[i])
    ensures ImportAll(members, rows, data) == (members, 0, 0)
  {
    if rows != [] {
      SkippedRowsChangeNothing(members, rows[..|rows| - 1], data);
    }
  }

  /** One more row of the fold is one more `ImportRow`. */
  lemma {:induction false} ImportAllStep(members: seq<Member>, rows: seq<Row>, i: nat, data: Row -> MemberData)
    requires Indexed(members) && i < |rows|
    ensures ImportAll(members, rows[..i + 1], data) == ImportStep(ImportAll(members, rows[..i], data), rows[i], data)
  {
    var prefix := rows[..i + 1];
    assert prefix != [] && prefix[..|prefix| - 1] == rows[..i] && prefix[|prefix| - 1] == rows[i];
  }

  /** The import loop over the member table: each row that is not skipped
      updates the member it matches or creates one, and is counted. */
  method ImportLoop(members: seq<Member>, rows: seq<Row>, data: Row -> MemberData)
    returns (result: seq<Member>, created: nat, updated: nat)
    requires Indexed(members)
    ensures (result, created, updated) == ImportAll(members, rows, data)
  {
    result := members;
    created, updated := 0, 0;
    var i := 0;
    while i < |rows|
      invariant 0 <= i <= |rows|
      invariant Indexed(result)
      invariant (result, created, updated) == ImportAll(members, rows[..i], data)
    {
      ImportAllStep(members, rows, i, data);
      var next := ImportStep((result, created, updated), rows[i], data);
      result, created, updated := next.0, next.1, next.2;
      i := i + 1;
    }
    assert rows[..i] == rows;
  }

  /** The import loop on the database: the rows are saved as the loop goes;
      writing the table back once leaves the same final state. Only the member
      table changes. */
  method ImportMembers(db: Database, rows: seq<Row>, data: Row -> MemberData) returns (created: nat, updated: nat)
    requires db.Valid()
    modifies db
    ensures db.Valid()
    ensures (db.members, created, updated) == ImportAll(old(db.members), rows, data)
    ensures db.users == old(db.users) && db.admins == old(db.admins) && db.units == old(db.units)
    ensures db.cells == old(db.cells) && db.families == old(db.families) && db.tokens == old(db.tokens)
  {
    var members;
    members, created, updated := ImportLoop(db.members, rows, data);
    CountsAddUp(db.members, rows, data);
    forall k | k in db.admins
      ensures AdminRowOk(k, db.admins[k], |members|, |db.users|)
    {
      assert AdminRowOk(k, db.admins[k], |db.members|, |db.users|);
    }
    db.members := members;
  }

  /** `import_members_from_csv` on rows already read from the file: the unit
      and cell tables, then the loop. Returns the created and updated counts;
      `Err` when a lookup table cannot be built. */
  method ImportFromCsv(db: Database, rows: seq<Row>, assembly: nat, today: Date)
    returns (r: Result<(nat, nat), string>)
    requires db.Valid() && ValidDate(today)
    modifies db
    ensures db.Valid()
    ensures r.Ok? ==> exists units, cells ::
              && UnitTable(units, UNIT_NAMES, db.units) && CellTable(cells, CELL_NAMES, db.cells)
              && (db.members, r.value.0, r.value.1)
                 == ImportAll(old(db.members), rows, row => RowDataFor(row, assembly, units, cells, today.year))
    ensures r.Err? ==> db.members == old(db.members)
    ensures db.users == old(db.users) && db.admins == old(db.admins) && db.tokens == old(db.tokens)
  {
    var units := CreateUnits(db);
    if units.Err? {
      return Err(units.error);
    }
    var cells := CreateCells(db, today);
    if cells.Err? {
      return Err(cells.error);
    }
    var u, c := units.value, cells.value;
    assert UnitTable(u, UNIT_NAMES, db.units);
    var created, updated := ImportMembers(db, rows, row => RowDataFor(row, assembly, u, c, today.year));
    r := Ok((created, updated));
  }

  // ---------------------------------------------------------------------------
  // The import as written: an out-of-range year raises
  // ---------------------------------------------------------------------------

  /** Whether mapping a row reaches a `datetime` call that raises: the
      baptism year is read only when the Baptism column says "yes", the
      born-again year always. */
  predicate RowRaises(row: Row) {
    || (Lower(Strip(Get(row, "Baptism"))) == "yes" && YearStartAsWritten(Strip(Get(row, "Baptism Year"))).Err?)
    || YearStartAsWritten(Strip(Get(row, "born again year"))).Err?
  }

  /** The row mapping as written: the baptism year is read before the
      born-again year, and the first year that raises ends the row. */
  function RowDataAsWritten(row: Row, assembly: nat, units: map<string, nat>, cells: map<string, nat>, dob: Option<Date>)
    : Result<MemberData, string>
  {
    var baptism :=
      if Lower(Strip(Get(row, "Baptism"))) == "yes" then YearStartAsWritten(Strip(Get(row, "Baptism Year"))) else Ok(None);
    if baptism.Err? then Err(baptism.error)
    else
      var membership := YearStartAsWritten(Strip(Get(row, "born again year")));
      if membership.Err? then Err(membership.error)
      else Ok(RowData(row, assembly, units, cells, dob).(baptismDate := baptism.value, membershipDate := membership.value))
  }

  /** A row raises exactly when one of the years it reads is out of range;
      a row that does not raise maps to the fields of the corrected reading. */
  lemma {:induction false} RowDataAsWrittenRefines(row: Row, assembly: nat, units: map<string, nat>, cells: map<string, nat>,
                                                   dob: Option<Date>)
    ensures RowDataAsWritten(row, assembly, units, cells, dob).Err? <==> RowRaises(row)
    ensures RowDataAsWritten(row, assembly, units, cells, dob).Ok? ==>
              RowDataAsWritten(row, assembly, units, cells, dob).value == RowData(row, assembly, units, cells, dob)
  {
    YearStartRefinesAsWritten(Strip(Get(row, "Baptism Year")));
    YearStartRefinesAsWritten(Strip(Get(row, "born again year")));
  }

  /** The loop as written, part way: the member table and the counts so far,
      and the error that ended the loop, if one did. */
  datatype Run = Run(members: seq<Member>, created: nat, updated: nat, failure: Option<string>)

  /** The loop of `import_members_from_csv` as written, with the row mapping
      `data`: every member is saved as its row is reached, so a row that raises
      ends the import with the rows before it already imported. */
  function ImportUntilFailure(members: seq<Member>, rows: seq<Row>, data: Row -> Result<MemberData, string>): (r: Run)
    requires Indexed(members)
    ensures Indexed(r.members)
    decreases |rows|
  {
    if rows == [] then Run(members, 0, 0, None)
    else RunStep(ImportUntilFailure(members, rows[..|rows| - 1], data), rows[|rows| - 1], data)
  }

  /** One pass of the loop body as written: nothing after a failure; a skipped
      row changes nothing; a row that raises records the error; any other row
      is imported and counted. */
  function RunStep(acc: Run, row: Row, data: Row -> Result<MemberData, string>): (r: Run)
    requires Indexed(acc.members)
    ensures Indexed(r.members)
  {
    if acc.failure.Some? || SkipRow(row) then acc
    else
      match data(row)
      case Err(e) => acc.(failure := Some(e))
      case Ok(d) =>
        var step := ImportRow(acc.members, row, d);
        Run(step.0, acc.created + (if step.1.Created? then 1 else 0), acc.updated + (if step.1.Updated? then 1 else 0), None)
  }

  /** One pass of both loops on a row that does not raise: the same table and counts. */
  lemma {:induction false} RunStepAgrees(acc: Run, row: Row, data: Row -> Result<MemberData, string>, fixed: Row -> MemberData)
    requires Indexed(acc.members) && acc.failure.None?
    requires !SkipRow(row) ==> data(row) == Ok(fixed(row))
    ensures var step := ImportStep((acc.members, acc.created, acc.updated), row, fixed);
            RunStep(acc, row, data) == Run(step.0, step.1, step.2, None)
  {
  }

  /** When no row that is read raises, the loop as written imports exactly
      what the corrected loop imports. */
  lemma {:induction false} NothingRaisedAgrees(members: seq<Member>, rows: seq<Row>, data: Row -> Result<MemberData, string>,
                                               fixed: Row -> MemberData)
    requires Indexed(members)
    requires forall i :: 0 <= i < |rows| && !SkipRow(rows[i]) ==> data(rows[i]) == Ok(fixed(rows[i]))
    ensures var r := ImportUntilFailure(members, rows, data);
            r.failure.None? && (r.members, r.created, r.updated) == ImportAll(members, rows, fixed)
    decreases |rows|
  {
    if rows != [] {
      var prefix := rows[..|rows| - 1];
      var last := rows[|rows| - 1];
      assert forall i :: 0 <= i < |prefix| ==> prefix[i] == rows[i];
      NothingRaisedAgrees(members, prefix, data, fixed);
      var before := ImportUntilFailure(members, prefix, data);
      assert ImportUntilFailure(members, rows, data) == RunStep(before, last, data);
      assert ImportAll(members, rows, fixed) == ImportStep(ImportAll(members, prefix, fixed), last, fixed);
      RunStepAgrees(before, last, data, fixed);
    }
  }

  /** Once a row has raised, the rows after it change nothing. */
  lemma {:induction false} FailureSticks(members: seq<Member>, rows: seq<Row>, data: Row -> Result<MemberData, string>, k: nat)
    requires Indexed(members) && k <= |rows|
    requires ImportUntilFailure(members, rows[..k], data).failure.Some?
    ensures ImportUntilFailure(members, rows, data) == ImportUntilFailure(members, rows[..k], data)
    decreases |rows| - k
  {
    if |rows| == k {
      assert rows[..k] == rows;
    } else {
      var prefix := rows[..|rows| - 1];
      assert prefix[..k] == rows[..k];
      FailureSticks(members, prefix, data, k);
    }
  }

  /** The first row that raises ends the import: the table and counts are
      those of the rows before it, and its error is the outcome. */
  lemma {:induction false} FirstRaisingRowStops(members: seq<Member>, rows: seq<Row>, data: Row -> Result<MemberData, string>,
                                                k: nat)
    requires Indexed(members) && k < |rows|
    requires !SkipRow(rows[k]) && data(rows[k]).Err?
    requires ImportUntilFailure(members, rows[..k], data).failure.None?
    ensures ImportUntilFailure(members, rows, data)
            == ImportUntilFailure(members, rows[..k], data).(failure := Some(data(rows[k]).error))
  {
    var upTo := rows[..k + 1];
    assert upTo[..|upTo| - 1] == rows[..k] && upTo[|upTo| - 1] == rows[k];
    FailureSticks(members, rows, data, k + 1);
  }

  /** On a file where no row that is read has an out-of-range year, the
      import as written and the corrected import agree. */
  lemma {:induction false} AsWrittenImportAgrees(members: seq<Member>, rows: seq<Row>, assembly: nat,
                                                 units: map<string, nat>, cells: map<string, nat>, year: nat)
    requires Indexed(members)
    requires forall i :: 0 <= i < |rows| && !SkipRow(rows[i]) ==> !RowRaises(rows[i])
    ensures var r := ImportUntilFailure(members, rows,
                       row => RowDataAsWritten(row, assembly, units, cells, BirthDate(row, year)));
            r.failure.None?
            && (r.members, r.created, r.updated)
               == ImportAll(members, rows, row => RowDataFor(row, assembly, units, cells, year))
  {
    var data := row => RowDataAsWritten(row, assembly, units, cells, BirthDate(row, year));
    var fixed := row => RowDataFor(row, assembly, units, cells, year);
    forall i | 0 <= i < |rows| && !SkipRow(rows[i])
      ensures data(rows[i]) == Ok(fixed(rows[i]))
    {
      RowDataAsWrittenRefines(rows[i], assembly, units, cells, BirthDate(rows[i], year));
    }
    NothingRaisedAgrees(members, rows, data, fixed);
  }

  /** The first row that raises, after rows that map as the corrected
      reading maps them: the table and counts are what the corrected loop
      makes of the rows before it, and the import ends in an error. */
  lemma {:induction false} FirstFailureKeepsPrefix(members: seq<Member>, rows: seq<Row>,
                                                   data: Row -> Result<MemberData, string>, fixed: Row -> MemberData, k: nat)
    requires Indexed(members) && k < |rows|
    requires !SkipRow(rows[k]) && data(rows[k]).Err?
    requires forall i :: 0 <= i < k && !SkipRow(rows[i]) ==> data(rows[i]) == Ok(fixed(rows[i]))
    ensures var r := ImportUntilFailure(members, rows, data);
            r.failure.Some? && (r.members, r.created, r.updated) == ImportAll(members, rows[..k], fixed)
  {
    var prefix := rows[..k];
    assert forall i :: 0 <= i < |prefix| ==> prefix[i] == rows[i];
    NothingRaisedAgrees(members, prefix, data, fixed);
    FirstRaisingRowStops(members, rows, data, k);
  }

  /** On a file whose row `k` is the first read row with an out-of-range
      year, the import as written raises there and keeps exactly what the
      corrected import makes of the rows before it. */
  lemma {:induction false} AsWrittenImportKeepsEarlierRows(members: seq<Member>, rows: seq<Row>, assembly: nat,
                                                           units: map<string, nat>, cells: map<string, nat>, year: nat, k: nat)
    requires Indexed(members) && k < |rows|
    requires !SkipRow(rows[k]) && RowRaises(rows[k])
    requires forall i :: 0 <= i < k && !SkipRow(rows[i]) ==> !RowRaises(rows[i])
    ensures var r := ImportUntilFailure(members, rows,
                       row => RowDataAsWritten(row, assembly, units, cells, BirthDate(row, year)));
            && r.failure.Some?
            && (r.members, r.created, r.updated)
               == ImportAll(members, rows[..k], row => RowDataFor(row, assembly, units, cells, year))
  {
    var data := row => RowDataAsWritten(row, assembly, units, cells, BirthDate(row, year));
    var fixed := row => RowDataFor(row, assembly, units, cells, year);
    forall i | 0 <= i <= k && !SkipRow(rows[i])
      ensures i < k ==> data(rows[i]) == Ok(fixed(rows[i]))
      ensures i == k ==> data(rows[i]).Err?
    {
      RowDataAsWrittenRefines(rows[i], assembly, units, cells, BirthDate(rows[i], year));
    }
    FirstFailureKeepsPrefix(members, rows, data, fixed, k);
  }

  /** The loop as written, row by row until the end of the file or the first
      row that raises. */
  method ImportLoopAsWritten(members: seq<Member>, rows: seq<Row>, data: Row -> Result<MemberData, string>)
    returns (run: Run)
    requires Indexed(members)
    ensures run == ImportUntilFailure(members, rows, data)
  {
    run := Run(members, 0, 0, None);
    var i := 0;
    while i < |rows| && run.failure.None?
      invariant 0 <= i <= |rows|
      invariant Indexed(run.members)
      invariant run == ImportUntilFailure(members, rows[..i], data)
    {
      var upTo := rows[..i + 1];
      assert upTo[..|upTo| - 1] == rows[..i] && upTo[|upTo| - 1] == rows[i];
      run := RunStep(run, rows[i], data);
      i := i + 1;
    }
    if i == |rows| {
      assert rows[..i] == rows;
    } else {
      FailureSticks(members, rows, data, i);
    }
  }
}
