/** The member views of core/views.py: the scoping and filter pipeline of
    `member_list`, the cell override of `create_member`, the status forced by
    `public_registration`, and the limits and truncation of `ajax_search`.
    Request parameters are strings, "" standing for an absent one; an id
    that `int()` cannot read makes the query raise, which the model reports
    as `Failed`. */
module MemberViews {
  import opened Common
  import opened Models
  import opened Sorting
  import opened Provisioning

  // ---------------------------------------------------------------------------
  // member_list
  // ---------------------------------------------------------------------------

  /** The GET parameters `member_list` reads. */
  datatype ListQuery = ListQuery(assembly: string, unit: string, gender: string, cell: string,
                                 status: string, search: string, month: string)

  const NO_FILTERS: ListQuery := ListQuery("", "", "", "", "", "", "")

  /** A filter on a nullable foreign key: none, "is null", or equal to an id. */
  datatype IdFilter = AnyId | NullId | Id(value: int)

  /** The parsed filters. */
  datatype Filters = Filters(assembly: Option<int>, unit: IdFilter, gender: Option<string>, cell: IdFilter,
                             status: Option<string>, search: Option<string>, month: Option<int>)

  datatype ListOutcome = Listed(members: seq<Member>) | Failed(reason: string)

  const UNBOUND_MEMBERS: string := "UnboundLocalError: members"
  const NOT_A_NUMBER: string := "ValueError: Field expected a number"

  /** The order `member_list` starts from: first name, then last name. */
  function FirstLast(m: Member): (string, string) {
    (m.firstName, m.lastName)
  }

  /** The base set: every member for a superadmin, the members whose cell is
      the admin's cell (whatever their assembly, and the members without a
      cell when the admin has none) for a Cell admin; any other level leaves
      `members` unassigned. */
  function BaseMembers(a: Admin, all: seq<Member>): (r: Option<seq<Member>>)
    ensures r.None? <==> !IsSuperadmin(a) && !IsCellAdmin(a)
    ensures r.Some? ==> SortedBy(r.value, ByPairKey(FirstLast))
    ensures IsSuperadmin(a) ==> forall m :: m in r.value <==> m in all
    ensures IsCellAdmin(a) ==> forall m :: m in r.value <==> m in all && m.cell == a.cell
  {
    if IsSuperadmin(a) then Some(ByName(all))
    else if IsCellAdmin(a) then Some(ByName(Where(all, (m: Member) => m.cell == a.cell)))
    else None
  }

  /** `order_by('first_name', 'last_name')`: the same members, ordered. */
  function ByName(ms: seq<Member>): (r: seq<Member>)
    ensures SortedBy(r, ByPairKey(FirstLast))
    ensures forall m :: m in r <==> m in ms
  {
    ByPairKeyIsTotalPreorder(FirstLast);
    SortSorted(ms, ByPairKey(FirstLast));
    assert forall m :: m in ms <==> m in multiset(ms);
    Sort(ms, ByPairKey(FirstLast))
  }

  /** A foreign-key filter parameter: "" is no filter, "None" (where the view
      accepts it) is "is null", anything else must be an integer. */
  function ParseIdFilter(text: string, nullable: bool): (r: Result<IdFilter, string>)
    ensures text == "" ==> r == Ok(AnyId)
    ensures text != "" && nullable && text == "None" ==> r == Ok(NullId)
    ensures text != "" && !(nullable && text == "None") ==>
              (r.Ok? <==> PyInt(text).Some?) && (r.Ok? ==> r.value == Id(PyInt(text).value))
  {
    if text == "" then Ok(AnyId)
    else if nullable && text == "None" then Ok(NullId)
    else match PyInt(text)
      case None => Err(NOT_A_NUMBER)
      case Some(v) => Ok(Id(v))
  }

  /** A text parameter: "" is no filter. */
  function TextFilter(text: string): Option<string> {
    if text == "" then None else Some(text)
  }

  /** The filters as the view reads them. The cell parameter is read only for
      a superadmin; gender "all" is no filter. */
  function ParseFilters(a: Admin, q: ListQuery): (r: Result<Filters, string>)
    ensures !IsSuperadmin(a) && r.Ok? ==> r.value.cell == AnyId
    ensures r.Ok? ==> r.value.gender == (if q.gender == "" || q.gender == "all" then None else Some(q.gender))
    ensures r.Ok? ==> r.value.status == TextFilter(q.status) && r.value.search == TextFilter(q.search)
  {
    var assembly := ParseIdFilter(q.assembly, false);
    var unit := ParseIdFilter(q.unit, true);
    var cell := if IsSuperadmin(a) then ParseIdFilter(q.cell, true) else Ok(AnyId);
    var month := ParseIdFilter(q.month, false);
    if assembly.Err? || unit.Err? || cell.Err? || month.Err? then Err(NOT_A_NUMBER)
    else
      Ok(Filters(if assembly.value.Id? then Some(assembly.value.value) else None,
                 unit.value,
                 if q.gender == "" || q.gender == "all" then None else Some(q.gender),
                 cell.value,
                 TextFilter(q.status),
                 TextFilter(q.search),
                 if month.value.Id? then Some(month.value.value) else None))
  }

  predicate IdMatches(f: IdFilter, id: Option<nat>) {
    match f
    case AnyId => true
    case NullId => id.None?
    case Id(v) => id.Some? && id.value == v
  }

  /** The search: a case-insensitive substring of the first name, last name, email or phone. */
  predicate SearchMatches(m: Member, text: string) {
    IContains(m.firstName, text) || IContains(m.lastName, text) || IContains(m.email, text) || IContains(m.phone, text)
  }

  /** Filter number `k` of the view keeps member `m`; filters the request
      does not give keep everyone. In the view's order: assembly, unit,
      gender, cell, status, search, month of birth. */
  predicate Keeps(f: Filters, k: nat, m: Member) {
    if k == 0 then f.assembly.Some? ==> m.assembly == f.assembly.value
    else if k == 1 then IdMatches(f.unit, m.unit)
    else if k == 2 then f.gender.Some? ==> m.gender == f.gender.value
    else if k == 3 then IdMatches(f.cell, m.cell)
    else if k == 4 then f.status.Some? ==> m.membershipStatus == f.status.value
    else if k == 5 then f.search.Some? ==> SearchMatches(m, f.search.value)
    else f.month.Some? ==> m.dateOfBirth.Some? && m.dateOfBirth.value.month == f.month.value
  }

  const FILTER_COUNT: nat := 7

  /** A member passes every given filter. */
  predicate Passes(f: Filters, m: Member) {
    && (f.assembly.Some? ==> m.assembly == f.assembly.value)
    && IdMatches(f.unit, m.unit)
    && (f.gender.Some? ==> m.gender == f.gender.value)
    && IdMatches(f.cell, m.cell)
    && (f.status.Some? ==> m.membershipStatus == f.status.value)
    && (f.search.Some? ==> SearchMatches(m, f.search.value))
    && (f.month.Some? ==> m.dateOfBirth.Some? && m.dateOfBirth.value.month == f.month.value)
  }

  lemma {:induction false} PassesIsEveryFilter(f: Filters, m: Member)
    ensures Passes(f, m) <==> forall k :: 0 <= k < FILTER_COUNT ==> Keeps(f, k, m)
  {
    assert (Keeps(f, 0, m) && Keeps(f, 1, m) && Keeps(f, 2, m) && Keeps(f, 3, m) && Keeps(f, 4, m)
            && Keeps(f, 5, m) && Keeps(f, 6, m)) <==> Passes(f, m);
  }

  function BirthDay(m: Member): int {
    if m.dateOfBirth.Some? then m.dateOfBirth.value.day else 0
  }

  /** `order_by("date_of_birth__day")`. */
  predicate DayLeq(a: Member, b: Member) {
    BirthDay(a) <= BirthDay(b)
  }

  /** `members = members.filter(...)` for filter number `k`. */
  function Step(s: seq<Member>, f: Filters, k: nat): seq<Member> {
    Where(s, (m: Member) => Keeps(f, k, m))
  }

  /** The first `k` filters applied in turn. */
  function Filtered(s: seq<Member>, f: Filters, k: nat): seq<Member> {
    if k == 0 then s else Step(Filtered(s, f, k - 1), f, k - 1)
  }

  lemma {:induction false} FilteredSelects(s: seq<Member>, f: Filters, k: nat)
    ensures |Filtered(s, f, k)| <= |s|
    ensures forall m :: m in Filtered(s, f, k) <==> m in s && forall j :: 0 <= j < k ==> Keeps(f, j, m)
  {
    if k > 0 {
      FilteredSelects(s, f, k - 1);
    }
  }

  lemma {:induction false} FilteredKeepsOrder(s: seq<Member>, f: Filters, k: nat, leq: (Member, Member) -> bool)
    requires SortedBy(s, leq)
    ensures SortedBy(Filtered(s, f, k), leq)
  {
    if k > 0 {
      FilteredKeepsOrder(s, f, k - 1, leq);
      WhereKeepsOrder(Filtered(s, f, k - 1), (m: Member) => Keeps(f, k - 1, m), leq);
    }
  }

  /** The successive `filter` calls of the view, in its order; a month filter
      comes last and re-orders by day of birth. */
  function Pipeline(s: seq<Member>, f: Filters): seq<Member> {
    var kept := Filtered(s, f, FILTER_COUNT - 1);
    if f.month.Some? then Sort(Step(kept, f, FILTER_COUNT - 1), DayLeq) else kept
  }

  /** The pipeline keeps exactly the members that pass every filter: each
      filter only narrows the set. */
  lemma {:induction false} PipelineSelects(s: seq<Member>, f: Filters)
    ensures |Pipeline(s, f)| <= |s|
    ensures forall m :: m in Pipeline(s, f) <==> m in s && Passes(f, m)
  {
    FilteredSelects(s, f, FILTER_COUNT - 1);
    forall m
      ensures m in Pipeline(s, f) <==> m in s && Passes(f, m)
    {
      PipelineKeeps(s, f, m);
    }
  }

  lemma {:induction false} PipelineKeeps(s: seq<Member>, f: Filters, m: Member)
    ensures m in Pipeline(s, f) <==> m in s && Passes(f, m)
  {
    var last := Filtered(s, f, FILTER_COUNT);
    FilteredSelects(s, f, FILTER_COUNT);
    assert last == Step(Filtered(s, f, FILTER_COUNT - 1), f, FILTER_COUNT - 1);
    PassesIsEveryFilter(f, m);
    if f.month.Some? {
      assert Pipeline(s, f) == Sort(last, DayLeq);
      assert m in Sort(last, DayLeq) <==> m in multiset(Sort(last, DayLeq));
      assert m in last <==> m in multiset(last);
    } else {
      FilteredSelects(s, f, FILTER_COUNT - 1);
      assert Keeps(f, FILTER_COUNT - 1, m);
    }
  }

  /** Without a month the pipeline keeps the order it was given; with one it
      is ordered by day of birth. */
  lemma {:induction false} PipelineOrder(s: seq<Member>, f: Filters, leq: (Member, Member) -> bool)
    ensures f.month.None? && SortedBy(s, leq) ==> SortedBy(Pipeline(s, f), leq)
    ensures f.month.Some? ==> SortedBy(Pipeline(s, f), DayLeq)
  {
    if f.month.Some? {
      SortSorted(Filtered(s, f, FILTER_COUNT), DayLeq);
    } else if SortedBy(s, leq) {
      FilteredKeepsOrder(s, f, FILTER_COUNT - 1, leq);
    }
  }

  /** `member_list` before pagination. */
  function MemberList(a: Admin, all: seq<Member>, q: ListQuery): ListOutcome {
    var base := BaseMembers(a, all);
    if base.None? then Failed(UNBOUND_MEMBERS)
    else match ParseFilters(a, q)
      case Err(e) => Failed(e)
      case Ok(f) => Listed(Pipeline(base.value, f))
  }

  /** The members the list starts from, pointwise. */
  predicate InBase(a: Admin, m: Member) {
    IsSuperadmin(a) || (IsCellAdmin(a) && m.cell == a.cell)
  }

  /** The list holds exactly the members of the base set that pass every
      filter, ordered by first and last name (by day of birth under a month
      filter). It fails for any level other than superadmin and Cell. */
  lemma {:induction false} MemberListSelects(a: Admin, all: seq<Member>, q: ListQuery)
    ensures var r := MemberList(a, all, q);
            r.Failed? <==> (!IsSuperadmin(a) && !IsCellAdmin(a)) || ParseFilters(a, q).Err?
    ensures var r := MemberList(a, all, q);
            r.Listed? ==>
              forall m :: m in r.members <==> m in all && InBase(a, m) && Passes(ParseFilters(a, q).value, m)
    ensures var r := MemberList(a, all, q);
            r.Listed? && ParseFilters(a, q).value.month.None? ==> SortedBy(r.members, ByPairKey(FirstLast))
  {
    var base := BaseMembers(a, all);
    if base.Some? && ParseFilters(a, q).Ok? {
      PipelineSelects(base.value, ParseFilters(a, q).value);
      PipelineOrder(base.value, ParseFilters(a, q).value, ByPairKey(FirstLast));
    }
  }

  /** A moderator cannot open the list: the view fails. */
  lemma {:induction false} ModeratorListFails(a: Admin, all: seq<Member>, q: ListQuery)
    requires IsModerator(a)
    ensures MemberList(a, all, q).Failed?
  {
  }

  /** Unlike `get_managed_members`, the list of a Cell admin is not limited
      to the admin's assembly: a member of another assembly in the admin's
      cell is listed although the admin may not access it. */
  lemma {:induction false} CellAdminListIgnoresAssembly(a: Admin, m: Member)
    requires IsCellAdmin(a) && a.cell.Some? && m.cell == a.cell && m.assembly != a.assembly
    ensures MemberList(a, [m], NO_FILTERS) == Listed([m])
    ensures !CanAccessMember(a, m)
  {
    var base := BaseMembers(a, [m]);
    assert |base.value| <= 1 && m in base.value;
    PipelineSelects(base.value, ParseFilters(a, NO_FILTERS).value);
  }

  /** A Cell admin without a cell is shown the members that have no cell. */
  lemma {:induction false} CellAdminWithoutCellSeesUnassigned(a: Admin, all: seq<Member>, m: Member)
    requires IsCellAdmin(a) && a.cell.None? && m in all
    ensures m in MemberList(a, all, NO_FILTERS).members <==> m.cell.None?
  {
    MemberListSelects(a, all, NO_FILTERS);
  }

  /** The cell parameter is ignored unless the admin is a superadmin. */
  lemma {:induction false} CellFilterOnlyForSuperadmin(a: Admin, all: seq<Member>, q: ListQuery)
    requires !IsSuperadmin(a)
    ensures MemberList(a, all, q) == MemberList(a, all, q.(cell := ""))
  {
  }

  /** Gender "all" filters nothing. */
  lemma {:induction false} GenderAllIsNoFilter(a: Admin, all: seq<Member>, q: ListQuery)
    ensures MemberList(a, all, q.(gender := "all")) == MemberList(a, all, q.(gender := ""))
  {
  }

  // ---------------------------------------------------------------------------
  // create_member and public_registration
  // ---------------------------------------------------------------------------

  /** The cell a member created from the dashboard is stored with: a Cell
      admin with a cell puts the member in that cell, whatever was submitted. */
  function CreatedCell(submitted: Option<nat>, actor: Option<Admin>): (cell: Option<nat>)
    ensures actor.Some? && IsCellAdmin(actor.value) && actor.value.cell.Some? ==> cell == actor.value.cell
    ensures !(actor.Some? && IsCellAdmin(actor.value) && actor.value.cell.Some?) ==> cell == submitted
  {
    if actor.Some? && IsCellAdmin(actor.value) && actor.value.cell.Some? then actor.value.cell else submitted
  }

  /** `create_member`: only POST is served (405); an invalid form is 400 and
      saves nothing; a valid one stores the member under the next id with
      its cell overridden as `CreatedCell` says. `form` is the cleaned record
      or the form's errors. */
  method CreateMember(db: Database, post: bool, form: Result<Member, string>, actor: Option<Admin>)
    returns (status: nat)
    requires db.Valid()
    modifies db
    ensures db.Valid()
    ensures !post ==> status == 405
    ensures post && form.Err? ==> status == 400
    ensures status != 200 ==> db.members == old(db.members)
    ensures status == 200 <==> post && form.Ok?
    ensures status == 200 ==>
              db.members == old(db.members) + [form.value.(id := |old(db.members)|, cell := CreatedCell(form.value.cell, actor))]
    ensures db.users == old(db.users) && db.admins == old(db.admins) && db.units == old(db.units)
    ensures db.cells == old(db.cells) && db.families == old(db.families) && db.tokens == old(db.tokens)
  {
    if !post {
      return 405;
    }
    if form.Err? {
      return 400;
    }
    var member := form.value.(id := |db.members|);
    member := member.(cell := CreatedCell(member.cell, actor));
    db.members := db.members + [member];
    status := 200;
  }

  datatype RegistrationOutcome = ShowForm | Registered(id: nat)

  /** `public_registration`: a valid POST stores the member with status
      NEW_MEMBER whatever was submitted; anything else shows the form again
      and saves nothing. */
  method PublicRegistration(db: Database, post: bool, form: Result<Member, string>)
    returns (outcome: RegistrationOutcome)
    requires db.Valid()
    modifies db
    ensures db.Valid()
    ensures outcome.Registered? <==> post && form.Ok?
    ensures outcome.ShowForm? ==> db.members == old(db.members)
    ensures outcome.Registered? ==>
              && outcome.id == |old(db.members)|
              && db.members == old(db.members) + [form.value.(id := outcome.id, membershipStatus := NEW_MEMBER)]
    ensures db.users == old(db.users) && db.admins == old(db.admins) && db.units == old(db.units)
    ensures db.cells == old(db.cells) && db.families == old(db.families) && db.tokens == old(db.tokens)
  {
    if !post || form.Err? {
      return ShowForm;
    }
    var member := form.value.(id := |db.members|);
    member := member.(membershipStatus := NEW_MEMBER);
    db.members := db.members + [member];
    outcome := Registered(member.id);
  }

  // ---------------------------------------------------------------------------
  // ajax_search
  // ---------------------------------------------------------------------------

  /** A unit as the search reports it, with its shortened description. */
  datatype UnitHit = UnitHit(id: nat, name: string, description: string)

  datatype SearchResults = SearchResults(members: seq<Member>, assemblies: seq<Assembly>,
                                         units: seq<UnitHit>, cells: seq<Cell>)

  const EMPTY_RESULTS: SearchResults := SearchResults([], [], [], [])

  /** Each category returns at most this many rows. */
  const SEARCH_LIMIT: nat := 10

  /** Unit descriptions are cut to this many characters. */
  const DESCRIPTION_LIMIT: nat := 100

  predicate MemberHit(m: Member, q: string) {
    IContains(m.firstName, q) || IContains(m.lastName, q) || IContains(m.middleName, q)
    || IContains(m.email, q) || IContains(m.phone, q)
  }

  predicate AssemblyHit(a: Assembly, q: string) {
    IContains(a.name, q) || IContains(a.city, q) || IContains(a.state, q)
  }

  predicate UnitMatches(u: Unit, q: string) {
    IContains(u.name, q) || IContains(u.description, q)
  }

  function MemberLastFirst(m: Member): (string, string) {
    (m.lastName, m.firstName)
  }

  /** The rows each category's filter keeps, in table order. */
  function MemberHits(members: seq<Member>, t: string): seq<Member> {
    Where(members, (m: Member) => MemberHit(m, t))
  }

  function AssemblyHits(assemblies: seq<Assembly>, t: string): seq<Assembly> {
    Where(assemblies, (a: Assembly) => AssemblyHit(a, t))
  }

  function UnitHits(units: seq<Unit>, t: string): seq<Unit> {
    Where(units, (u: Unit) => UnitMatches(u, t))
  }

  function CellHits(cells: seq<Cell>, t: string): seq<Cell> {
    Where(cells, (c: Cell) => IContains(c.name, t))
  }

  /** How many rows `[:SEARCH_LIMIT]` keeps of `n`. */
  function Limited(n: nat): nat {
    if n <= SEARCH_LIMIT then n else SEARCH_LIMIT
  }

  function ShowUnit(u: Unit): (h: UnitHit)
    ensures h.id == u.id && h.name == u.name
    ensures |u.description| <= DESCRIPTION_LIMIT ==> h.description == u.description
    ensures |u.description| > DESCRIPTION_LIMIT ==>
              h.description == u.description[..DESCRIPTION_LIMIT] + "..."
  {
    UnitHit(u.id, u.name, Truncate(u.description, DESCRIPTION_LIMIT))
  }

  function ShowUnits(units: seq<Unit>): (r: seq<UnitHit>)
    ensures |r| == |units|
    ensures forall i :: 0 <= i < |r| ==> r[i] == ShowUnit(units[i])
  {
    if units == [] then [] else [ShowUnit(units[0])] + ShowUnits(units[1..])
  }

  /** Every unit listed is shown. */
  lemma {:induction false} ShowsEachUnit(units: seq<Unit>)
    ensures forall u :: u in units ==> ShowUnit(u) in ShowUnits(units)
  {
    forall u | u in units
      ensures ShowUnit(u) in ShowUnits(units)
    {
      var k :| 0 <= k < |units| && units[k] == u;
      assert ShowUnits(units)[k] == ShowUnit(u);
    }
  }

  /** `ajax_search` with the `q` parameter: members (ordered by last then
      first name), assemblies and units (by name) and cells (in table order)
      matching the stripped query, ten of each at most. */
  function AjaxSearch(q: string, members: seq<Member>, assemblies: seq<Assembly>, units: seq<Unit>,
                      cells: seq<Cell>): (r: SearchResults)
    ensures Strip(q) == "" ==> r == EMPTY_RESULTS
    ensures |r.members| <= SEARCH_LIMIT && |r.assemblies| <= SEARCH_LIMIT
    ensures |r.units| <= SEARCH_LIMIT && |r.cells| <= SEARCH_LIMIT
  {
    var t := Strip(q);
    if t == "" then EMPTY_RESULTS
    else SearchResults(SearchMembers(members, t), SearchAssemblies(assemblies, t), SearchUnits(units, t), SearchCells(cells, t))
  }

  /** Each category's `filter(...)[:10]`, ordered by its model's ordering. */
  function SearchMembers(members: seq<Member>, t: string): (r: seq<Member>)
    ensures |r| <= SEARCH_LIMIT
  {
    TopK(MemberHits(members, t), SEARCH_LIMIT, ByPairKey(MemberLastFirst))
  }

  function SearchAssemblies(assemblies: seq<Assembly>, t: string): (r: seq<Assembly>)
    ensures |r| <= SEARCH_LIMIT
  {
    TopK(AssemblyHits(assemblies, t), SEARCH_LIMIT, ByKey(AssemblyName))
  }

  function SearchUnits(units: seq<Unit>, t: string): (r: seq<UnitHit>)
    ensures |r| <= SEARCH_LIMIT
  {
    ShowUnits(TopK(UnitHits(units, t), SEARCH_LIMIT, ByKey(UnitName)))
  }

  function SearchCells(cells: seq<Cell>, t: string): (r: seq<Cell>)
    ensures |r| <= SEARCH_LIMIT
  {
    var hits := CellHits(cells, t);
    if |hits| <= SEARCH_LIMIT then hits else hits[..SEARCH_LIMIT]
  }

  /** Every member returned matches the query, the members come in `Member`
      order (last name, then first name), no matching member left out ranks
      before one returned, and there are ten of them or all the matches. */
  lemma {:induction false} AjaxSearchMembers(q: string, members: seq<Member>, assemblies: seq<Assembly>, units: seq<Unit>,
                          cells: seq<Cell>)
    requires Strip(q) != ""
    ensures var r := AjaxSearch(q, members, assemblies, units, cells);
            && (forall m :: m in r.members ==> m in members && MemberHit(m, Strip(q)))
            && SortedBy(r.members, ByPairKey(MemberLastFirst))
            && (forall m, x :: m in r.members && x in members && MemberHit(x, Strip(q)) && x !in r.members ==>
                  ByPairKey(MemberLastFirst)(m, x))
            && |r.members| == Limited(|MemberHits(members, Strip(q))|)
  {
    var t := Strip(q);
    ByPairKeyIsTotalPreorder(MemberLastFirst);
    TopKSelects(MemberHits(members, t), SEARCH_LIMIT, ByPairKey(MemberLastFirst));
    TopKIsLeast(MemberHits(members, t), SEARCH_LIMIT, ByPairKey(MemberLastFirst));
  }

  /** The same for assemblies, in `Assembly` order (by name). */
  lemma {:induction false} AjaxSearchAssemblies(q: string, members: seq<Member>, assemblies: seq<Assembly>,
                                                units: seq<Unit>, cells: seq<Cell>)
    requires Strip(q) != ""
    ensures var r := AjaxSearch(q, members, assemblies, units, cells);
            && (forall a :: a in r.assemblies ==> a in assemblies && AssemblyHit(a, Strip(q)))
            && SortedBy(r.assemblies, ByKey(AssemblyName))
            && (forall a, x :: a in r.assemblies && x in assemblies && AssemblyHit(x, Strip(q)) && x !in r.assemblies ==>
                  ByKey(AssemblyName)(a, x))
            && |r.assemblies| == Limited(|AssemblyHits(assemblies, Strip(q))|)
  {
    var t := Strip(q);
    ByKeyIsTotalPreorder(AssemblyName);
    TopKSelects(AssemblyHits(assemblies, t), SEARCH_LIMIT, ByKey(AssemblyName));
    TopKIsLeast(AssemblyHits(assemblies, t), SEARCH_LIMIT, ByKey(AssemblyName));
  }

  /** The matching units `[:SEARCH_LIMIT]` keeps, in `Unit` order (by name):
      they match, are ordered, rank before every matching unit left out, and
      there are ten of them or all the matches. */
  lemma {:induction false} UnitHitsTop(units: seq<Unit>, t: string)
    ensures var top := TopK(UnitHits(units, t), SEARCH_LIMIT, ByKey(UnitName));
            && (forall u :: u in top ==> u in units && UnitMatches(u, t))
            && SortedBy(top, ByKey(UnitName))
            && (forall v, u :: v in top && u in units && UnitMatches(u, t) && u !in top ==> ByKey(UnitName)(v, u))
            && |top| == Limited(|UnitHits(units, t)|)
  {
    var hits := UnitHits(units, t);
    ByKeyIsTotalPreorder(UnitName);
    TopKSelects(hits, SEARCH_LIMIT, ByKey(UnitName));
    TopKIsLeast(hits, SEARCH_LIMIT, ByKey(UnitName));
  }

  /** The units returned match the query and come in `Unit` order (by name),
      no matching unit left out has a name before one returned, and there are
      ten of them or all the matches. A description longer than 100
      characters is shown as its first 100 characters and "...". */
  lemma {:induction false} AjaxSearchUnits(q: string, members: seq<Member>, assemblies: seq<Assembly>, units: seq<Unit>,
                        cells: seq<Cell>)
    requires Strip(q) != ""
    ensures var r := AjaxSearch(q, members, assemblies, units, cells);
            && (forall i :: 0 <= i < |r.units| ==>
                  exists u :: u in units && UnitMatches(u, Strip(q)) && r.units[i] == ShowUnit(u))
            && (forall i, j :: 0 <= i < j < |r.units| ==> LexLeq(r.units[i].name, r.units[j].name))
            && (forall i, u :: 0 <= i < |r.units| && u in units && UnitMatches(u, Strip(q)) && ShowUnit(u) !in r.units ==>
                  LexLeq(r.units[i].name, u.name))
            && |r.units| == Limited(|UnitHits(units, Strip(q))|)
  {
    assert AjaxSearch(q, members, assemblies, units, cells).units == SearchUnits(units, Strip(q));
    ShownUnits(units, Strip(q));
  }

  /** `UnitHitsTop` for the units as shown. */
  lemma {:induction false} ShownUnits(units: seq<Unit>, t: string)
    ensures var shown := SearchUnits(units, t);
            && (forall i :: 0 <= i < |shown| ==> exists u :: u in units && UnitMatches(u, t) && shown[i] == ShowUnit(u))
            && (forall i, j :: 0 <= i < j < |shown| ==> LexLeq(shown[i].name, shown[j].name))
            && (forall i, u :: 0 <= i < |shown| && u in units && UnitMatches(u, t) && ShowUnit(u) !in shown ==>
                  LexLeq(shown[i].name, u.name))
            && |shown| == Limited(|UnitHits(units, t)|)
  {
    var top := TopK(UnitHits(units, t), SEARCH_LIMIT, ByKey(UnitName));
    var shown := ShowUnits(top);
    UnitHitsTop(units, t);
    forall i | 0 <= i < |shown|
      ensures top[i] in units && UnitMatches(top[i], t) && shown[i] == ShowUnit(top[i])
    {
      assert top[i] in top;
    }
    forall i, j | 0 <= i < j < |shown|
      ensures LexLeq(shown[i].name, shown[j].name)
    {
      assert ByKey(UnitName)(top[i], top[j]);
      assert UnitName(top[i]) == shown[i].name && UnitName(top[j]) == shown[j].name;
    }
    forall i, u | 0 <= i < |shown| && u in units && UnitMatches(u, t) && ShowUnit(u) !in shown
      ensures LexLeq(shown[i].name, u.name)
    {
      ShowsEachUnit(top);
      assert u !in top;
      assert top[i] in top;
      assert ByKey(UnitName)(top[i], u);
      assert UnitName(top[i]) == shown[i].name && UnitName(u) == u.name;
    }
  }

  /** The cells returned are the first ten matching cells in table order (the
      model declares no ordering), or all of them. */
  lemma {:induction false} AjaxSearchCells(q: string, members: seq<Member>, assemblies: seq<Assembly>, units: seq<Unit>,
                                           cells: seq<Cell>)
    requires Strip(q) != ""
    ensures var r := AjaxSearch(q, members, assemblies, units, cells);
            && (forall c :: c in r.cells ==> c in cells && IContains(c.name, Strip(q)))
            && |r.cells| == Limited(|CellHits(cells, Strip(q))|)
            && r.cells == CellHits(cells, Strip(q))[..|r.cells|]
  {
    var hits := CellHits(cells, Strip(q));
    if |hits| > SEARCH_LIMIT {
      forall c | c in hits[..SEARCH_LIMIT]
        ensures c in hits
      {
        var k :| 0 <= k < SEARCH_LIMIT && hits[..SEARCH_LIMIT][k] == c;
        assert hits[k] == c;
      }
    }
  }
}
