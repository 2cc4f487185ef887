/** The records of core/models.py and the pure rules attached to them: the
    admin-level predicates, the member-visibility filter and its pointwise
    form, the permission table and the age computation. */
module Models {
  import opened Common
  import opened Sorting

  // ---------------------------------------------------------------------------
  // Choice constants
  // ---------------------------------------------------------------------------

  const SUPERADMIN: string := "SUPERADMIN"
  const CELL_LEVEL: string := "Cell"
  const MODERATOR: string := "MODERATOR"

  /** `Admin.ADMIN_TYPE_CHOICES` as (value, label) pairs, in declaration order. */
  const ADMIN_TYPE_CHOICES: seq<(string, string)> :=
    [(SUPERADMIN, "Super Admin"), (CELL_LEVEL, "Cell"), (MODERATOR, "Moderator")]

  const ACTIVE: string := "ACTIVE"
  const NEW_MEMBER: string := "NEW_MEMBER"

  // ---------------------------------------------------------------------------
  // Records
  // ---------------------------------------------------------------------------

  /** A `Member` row. Foreign keys are ids; nullable ones are options. The
      photo and the timestamps are not part of the model. */
  datatype Member = Member(
    id: nat,
    assembly: nat,
    firstName: string,
    lastName: string,
    middleName: string,
    dateOfBirth: Option<Date>,
    gender: string,
    maritalStatus: string,
    family: Option<nat>,
    email: string,
    phone: string,
    address: string,
    emergencyContactName: string,
    emergencyContactPhone: string,
    unit: Option<nat>,
    membershipStatus: string,
    membershipDate: Option<Date>,
    cell: Option<nat>,
    baptismDate: Option<Date>,
    confirmationDate: Option<Date>)

  /** An `Admin` row. `role` and the four `canManage*` flags are read by the
      source but declared nowhere in it; they stand in for those attributes. */
  datatype Admin = Admin(
    id: nat,
    member: nat,
    assembly: nat,
    level: string,
    cell: Option<nat>,
    userAccount: Option<nat>,
    role: string,
    canManageMembers: bool,
    canManageFinances: bool,
    canManageEvents: bool,
    canManageContent: bool)

  /** A `django.contrib.auth` user row; the password is kept as given (hashing is not modelled). */
  datatype User = User(id: nat, username: string, email: string, password: string,
                       firstName: string, lastName: string)

  datatype Unit = Unit(id: nat, name: string, description: string, leader: Option<nat>)

  datatype Cell = Cell(id: nat, name: string, createdAt: Date)

  datatype Assembly = Assembly(id: nat, name: string, city: string, state: string)

  /** The `name` columns, as keys for ordering and lookups. */
  function UnitName(u: Unit): string { u.name }

  function CellName(c: Cell): string { c.name }

  function AssemblyName(a: Assembly): string { a.name }

  datatype Family = Family(id: nat, assembly: nat, familyName: string, address: string,
                           phone: string, email: string)

  /** `Member.Meta.ordering`: by last name, then first name. */
  predicate MemberNameLeq(a: Member, b: Member) {
    PairLeq((a.lastName, a.firstName), (b.lastName, b.firstName))
  }

  lemma {:induction false} MemberNameLeqIsTotalPreorder()
    ensures TotalPreorder(MemberNameLeq)
  {
    PairLeqIsTotalPreorder();
    forall a: Member, b: Member
      ensures MemberNameLeq(a, b) || MemberNameLeq(b, a)
    {
      assert PairLeq((a.lastName, a.firstName), (b.lastName, b.firstName))
             || PairLeq((b.lastName, b.firstName), (a.lastName, a.firstName));
    }
    forall a: Member, b: Member, c: Member | MemberNameLeq(a, b) && MemberNameLeq(b, c)
      ensures MemberNameLeq(a, c)
    {
      var ka, kb, kc := (a.lastName, a.firstName), (b.lastName, b.firstName), (c.lastName, c.firstName);
      assert PairLeq(ka, kb) && PairLeq(kb, kc);
    }
  }

  // ---------------------------------------------------------------------------
  // Admin level predicates
  // ---------------------------------------------------------------------------

  predicate IsSuperadmin(a: Admin) { a.level == SUPERADMIN }
  predicate IsCellAdmin(a: Admin) { a.level == CELL_LEVEL }
  predicate IsModerator(a: Admin) { a.level == MODERATOR }

  /** `Admin.can_access_member`: the pointwise visibility test. */
  predicate CanAccessMember(a: Admin, m: Member) {
    if IsSuperadmin(a) then m.assembly == a.assembly
    else if IsCellAdmin(a) && a.cell.Some? then m.assembly == a.assembly && m.cell == a.cell
    else if IsModerator(a) then m.assembly == a.assembly
    else false
  }

  /** `Admin.get_managed_members`: the members an admin manages, as a query over the member table. */
  function ManagedMembers(a: Admin, all: set<Member>): (r: set<Member>)
    ensures r <= all
    ensures IsSuperadmin(a) || IsModerator(a) ==>
              forall m :: m in r <==> m in all && m.assembly == a.assembly
    ensures IsCellAdmin(a) && a.cell.Some? ==>
              forall m :: m in r <==> m in all && m.assembly == a.assembly && m.cell == a.cell
    ensures !IsSuperadmin(a) && !IsModerator(a) && !(IsCellAdmin(a) && a.cell.Some?) ==> r == {}
  {
    if IsSuperadmin(a) then set m | m in all && m.assembly == a.assembly
    else if IsCellAdmin(a) && a.cell.Some? then
      set m | m in all && m.assembly == a.assembly && m.cell == a.cell
    else if IsModerator(a) then set m | m in all && m.assembly == a.assembly
    else {}
  }

  /** The query and the pointwise test agree on every member of the table. */
  lemma {:induction false} CanAccessIffManaged(a: Admin, all: set<Member>, m: Member)
    requires m in all
    ensures CanAccessMember(a, m) <==> m in ManagedMembers(a, all)
  {
  }

  /** Fail-closed: a Cell admin without a cell manages nobody, never everybody. */
  lemma {:induction false} CellAdminWithoutCellManagesNobody(a: Admin, all: set<Member>)
    requires IsCellAdmin(a) && a.cell.None?
    ensures ManagedMembers(a, all) == {}
    ensures forall m :: !CanAccessMember(a, m)
  {
  }

  /** The keys of the permission table `has_permission` consults. */
  const PERMISSION_NAMES: set<string> :=
    {"manage_members", "manage_finances", "manage_events", "manage_content",
     "access_all_cells", "manage_users", "system_config"}

  /** `Admin.has_permission`: the permission table keyed by name; unknown names are refused. */
  function HasPermission(a: Admin, permission: string): (r: bool)
    ensures permission == "manage_users" || permission == "system_config" ==> (r <==> IsSuperadmin(a))
    ensures permission == "access_all_cells" ==> (r <==> IsSuperadmin(a) || IsModerator(a))
    ensures permission == "manage_finances" ==>
              (r <==> a.canManageFinances && (IsSuperadmin(a) || IsModerator(a)))
    ensures permission == "manage_content" ==>
              (r <==> a.canManageContent && (IsSuperadmin(a) || IsModerator(a)))
    ensures permission == "manage_members" ==> (r <==> a.canManageMembers)
    ensures permission == "manage_events" ==> (r <==> a.canManageEvents)
    ensures !(permission in PERMISSION_NAMES) ==> !r
  {
    match permission
    case "manage_members" => a.canManageMembers
    case "manage_finances" => a.canManageFinances && (IsSuperadmin(a) || IsModerator(a))
    case "manage_events" => a.canManageEvents
    case "manage_content" => a.canManageContent && (IsSuperadmin(a) || IsModerator(a))
    case "access_all_cells" => IsSuperadmin(a) || IsModerator(a)
    case "manage_users" => IsSuperadmin(a)
    case "system_config" => IsSuperadmin(a)
    case _ => false
  }

  /** Finance and content rights are never granted to a Cell admin, whatever its flags say. */
  lemma {:induction false} CellAdminHasNoFinanceOrContentRights(a: Admin)
    requires IsCellAdmin(a)
    ensures !HasPermission(a, "manage_finances") && !HasPermission(a, "manage_content")
    ensures !HasPermission(a, "access_all_cells") && !HasPermission(a, "system_config")
  {
  }

  // ---------------------------------------------------------------------------
  // Age
  // ---------------------------------------------------------------------------

  /** `Member.age` with today's date passed in: completed years, or None without a birth date. */
  function Age(dateOfBirth: Option<Date>, today: Date): (r: Option<int>)
    ensures r.None? <==> dateOfBirth.None?
  {
    match dateOfBirth
    case None => None
    case Some(d) =>
      var beforeBirthday := today.month < d.month || (today.month == d.month && today.day < d.day);
      Some(today.year - d.year - (if beforeBirthday then 1 else 0))
  }

  /** The age is the number of anniversaries of the birth date that have
      been reached: the n-th has been, the (n+1)-th has not. */
  lemma {:induction false} AgeCountsAnniversaries(d: Date, today: Date)
    ensures var n := Age(Some(d), today).value;
            AtMost(Date(d.year + n, d.month, d.day), today)
            && Before(today, Date(d.year + n + 1, d.month, d.day))
  {
  }

  /** The age never decreases as time passes. */
  lemma {:induction false} AgeMonotone(d: Date, t1: Date, t2: Date)
    requires AtMost(t1, t2)
    ensures Age(Some(d), t1).value <= Age(Some(d), t2).value
  {
  }

  /** On the n-th birthday the age is exactly n. */
  lemma {:induction false} AgeOnBirthday(d: Date, n: int)
    ensures Age(Some(d), Date(d.year + n, d.month, d.day)) == Some(n)
  {
  }

  // ---------------------------------------------------------------------------
  // User names
  // ---------------------------------------------------------------------------

  /** The base username `create_user_account` derives: `first.last`, lower-cased. */
  function BaseUsername(firstName: string, lastName: string): string {
    Lower(firstName) + "." + Lower(lastName)
  }

  /** The k-th username the uniqueness loop tries: the base itself, then base + "1", base + "2", ... */
  function Candidate(original: string, k: nat): (r: string)
    ensures StartsWith(r, original)
    ensures k > 0 ==> |r| > |original|
  {
    if k == 0 then original else original + NatToString(k)
  }

  /** Recovers k from the k-th candidate. */
  function CandidateIndex(original: string, s: string): nat {
    if |s| <= |original| then 0
    else if forall i :: |original| <= i < |s| ==> IsDigit(s[i]) then DigitsValue(s[|original|..])
    else 0
  }

  lemma {:induction false} CandidateIndexInverts(original: string, k: nat)
    ensures CandidateIndex(original, Candidate(original, k)) == k
  {
    if k > 0 {
      var c := Candidate(original, k);
      assert c[|original|..] == NatToString(k);
      NatToStringRoundTrip(k);
    }
  }

  /** `u` is the first candidate not in `taken`: the name the loop must produce. */
  ghost predicate IsFirstFreeCandidate(original: string, taken: set<string>, u: string) {
    exists k: nat :: u == Candidate(original, k) && u !in taken
                     && forall j: nat :: j < k ==> Candidate(original, j) in taken
  }

  /** Django's `BaseUserManager.normalize_email`: when there is an `@`, the
      stripped address with its domain lower-cased; otherwise the input. */
  function NormalizeEmail(email: string): string {
    var s := Strip(email);
    var at := LastIndexOf(s, '@');
    if at < 0 then email else s[..at] + "@" + Lower(s[at + 1..])
  }

  function LastIndexOf(s: string, c: char): (r: int)
    ensures -1 <= r < |s|
    ensures r >= 0 ==> s[r] == c && forall i :: r < i < |s| ==> s[i] != c
    ensures r < 0 ==> forall i :: 0 <= i < |s| ==> s[i] != c
  {
    if s == [] then -1
    else if s[|s| - 1] == c then |s| - 1
    else LastIndexOf(s[..|s| - 1], c)
  }
}
