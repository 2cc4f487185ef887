/** The admin-management views of core/adminviews.py: the superadmin gate of
    `SuperAdminRequiredMixin.dispatch` and of the function views, the
    same-assembly lookups, the admin list, the detail-page permission, and
    the create, update, change-level and delete steps. `SuperAdminCreationForm`
    and `SuperAdminUpdateForm` are not part of the repository's sources: a
    valid one is the submitted `AdminFields`. */
module AdminViews {
  import opened Common
  import opened Models
  import opened Sorting
  import opened Provisioning
  import opened AdminForms

  /** Where a request ends. `ToDashboard` is the redirect to the URL named
      "dashboard", `ToAdminDashboard` the one to "admin_dashboard".
      `ToAdminList(false)` is the redirect with an error message that the
      views' `except Exception` clauses produce. */
  datatype Page = ToLogin | ToDashboard | ToAdminDashboard | ToAdminList(ok: bool) | Rendered | NotFound

  /** The fields the admin forms edit. */
  datatype AdminFields = AdminFields(member: nat, assembly: nat, level: string, cell: Option<nat>)

  /** The request's user is a superadmin: it has an admin profile whose level is SUPERADMIN. */
  predicate ActsAsSuperadmin(actor: Option<Admin>) {
    actor.Some? && IsSuperadmin(actor.value)
  }

  /** `SuperAdminRequiredMixin.dispatch`: `None` lets the view run. */
  function Dispatch(authenticated: bool, actor: Option<Admin>): (r: Option<Page>)
    ensures r.None? <==> authenticated && ActsAsSuperadmin(actor)
    ensures !authenticated ==> r == Some(ToLogin)
    ensures authenticated && !ActsAsSuperadmin(actor) ==> r == Some(ToDashboard)
  {
    if !authenticated then Some(ToLogin)
    else if !ActsAsSuperadmin(actor) then Some(ToDashboard)
    else None
  }

  /** `get_object_or_404(Admin, pk=pk, assembly=actor.assembly)` finds a row. */
  predicate InActorsAssembly(admins: map<nat, Admin>, pk: nat, actor: Admin) {
    pk in admins && admins[pk].assembly == actor.assembly
  }

  // ---------------------------------------------------------------------------
  // AdminListView.get_queryset
  // ---------------------------------------------------------------------------

  /** The GET parameters of the list: "" stands for an absent one. */
  datatype AdminQuery = AdminQuery(level: string, search: string, cell: string)

  /** The admin's member's first and last name; a dangling member id has none. */
  function MemberNames(members: seq<Member>): Admin -> (string, string) {
    (a: Admin) => if a.member < |members| then (members[a.member].firstName, members[a.member].lastName) else ("", "")
  }

  predicate AdminSearchMatches(members: seq<Member>, a: Admin, text: string) {
    a.member < |members|
    && (IContains(members[a.member].firstName, text) || IContains(members[a.member].lastName, text)
        || IContains(members[a.member].email, text))
  }

  /** One listed admin, pointwise: of the actor's assembly and passing each given filter. */
  predicate AdminListed(actor: Admin, members: seq<Member>, q: AdminQuery, cell: Option<int>, a: Admin) {
    && a.assembly == actor.assembly
    && (q.level != "" ==> a.level == q.level)
    && (q.search != "" ==> AdminSearchMatches(members, a, q.search))
    && (cell.Some? ==> a.cell.Some? && a.cell.value == cell.value)
  }

  /** The successive filters of `get_queryset`: assembly, level, search, cell. */
  function AdminMatches(actor: Admin, rows: seq<Admin>, members: seq<Member>, q: AdminQuery, cell: Option<int>): (r: seq<Admin>)
    ensures forall a :: a in r <==> a in rows && AdminListed(actor, members, q, cell, a)
  {
    var s0 := Where(rows, (a: Admin) => a.assembly == actor.assembly);
    var s1 := if q.level != "" then Where(s0, (a: Admin) => a.level == q.level) else s0;
    var s2 := if q.search != "" then Where(s1, (a: Admin) => AdminSearchMatches(members, a, q.search)) else s1;
    if cell.Some? then Where(s2, (a: Admin) => a.cell.Some? && a.cell.value == cell.value) else s2
  }

  /** `AdminListView.get_queryset` over the admin rows: `None` when the cell
      parameter is not an integer (the query raises). */
  function AdminList(actor: Admin, rows: seq<Admin>, members: seq<Member>, q: AdminQuery): Option<seq<Admin>> {
    var cell := if q.cell == "" then Some(None) else if PyInt(q.cell).Some? then Some(PyInt(q.cell)) else None;
    if cell.None? then None
    else Some(Sort(AdminMatches(actor, rows, members, q, cell.value), ByPairKey(MemberNames(members))))
  }

  /** The list holds exactly the admins of the actor's assembly that pass the
      given filters, ordered by their member's first name, then last name. */
  lemma {:induction false} AdminListSelects(actor: Admin, rows: seq<Admin>, members: seq<Member>, q: AdminQuery)
    ensures AdminList(actor, rows, members, q).None? <==> q.cell != "" && PyInt(q.cell).None?
    ensures var r := AdminList(actor, rows, members, q);
            var cell := if q.cell == "" then None else PyInt(q.cell);
            r.Some? ==>
              && SortedBy(r.value, ByPairKey(MemberNames(members)))
              && forall a :: a in r.value <==> a in rows && AdminListed(actor, members, q, cell, a)
  {
    var cell := if q.cell == "" then None else PyInt(q.cell);
    if q.cell == "" || PyInt(q.cell).Some? {
      ByPairKeyIsTotalPreorder(MemberNames(members));
      SortedMatches(AdminMatches(actor, rows, members, q, cell), ByPairKey(MemberNames(members)));
    }
  }

  /** Sorting keeps exactly the admins it is given. */
  lemma {:induction false} SortedMatches(s: seq<Admin>, leq: (Admin, Admin) -> bool)
    requires TotalPreorder(leq)
    ensures SortedBy(Sort(s, leq), leq)
    ensures forall a :: a in Sort(s, leq) <==> a in s
  {
    SortSorted(s, leq);
    assert forall a :: a in Sort(s, leq) <==> a in multiset(Sort(s, leq));
    assert forall a :: a in s <==> a in multiset(s);
  }

  // ---------------------------------------------------------------------------
  // admin_detail
  // ---------------------------------------------------------------------------

  /** `admin_detail`: a missing row is 404; the page is shown to the admin
      itself or to a superadmin, everyone else goes to the admin dashboard. */
  function AdminDetail(authenticated: bool, actor: Option<Admin>, admins: map<nat, Admin>, pk: nat): (r: Page)
    ensures !authenticated ==> r == ToLogin
    ensures authenticated && pk !in admins ==> r == NotFound
    ensures authenticated && pk in admins ==>
              (r == Rendered <==> actor.Some? && (actor.value.id == pk || IsSuperadmin(actor.value)))
    ensures r in {ToLogin, NotFound, Rendered, ToAdminDashboard}
  {
    if !authenticated then ToLogin
    else if pk !in admins then NotFound
    else if actor.None? || (actor.value.id != pk && !IsSuperadmin(actor.value)) then ToAdminDashboard
    else Rendered
  }

  // ---------------------------------------------------------------------------
  // The editing views
  // ---------------------------------------------------------------------------

  /** The admin row `fields` give, over an existing row: the account is kept. */
  function WithFields(a: Admin, f: AdminFields): Admin {
    a.(member := f.member, assembly := f.assembly, level := f.level, cell := f.cell)
  }

  /** A new admin row from the creation form. */
  function NewAdmin(id: nat, f: AdminFields): Admin {
    Admin(id, f.member, f.assembly, f.level, f.cell, None, "", false, false, false, false)
  }

  /** The gate shared by the editing views: logged in and a superadmin.
      Unlike the class views' `dispatch`, it sends a refused user to the
      admin dashboard. */
  function EditGate(authenticated: bool, actor: Option<Admin>): (r: Option<Page>)
    ensures r.None? <==> authenticated && ActsAsSuperadmin(actor)
    ensures !authenticated ==> r == Some(ToLogin)
    ensures authenticated && !ActsAsSuperadmin(actor) ==> r == Some(ToAdminDashboard)
  {
    if !authenticated then Some(ToLogin)
    else if !ActsAsSuperadmin(actor) then Some(ToAdminDashboard)
    else None
  }

  /** `admin_create`: a superadmin's valid POST saves the new admin (and with
      it, by `Admin.save`, its user account and cell membership); a GET or an
      invalid form renders the form. A member that already has an admin row
      makes the insert fail on the one-to-one field, which the view's
      `except` turns into the error redirect. `id` is the key the database
      assigns. */
  method AdminCreate(db: Database, authenticated: bool, actor: Option<Admin>, post: bool,
                     form: Result<AdminFields, string>, id: nat) returns (page: Page)
    requires db.Valid() && id !in db.admins
    requires form.Ok? ==> form.value.member < |db.members|
    modifies db
    ensures db.Valid()
    ensures EditGate(authenticated, actor).Some? ==> page == EditGate(authenticated, actor).value
    ensures page != ToAdminList(true) ==>
              db.admins == old(db.admins) && db.users == old(db.users) && db.members == old(db.members)
    ensures page == ToAdminList(true) <==>
              authenticated && ActsAsSuperadmin(actor) && post && form.Ok?
              && !HasAdminProfile(old(db.admins), form.value.member)
    ensures (authenticated && ActsAsSuperadmin(actor) && post && form.Ok?
             && HasAdminProfile(old(db.admins), form.value.member)) ==> page == ToAdminList(false)
    ensures page == ToAdminList(true) ==>
              Provisioned(id, old(db.users), old(db.members), old(db.admins)[id := NewAdmin(id, form.value)],
                          db.users, db.members, db.admins)
    ensures db.tokens == old(db.tokens) && db.units == old(db.units) && db.cells == old(db.cells)
    ensures db.families == old(db.families)
  {
    var gate := EditGate(authenticated, actor);
    if gate.Some? {
      return gate.value;
    }
    if !post || form.Err? {
      return Rendered;
    }
    if HasAdminProfile(db.admins, form.value.member) {
      return ToAdminList(false);
    }
    db.SaveAdmin(NewAdmin(id, form.value));
    page := ToAdminList(true);
  }

  /** `admin_update`: only an admin of the superadmin's own assembly is
      found (otherwise the error redirect); a valid POST writes the fields
      and saves the row, a GET or an invalid form renders it. Moving the row
      to a member that another admin row belongs to fails on the one-to-one
      field: the error redirect. */
  method AdminUpdate(db: Database, authenticated: bool, actor: Option<Admin>, pk: nat, post: bool,
                     form: Result<AdminFields, string>) returns (page: Page)
    requires db.Valid()
    requires form.Ok? ==> form.value.member < |db.members|
    modifies db
    ensures db.Valid()
    ensures EditGate(authenticated, actor).Some? ==> page == EditGate(authenticated, actor).value
    ensures authenticated && ActsAsSuperadmin(actor) && !InActorsAssembly(old(db.admins), pk, actor.value) ==>
              page == ToAdminList(false)
    ensures page != ToAdminList(true) ==>
              db.admins == old(db.admins) && db.users == old(db.users) && db.members == old(db.members)
    ensures page == ToAdminList(true) <==>
              authenticated && ActsAsSuperadmin(actor) && InActorsAssembly(old(db.admins), pk, actor.value)
              && post && form.Ok? && ProfileFreeFor(old(db.admins), form.value.member, pk)
    ensures (authenticated && ActsAsSuperadmin(actor) && InActorsAssembly(old(db.admins), pk, actor.value)
             && post && form.Ok? && !ProfileFreeFor(old(db.admins), form.value.member, pk)) ==>
              page == ToAdminList(false)
    ensures page == ToAdminList(true) ==>
              Provisioned(pk, old(db.users), old(db.members), old(db.admins)[pk := WithFields(old(db.admins[pk]), form.value)],
                          db.users, db.members, db.admins)
    ensures db.tokens == old(db.tokens) && db.units == old(db.units) && db.cells == old(db.cells)
    ensures db.families == old(db.families)
  {
    var gate := EditGate(authenticated, actor);
    if gate.Some? {
      return gate.value;
    }
    if !InActorsAssembly(db.admins, pk, actor.value) {
      return ToAdminList(false);
    }
    if !post || form.Err? {
      return Rendered;
    }
    if !ProfileFreeFor(db.admins, form.value.member, pk) {
      return ToAdminList(false);
    }
    db.SaveAdmin(WithFields(db.admins[pk], form.value));
    page := ToAdminList(true);
  }

  /** `admin_change_level` as written: after the gate and the lookup, building
      `AdminLevelChangeForm(..., current_user=...)` raises a TypeError (its
      `__init__` passes the keyword on to `ModelForm.__init__`, which takes
      no such argument), on GET and POST alike, so the view always ends in
      the error redirect and never changes a level. */
  method AdminChangeLevelAsWritten(db: Database, authenticated: bool, actor: Option<Admin>, pk: nat, post: bool,
                                   level: string, cell: Option<nat>) returns (page: Page)
    requires db.Valid()
    modifies db
    ensures db.Valid()
    ensures EditGate(authenticated, actor).Some? ==> page == EditGate(authenticated, actor).value
    ensures EditGate(authenticated, actor).None? ==> page == ToAdminList(false)
    ensures db.admins == old(db.admins) && db.users == old(db.users) && db.members == old(db.members)
    ensures db.tokens == old(db.tokens) && db.units == old(db.units) && db.cells == old(db.cells)
    ensures db.families == old(db.families)
  {
    var gate := EditGate(authenticated, actor);
    if gate.Some? {
      return gate.value;
    }
    if !InActorsAssembly(db.admins, pk, actor.value) {
      return ToAdminList(false);
    }
    page := ToAdminList(false);
  }

  /** `admin_change_level` with the keyword dropped, as `AdminForm` does: a
      POST the bound form accepts (a level of `ADMIN_TYPE_CHOICES`, a stored
      cell if any, and a cell for a Cell admin) sets the level and cell of an
      admin of the superadmin's assembly and saves the row. */
  method AdminChangeLevel(db: Database, authenticated: bool, actor: Option<Admin>, pk: nat, post: bool,
                          level: string, cell: Option<nat>) returns (page: Page)
    requires db.Valid()
    modifies db
    ensures db.Valid()
    ensures EditGate(authenticated, actor).Some? ==> page == EditGate(authenticated, actor).value
    ensures authenticated && ActsAsSuperadmin(actor) && !InActorsAssembly(old(db.admins), pk, actor.value) ==>
              page == ToAdminList(false)
    ensures page != ToAdminList(true) ==>
              db.admins == old(db.admins) && db.users == old(db.users) && db.members == old(db.members)
    ensures page == ToAdminList(true) <==>
              authenticated && ActsAsSuperadmin(actor) && InActorsAssembly(old(db.admins), pk, actor.value)
              && post && LevelChangeForm(level, cell, |old(db.cells)|).Ok?
    ensures page == ToAdminList(true) ==>
              Provisioned(pk, old(db.users), old(db.members),
                          old(db.admins)[pk := old(db.admins[pk]).(level := level, cell := cell)],
                          db.users, db.members, db.admins)
    ensures page == ToAdminList(true) ==> pk in db.admins && db.admins[pk].level == level && db.admins[pk].cell == cell
    ensures db.tokens == old(db.tokens) && db.units == old(db.units) && db.cells == old(db.cells)
    ensures db.families == old(db.families)
  {
    var gate := EditGate(authenticated, actor);
    if gate.Some? {
      return gate.value;
    }
    if !InActorsAssembly(db.admins, pk, actor.value) {
      return ToAdminList(false);
    }
    if !post || LevelChangeForm(level, cell, |db.cells|).Err? {
      return Rendered;
    }
    db.SaveAdmin(db.admins[pk].(level := level, cell := cell));
    page := ToAdminList(true);
  }

  /** `admin_delete`: a superadmin's POST deletes an admin of the same
      assembly; a GET renders the confirmation and deletes nothing. */
  method AdminDelete(db: Database, authenticated: bool, actor: Option<Admin>, pk: nat, post: bool)
    returns (page: Page)
    requires db.Valid()
    modifies db
    ensures db.Valid()
    ensures EditGate(authenticated, actor).Some? ==> page == EditGate(authenticated, actor).value
    ensures page == ToAdminList(true) <==>
              authenticated && ActsAsSuperadmin(actor) && InActorsAssembly(old(db.admins), pk, actor.value) && post
    ensures page == ToAdminList(true) ==> db.admins == old(db.admins) - {pk}
    ensures page != ToAdminList(true) ==> db.admins == old(db.admins)
    ensures !post ==> db.admins == old(db.admins)
    ensures db.users == old(db.users) && db.members == old(db.members) && db.tokens == old(db.tokens)
    ensures db.units == old(db.units) && db.cells == old(db.cells) && db.families == old(db.families)
  {
    var gate := EditGate(authenticated, actor);
    if gate.Some? {
      return gate.value;
    }
    if !InActorsAssembly(db.admins, pk, actor.value) {
      return ToAdminList(false);
    }
    if !post {
      return Rendered;
    }
    db.admins := db.admins - {pk};
    page := ToAdminList(true);
  }

  /** The level change as written never applies, even to a request the
      corrected view carries out: a superadmin's valid POST for an admin of
      its own assembly. */
  method LevelChangeNeverApplies(db: Database, actor: Admin, pk: nat, level: string, cell: Option<nat>)
    returns (asWritten: Page, corrected: Page)
    requires db.Valid() && IsSuperadmin(actor) && InActorsAssembly(db.admins, pk, actor)
    requires LevelChangeForm(level, cell, |db.cells|).Ok?
    modifies db
    ensures asWritten == ToAdminList(false) && corrected == ToAdminList(true)
    ensures pk in db.admins && db.admins[pk].level == level
  {
    asWritten := AdminChangeLevelAsWritten(db, true, Some(actor), pk, true, level, cell);
    corrected := AdminChangeLevel(db, true, Some(actor), pk, true, level, cell);
  }
}
