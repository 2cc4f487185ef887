/** The store the application writes to, and the save-time provisioning of
    `Admin` in core/models.py: `create_user_account` (with its username
    uniqueness loop), `confirm_cell_membership` and `save`. */
module Provisioning {
  import opened Common
  import opened Models

  /** The username loop of `create_user_account`: starting from `original`,
      try `original + "1"`, `original + "2"`, ... while the name is taken. */
  method GenerateUsername(original: string, taken: set<string>) returns (username: string)
    ensures username !in taken
    ensures IsFirstFreeCandidate(original, taken, username)
  {
    username := original;
    var counter: nat := 1;
    while username in taken
      invariant username == Candidate(original, counter - 1)
      invariant forall j: nat :: j < counter - 1 ==> Candidate(original, j) in taken
      invariant counter - 1 <= |taken|
      decreases |taken| - (counter - 1)
    {
      TakenCandidatesBound(original, taken, counter);
      username := original + NatToString(counter);
      counter := counter + 1;
    }
    assert username == Candidate(original, counter - 1);
  }

  /** The first `k` candidates. */
  ghost function Candidates(original: string, k: nat): set<string> {
    if k == 0 then {} else Candidates(original, k - 1) + {Candidate(original, k - 1)}
  }

  /** The first `k` candidates are `k` different names. */
  lemma {:induction false} CandidatesCount(original: string, k: nat)
    ensures |Candidates(original, k)| == k
    ensures forall u :: u in Candidates(original, k) ==> CandidateIndex(original, u) < k
  {
    if k > 0 {
      var earlier := Candidates(original, k - 1);
      var c := Candidate(original, k - 1);
      CandidatesCount(original, k - 1);
      CandidateIndexInverts(original, k - 1);
      assert c !in earlier;
      assert Candidates(original, k) == earlier + {c};
      forall u | u in Candidates(original, k)
        ensures CandidateIndex(original, u) < k
      {
        if u != c {
          assert u in earlier;
        }
      }
    }
  }

  lemma {:induction false} CandidatesTaken(original: string, taken: set<string>, k: nat)
    requires forall j: nat :: j < k ==> Candidate(original, j) in taken
    ensures Candidates(original, k) <= taken
  {
    if k > 0 {
      CandidatesTaken(original, taken, k - 1);
    }
  }

  /** The username loop turns at most once per taken name: when the first
      `k` candidates are all taken, there are at least `k` taken names. */
  lemma {:induction false} TakenCandidatesBound(original: string, taken: set<string>, k: nat)
    requires forall j: nat :: j < k ==> Candidate(original, j) in taken
    ensures k <= |taken|
  {
    var c := Candidates(original, k);
    CandidatesCount(original, k);
    CandidatesTaken(original, taken, k);
    assert taken == c + (taken - c);
  }

  /** The account `create_user` builds for an admin's member: the email is
      normalised, the password defaults to the first name + "sepcam". */
  function AccountFor(id: nat, username: string, password: Option<string>, m: Member): (u: User)
    ensures u.id == id && u.username == username
    ensures u.email == NormalizeEmail(m.email)
    ensures u.firstName == m.firstName && u.lastName == m.lastName
    ensures password.Some? && password.value != "" ==> u.password == password.value
    ensures password.None? || password.value == "" ==> u.password == m.firstName + "sepcam"
  {
    User(id, username, NormalizeEmail(m.email),
         if password.Some? && password.value != "" then password.value else m.firstName + "sepcam",
         m.firstName, m.lastName)
  }

  /** An admin row stored under key `k` refers to existing member and user rows. */
  predicate AdminRowOk(k: nat, a: Admin, memberCount: nat, userCount: nat) {
    a.id == k && a.member < memberCount && (a.userAccount.Some? ==> a.userAccount.value < userCount)
  }

  /** `Admin.member` is a one-to-one field: no two admin rows belong to the same member. */
  predicate OneProfilePerMember(admins: map<nat, Admin>) {
    forall i, j :: i in admins && j in admins && admins[i].member == admins[j].member ==> i == j
  }

  /** `Admin.user_account` is a one-to-one field too: no two admin rows hold the same user. */
  predicate OneAdminPerAccount(admins: map<nat, Admin>) {
    forall i, j :: i in admins && j in admins && admins[i].userAccount.Some? && admins[i].userAccount == admins[j].userAccount
                   ==> i == j
  }

  /** Storing row `id` with `account` keeps that field: no other row holds the user. */
  predicate AccountFreeFor(admins: map<nat, Admin>, account: Option<nat>, id: nat) {
    account.Some? ==> forall k :: k in admins && admins[k].userAccount == account ==> k == id
  }

  /** Storing row `id` for `member` keeps the one-to-one field: no other row belongs to the member. */
  predicate ProfileFreeFor(admins: map<nat, Admin>, member: nat, id: nat) {
    forall k :: k in admins && admins[k].member == member ==> k == id
  }

  /** The admin table refers to existing rows and has one row per member. */
  predicate AdminsOk(admins: map<nat, Admin>, memberCount: nat, userCount: nat) {
    && (forall k :: k in admins ==> AdminRowOk(k, admins[k], memberCount, userCount))
    && OneProfilePerMember(admins)
    && OneAdminPerAccount(admins)
  }

  /** Storing a row whose member no other row has keeps one profile per member. */
  lemma {:induction false} StoreKeepsOneProfile(admins: map<nat, Admin>, a: Admin)
    requires OneProfilePerMember(admins) && ProfileFreeFor(admins, a.member, a.id)
    ensures OneProfilePerMember(admins[a.id := a])
  {
  }

  /** Storing a row whose user no other row holds keeps one admin per account. */
  lemma {:induction false} StoreKeepsOneAccount(admins: map<nat, Admin>, a: Admin)
    requires OneAdminPerAccount(admins) && AccountFreeFor(admins, a.userAccount, a.id)
    ensures OneAdminPerAccount(admins[a.id := a])
  {
  }

  /** Linking a new user (the next id) to a stored admin row keeps the admin table sound. */
  lemma {:induction false} LinkKeepsAdminsOk(admins: map<nat, Admin>, memberCount: nat, userCount: nat, aid: nat)
    requires AdminsOk(admins, memberCount, userCount) && aid in admins
    ensures AdminsOk(admins[aid := admins[aid].(userAccount := Some(userCount))], memberCount, userCount + 1)
  {
    var a := admins[aid].(userAccount := Some(userCount));
    assert ProfileFreeFor(admins, a.member, a.id);
    StoreKeepsOneProfile(admins, a);
    assert forall k :: k in admins ==> AdminRowOk(k, admins[k], memberCount, userCount);
    assert AccountFreeFor(admins, a.userAccount, a.id);
    StoreKeepsOneAccount(admins, a);
  }

  /** The tables of the application. Every table is a sequence whose index is
      the row's id; admins are keyed by id. */
  class Database {
    var users: seq<User>
    var members: seq<Member>
    var admins: map<nat, Admin>
    var units: seq<Unit>
    var cells: seq<Cell>
    var families: seq<Family>
    /** Ids of the users holding an API token. */
    var tokens: set<nat>

    ghost predicate Valid()
      reads this
    {
      && (forall i :: 0 <= i < |users| ==> users[i].id == i)
      && (forall i :: 0 <= i < |members| ==> members[i].id == i)
      && (forall i :: 0 <= i < |units| ==> units[i].id == i)
      && (forall i :: 0 <= i < |cells| ==> cells[i].id == i)
      && (forall i :: 0 <= i < |families| ==> families[i].id == i)
      && AdminsOk(admins, |members|, |users|)
    }

    function Usernames(): set<string>
      reads this
    {
      UsernamesOf(users)
    }

    constructor ()
      ensures Valid()
      ensures users == [] && members == [] && admins == map[]
      ensures units == [] && cells == [] && families == [] && tokens == {}
    {
      users := [];
      members := [];
      admins := map[];
      units := [];
      cells := [];
      families := [];
      tokens := {};
    }

    /** `Admin.confirm_cell_membership`: the admin's member is put in the
        admin's cell (cleared when the admin has none); it is written only
        when it differed. Returns the member's cell. */
    method ConfirmCellMembership(aid: nat) returns (cell: Option<nat>)
      requires Valid() && aid in admins
      modifies this
      ensures Valid()
      ensures cell == old(admins[aid].cell)
      ensures members == old(members)[old(admins[aid].member) := old(members[admins[aid].member]).(cell := cell)]
      ensures old(members[admins[aid].member].cell) == cell ==> members == old(members)
      ensures users == old(users) && admins == old(admins) && tokens == old(tokens)
      ensures units == old(units) && cells == old(cells) && families == old(families)
    {
      var a := admins[aid];
      if members[a.member].cell != a.cell {
        members := members[a.member := members[a.member].(cell := a.cell)];
      }
      cell := members[a.member].cell;
    }

    /** The second half of `create_user_account`: insert the account, link it
        to the admin, and run the nested `save`, which (the account now being
        set) only confirms the cell membership. */
    method LinkNewAccount(aid: nat, name: string, password: Option<string>) returns (id: nat)
      requires Valid() && aid in admins && admins[aid].userAccount.None?
      modifies this
      ensures Valid()
      ensures id == |old(users)|
      ensures users == old(users) + [AccountFor(id, name, password, old(members[admins[aid].member]))]
      ensures admins == old(admins)[aid := old(admins[aid]).(userAccount := Some(id))]
      ensures members == old(members)[old(admins[aid].member) :=
                                      old(members[admins[aid].member]).(cell := old(admins[aid].cell))]
      ensures tokens == old(tokens) && units == old(units) && cells == old(cells) && families == old(families)
    {
      id := InsertAccount(aid, name, password);
      var _ := ConfirmCellMembership(aid);
    }

    /** Insert the account built for the admin's member as the next user and
        link it to the admin. */
    method InsertAccount(aid: nat, name: string, password: Option<string>) returns (id: nat)
      requires Valid() && aid in admins
      modifies this
      ensures Valid()
      ensures id == |old(users)|
      ensures members == old(members) && tokens == old(tokens)
      ensures users == old(users) + [AccountFor(id, name, password, members[old(admins[aid]).member])]
      ensures admins == old(admins)[aid := old(admins[aid]).(userAccount := Some(id))]
      ensures units == old(units) && cells == old(cells) && families == old(families)
    {
      var a := admins[aid];
      id := |users|;
      LinkKeepsAdminsOk(admins, |members|, id, aid);
      users := users + [AccountFor(id, name, password, members[a.member])];
      admins := admins[aid := a.(userAccount := Some(id))];
      assert AdminsOk(admins, |members|, |users|);
      assert forall i :: 0 <= i < |users| ==> users[i].id == i;
    }

    /** `Admin.create_user_account`. An admin that already has an account gets
        it back and nothing changes. Otherwise a user is created (with the
        username given, or the first free `first.last` candidate), linked to
        the admin, and the admin's nested `save` confirms the cell membership.
        An explicit username already in use is the integrity error `Err`. */
    method CreateUserAccount(aid: nat, username: Option<string>, password: Option<string>)
      returns (r: Result<nat, string>)
      requires Valid() && aid in admins
      modifies this
      ensures Valid()
      ensures tokens == old(tokens) && units == old(units) && cells == old(cells) && families == old(families)
      ensures old(admins[aid].userAccount).Some? ==>
                r == Ok(old(admins[aid].userAccount).value)
                && users == old(users) && members == old(members) && admins == old(admins)
      ensures r.Err? <==> old(admins[aid].userAccount).None? && username.Some? && username.value != ""
                          && username.value in old(Usernames())
      ensures r.Err? ==> users == old(users) && members == old(members) && admins == old(admins)
      ensures r.Ok? && old(admins[aid].userAccount).None? ==>
                var a := old(admins[aid]);
                var m := old(members[admins[aid].member]);
                && r.value == |old(users)| && |users| == r.value + 1
                && users == old(users) + [AccountFor(r.value, users[r.value].username, password, m)]
                && admins == old(admins)[aid := a.(userAccount := Some(r.value))]
                && members == old(members)[a.member := m.(cell := a.cell)]
      ensures r.Ok? && old(admins[aid].userAccount).None? ==>
                var m := old(members[admins[aid].member]);
                && r.value < |users|
                && users[r.value].username !in old(Usernames())
                && (username.Some? && username.value != "" ==> users[r.value].username == username.value)
                && (username.None? || username.value == "" ==>
                      IsFirstFreeCandidate(BaseUsername(m.firstName, m.lastName), old(Usernames()),
                                           users[r.value].username))
    {
      var a := admins[aid];
      if a.userAccount.Some? {
        return Ok(a.userAccount.value);
      }
      var m := members[a.member];
      var name: string;
      if username.None? || username.value == "" {
        name := GenerateUsername(BaseUsername(m.firstName, m.lastName), Usernames());
      } else {
        name := username.value;
        if name in Usernames() {
          return Err("UNIQUE constraint failed: auth_user.username");
        }
      }
      var id := LinkNewAccount(aid, name, password);
      r := Ok(id);
    }

    /** `Admin.save` on a row already stored: create the account if it has
        none, then confirm the cell membership. */
    method Provision(aid: nat)
      requires Valid() && aid in admins
      modifies this
      ensures Valid()
      ensures aid in admins && admins[aid].userAccount.Some?
      ensures Provisioned(aid, old(users), old(members), old(admins), users, members, admins)
      ensures tokens == old(tokens) && units == old(units) && cells == old(cells) && families == old(families)
    {
      var r := CreateUserAccount(aid, None, None);
      var _ := ConfirmCellMembership(aid);
    }

    /** `Admin.save`: store the row, create the account if it has none, and
        confirm the cell membership. Saving again creates no second account.
        A row whose member or user already belongs to another admin row is
        refused by the one-to-one constraints before anything is written;
        callers check it. */
    method SaveAdmin(a: Admin)
      requires Valid() && a.member < |members|
      requires a.userAccount.Some? ==> a.userAccount.value < |users|
      requires ProfileFreeFor(admins, a.member, a.id)
      requires AccountFreeFor(admins, a.userAccount, a.id)
      modifies this
      ensures Valid()
      ensures a.id in admins && admins[a.id].userAccount.Some?
      ensures Provisioned(a.id, old(users), old(members), old(admins)[a.id := a], users, members, admins)
      ensures tokens == old(tokens) && units == old(units) && cells == old(cells) && families == old(families)
    {
      StoreKeepsOneProfile(admins, a);
      StoreKeepsOneAccount(admins, a);
      admins := admins[a.id := a];
      assert Valid();
      Provision(a.id);
    }
  }

  function UsernamesOf(users: seq<User>): set<string> {
    set u | u in users :: u.username
  }

  /** The tables after `save` of the stored admin row `aid`, from the tables
      before it: the member joins the admin's cell; an admin without an account
      gets exactly one new user, named by the first free `first.last` candidate
      and linked to the admin; an admin with one changes nothing else. */
  ghost predicate Provisioned(aid: nat, users0: seq<User>, members0: seq<Member>, admins0: map<nat, Admin>,
                              users1: seq<User>, members1: seq<Member>, admins1: map<nat, Admin>)
  {
    && aid in admins0 && admins0[aid].member < |members0|
    && var a := admins0[aid];
       var m := members0[a.member];
       && members1 == members0[a.member := m.(cell := a.cell)]
       && (a.userAccount.Some? ==> users1 == users0 && admins1 == admins0)
       && (a.userAccount.None? ==>
             && |users1| == |users0| + 1
             && users1 == users0 + [AccountFor(|users0|, users1[|users0|].username, None, m)]
             && IsFirstFreeCandidate(BaseUsername(m.firstName, m.lastName), UsernamesOf(users0),
                                     users1[|users0|].username)
             && admins1 == admins0[aid := a.(userAccount := Some(|users0|))])
  }

  /** Saving an admin twice leaves exactly one account: the second save finds
      the account the first one linked and creates nothing. */
  method SaveTwiceCreatesOneAccount(db: Database, a: Admin)
    requires db.Valid() && a.member < |db.members| && a.userAccount.None?
    requires ProfileFreeFor(db.admins, a.member, a.id)
    modifies db
    ensures a.id in db.admins
    ensures |db.users| == |old(db.users)| + 1
    ensures db.admins[a.id].userAccount == Some(|old(db.users)|)
  {
    db.SaveAdmin(a);
    var saved := db.admins[a.id];
    db.SaveAdmin(saved);
  }
}
