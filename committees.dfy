/** The committee views of core/commiteeview.py: creating a committee with its
    leader enrolled, adding and removing members, changing a member's role,
    setting the leader, and the members not on a committee. The `Committee`
    and `CommitteeMembership` models are not part of the repository's
    sources; the records below carry only the fields the views use. */
module Committees {
  import opened Common

  datatype Committee = Committee(id: nat, name: string, description: string, leader: Option<nat>)

  datatype Membership = Membership(id: nat, committee: nat, member: nat, role: string)

  /** A JSON reply: its HTTP status and its `success` flag. */
  datatype Reply = Reply(status: nat, success: bool)

  const OK: Reply := Reply(200, true)
  const BAD_REQUEST: Reply := Reply(400, false)
  const NOT_FOUND: Reply := Reply(404, false)
  /** `require_http_methods(["POST"])` on another method. */
  const NOT_ALLOWED: Reply := Reply(405, false)
  /** An exception the view does not catch (a non-numeric member id). */
  const SERVER_ERROR: Reply := Reply(500, false)

  const LEADER_ROLE: string := "Leader"

  /** `request.POST.get('role', '')`. */
  function RoleOf(role: Option<string>): string {
    if role.Some? then role.value else ""
  }

  class CommitteeStore {
    var committees: map<nat, Committee>
    /** Memberships keyed by id; ids are never reused. */
    var memberships: map<nat, Membership>
    var nextMembershipId: nat
    var nextCommitteeId: nat
    /** The ids of the rows of the member table. */
    var members: set<nat>

    /** Rows are keyed by their ids, memberships refer to existing rows, and
        a member is on a committee at most once. */
    ghost predicate Valid()
      reads this
    {
      && (forall k :: k in committees ==> committees[k].id == k && k < nextCommitteeId)
      && (forall k :: k in committees && committees[k].leader.Some? ==> committees[k].leader.value in members)
      && (forall k :: k in memberships ==>
            && memberships[k].id == k && k < nextMembershipId
            && memberships[k].committee in committees && memberships[k].member in members)
      && (forall j, k :: j in memberships && k in memberships && j != k ==>
            (memberships[j].committee, memberships[j].member) != (memberships[k].committee, memberships[k].member))
    }

    /** `CommitteeMembership.objects.filter(committee=c, member=m).exists()`. */
    predicate IsOn(c: nat, m: nat)
      reads this
    {
      exists k :: k in memberships && memberships[k].committee == c && memberships[k].member == m
    }

    /** The ids of the members on committee `c`. */
    function MembersOf(c: nat): (r: set<nat>)
      reads this
      ensures forall m :: m in r <==> IsOn(c, m)
    {
      set k | k in memberships && memberships[k].committee == c :: memberships[k].member
    }

    /** `committee_detail`'s `non_members`: the member table minus the committee's members. */
    function NonMembers(c: nat): (r: set<nat>)
      reads this
      ensures forall m :: m in r <==> m in members && !IsOn(c, m)
    {
      members - MembersOf(c)
    }

    constructor (memberIds: set<nat>)
      ensures Valid()
      ensures committees == map[] && memberships == map[] && members == memberIds
    {
      committees := map[];
      memberships := map[];
      nextMembershipId := 0;
      nextCommitteeId := 0;
      members := memberIds;
    }

    /** Inserts a membership row; the pair must be new. */
    method Enrol(c: nat, m: nat, role: string) returns (id: nat)
      requires Valid() && c in committees && m in members && !IsOn(c, m)
      modifies this
      ensures Valid()
      ensures id == old(nextMembershipId) && id !in old(memberships)
      ensures memberships == old(memberships)[id := Membership(id, c, m, role)]
      ensures committees == old(committees) && members == old(members)
      ensures nextCommitteeId == old(nextCommitteeId)
    {
      id := nextMembershipId;
      memberships := memberships[id := Membership(id, c, m, role)];
      nextMembershipId := nextMembershipId + 1;
    }

    /** `committee_create` after the form validated: the committee is stored,
        and a leader, when chosen, is enrolled with role "Leader". */
    method CreateCommittee(name: string, description: string, leader: Option<nat>) returns (id: nat)
      requires Valid() && (leader.Some? ==> leader.value in members)
      modifies this
      ensures Valid()
      ensures id !in old(committees) && committees == old(committees)[id := Committee(id, name, description, leader)]
      ensures leader.None? ==> memberships == old(memberships)
      ensures leader.Some? ==>
                exists k :: k !in old(memberships)
                            && memberships == old(memberships)[k := Membership(k, id, leader.value, LEADER_ROLE)]
      ensures members == old(members)
    {
      id := nextCommitteeId;
      committees := committees[id := Committee(id, name, description, leader)];
      nextCommitteeId := nextCommitteeId + 1;
      if leader.Some? {
        var k := Enrol(id, leader.value, LEADER_ROLE);
      }
    }

    /** `add_committee_member`. The committee is looked up first (404), then
        the member id must be present (400) and name a member (404); a member
        already on the committee is refused (400); otherwise one membership
        with the given role (default "") is inserted. */
    method AddMember(post: bool, c: nat, memberId: string, role: Option<string>) returns (reply: Reply)
      requires Valid()
      modifies this
      ensures Valid()
      ensures committees == old(committees) && members == old(members)
      ensures reply == OK <==>
                post && c in committees && memberId != "" && PyInt(memberId).Some?
                && PyInt(memberId).value in members && !old(IsOn(c, PyInt(memberId).value))
      ensures reply != OK ==> memberships == old(memberships)
      ensures reply == OK ==>
                exists k :: k !in old(memberships)
                            && memberships == old(memberships)[k := Membership(k, c, PyInt(memberId).value, RoleOf(role))]
      ensures !post ==> reply == NOT_ALLOWED
      ensures post && c !in committees ==> reply == NOT_FOUND
      ensures post && c in committees && memberId == "" ==> reply == BAD_REQUEST
      ensures post && c in committees && memberId != "" && PyInt(memberId).None? ==> reply == SERVER_ERROR
      ensures (post && c in committees && memberId != "" && PyInt(memberId).Some? && PyInt(memberId).value in members
               && old(IsOn(c, PyInt(memberId).value))) ==> reply == BAD_REQUEST
    {
      if !post {
        return NOT_ALLOWED;
      }
      if c !in committees {
        return NOT_FOUND;
      }
      if memberId == "" {
        return BAD_REQUEST;
      }
      var parsed := PyInt(memberId);
      if parsed.None? {
        return SERVER_ERROR;
      }
      if parsed.value < 0 || parsed.value as nat !in members {
        return NOT_FOUND;
      }
      var m: nat := parsed.value;
      if IsOn(c, m) {
        return BAD_REQUEST;
      }
      var _ := Enrol(c, m, RoleOf(role));
      reply := OK;
    }

    /** The membership with id `k` on committee `c`, as
        `CommitteeMembership.objects.get(id=k, committee_id=c)` finds it. */
    predicate Addressed(c: nat, k: nat)
      reads this
    {
      k in memberships && memberships[k].committee == c
    }

    /** `remove_committee_member`: deletes the membership only when both its id
        and its committee match; otherwise 404 and nothing is removed. */
    method RemoveMember(post: bool, c: nat, k: nat) returns (reply: Reply)
      requires Valid()
      modifies this
      ensures Valid()
      ensures committees == old(committees) && members == old(members)
      ensures reply == OK <==> post && old(Addressed(c, k))
      ensures reply == OK ==> memberships == old(memberships) - {k}
      ensures reply != OK ==> memberships == old(memberships)
      ensures post && !old(Addressed(c, k)) ==> reply == NOT_FOUND
    {
      if !post {
        return NOT_ALLOWED;
      }
      if !Addressed(c, k) {
        return NOT_FOUND;
      }
      memberships := memberships - {k};
      reply := OK;
    }

    /** `update_member_role`: only the role of the addressed membership
        changes, to the given role or "". */
    method UpdateRole(post: bool, c: nat, k: nat, role: Option<string>) returns (reply: Reply)
      requires Valid()
      modifies this
      ensures Valid()
      ensures committees == old(committees) && members == old(members)
      ensures reply == OK <==> post && old(Addressed(c, k))
      ensures reply == OK ==> memberships == old(memberships)[k := old(memberships[k]).(role := RoleOf(role))]
      ensures reply != OK ==> memberships == old(memberships)
    {
      if !post {
        return NOT_ALLOWED;
      }
      if !Addressed(c, k) {
        return NOT_FOUND;
      }
      memberships := memberships[k := memberships[k].(role := RoleOf(role))];
      reply := OK;
    }

    /** `set_committee_leader`: the leader becomes the member only when that
        member is already on the committee; otherwise nothing changes. */
    method SetLeader(post: bool, c: nat, memberId: string) returns (reply: Reply)
      requires Valid()
      modifies this
      ensures Valid()
      ensures memberships == old(memberships) && members == old(members)
      ensures reply == OK <==>
                post && c in committees && memberId != "" && PyInt(memberId).Some?
                && PyInt(memberId).value in members && IsOn(c, PyInt(memberId).value)
      ensures reply == OK ==> committees == old(committees)[c := old(committees[c]).(leader := Some(PyInt(memberId).value))]
      ensures reply != OK ==> committees == old(committees)
      ensures (post && c in committees && memberId != "" && PyInt(memberId).Some? && PyInt(memberId).value in members
               && !IsOn(c, PyInt(memberId).value)) ==> reply == BAD_REQUEST
    {
      if !post {
        return NOT_ALLOWED;
      }
      if c !in committees {
        return NOT_FOUND;
      }
      if memberId == "" {
        return BAD_REQUEST;
      }
      var parsed := PyInt(memberId);
      if parsed.None? {
        return SERVER_ERROR;
      }
      if parsed.value < 0 || parsed.value as nat !in members {
        return NOT_FOUND;
      }
      var m: nat := parsed.value;
      if !IsOn(c, m) {
        return BAD_REQUEST;
      }
      committees := committees[c := committees[c].(leader := Some(m))];
      reply := OK;
    }
  }

  /** A committee's members and its non-members split the member table. */
  lemma {:induction false} MembersAndNonMembersPartition(s: CommitteeStore, c: nat)
    requires s.Valid()
    ensures s.MembersOf(c) + s.NonMembers(c) == s.members
    ensures s.MembersOf(c) * s.NonMembers(c) == {}
  {
    forall m | m in s.MembersOf(c)
      ensures m in s.members
    {
      var k :| k in s.memberships && s.memberships[k].committee == c && s.memberships[k].member == m;
    }
  }

  /** Adding the same member twice leaves one membership: the second add is refused. */
  method AddTwiceEnrolsOnce(s: CommitteeStore, c: nat, m: nat, role: Option<string>) returns (first: Reply, second: Reply)
    requires s.Valid() && c in s.committees && m in s.members && !s.IsOn(c, m)
    modifies s
    ensures first == OK && second == BAD_REQUEST
    ensures s.IsOn(c, m)
    ensures |s.memberships| == |old(s.memberships)| + 1
  {
    var id := NatToString(m);
    NatToStringRoundTrip(m);
    PyIntOfDigits(id);
    first := s.AddMember(true, c, id, role);
    ghost var k :| k !in old(s.memberships) && s.memberships == old(s.memberships)[k := Membership(k, c, m, RoleOf(role))];
    assert s.memberships[k].committee == c && s.memberships[k].member == m;
    assert s.IsOn(c, m);
    second := s.AddMember(true, c, id, role);
  }
}
