/** The membership walks of the agent, as functions of the directory
    entries: the climb of `_add_member_dn_to_role_dn`, the three-step
    placeholder dance of `_remove_member_dn_from_single_role_dn`, and the
    loop of `_remove_member_dn_from_role_dn`. The agent's methods run them
    against the directory and are proved equal to these functions. */
module Membership {
  import opened Wrappers
  import opened Text
  import opened Directory
  import opened Errors

  function AddValue(v: string): seq<Change> {
    [Change(ModAdd, MemberAttr, v)]
  }

  function DeleteValue(v: string): seq<Change> {
    [Change(ModDelete, MemberAttr, v)]
  }

  /** A group keeps a member, and holds the blank placeholder only when it
      has no other member. */
  predicate PlaceholderOk(e: Entry) {
    e.IsGroup() ==> e.members != {} && ("" in e.members ==> e.members == {""})
  }

  predicate AllPlaceholderOk(ents: Entries) {
    forall d :: d in ents ==> PlaceholderOk(ents[d])
  }

  // ----- _add_member_dn_to_role_dn -----

  /** The climb from `dn`: at each level under the roles suffix add the
      member (stop quietly when the level already has it or cannot take
      it), then drop the placeholder (tolerating its absence), then go up
      one level. */
  function AddWalk(ents: Entries, suffix: string, dn: string, member: string, flavour: Flavour)
    : (r: (Result<(), Failure>, Entries))
    ensures r.1.Keys == ents.Keys
    ensures forall d :: d in ents && !InSubtree(dn, d) ==> r.1[d] == ents[d]
    decreases |dn|
  {
    if !EndsWith(dn, suffix) then (Ok(()), ents)
    else
      var (c1, e1) := ModifySpec(ents, dn, AddValue(member), flavour);
      if c1 == ObjectClassViolation || c1 == AttributeOrValueExists then (Ok(()), e1)
      else if c1 != Success then (Err(Ldap(c1)), e1)
      else
        var (c2, e2) := ModifySpec(e1, dn, DeleteValue(""), flavour);
        if c2 != Success && c2 != NoSuchAttribute then (Err(Ldap(c2)), e2)
        else if ',' !in dn then (Err(NoParentDn(dn)), e2)
        else
          ParentAncestors(dn);
          AddWalk(e2, suffix, AfterFirst(dn, ','), member, flavour)
  }

  /** `_add_member_dn_to_role_dn`: both DNs must exist before anything is
      modified. */
  function AddMember(ents: Entries, suffix: string, roleDn: string, memberDn: string, flavour: Flavour)
    : (r: (Result<(), Failure>, Entries))
    ensures memberDn !in ents ==> r == (Err(NotFound(memberDn)), ents)
    ensures memberDn in ents && roleDn !in ents ==> r == (Err(NotFound(roleDn)), ents)
    ensures r.1.Keys == ents.Keys
  {
    if memberDn !in ents then (Err(NotFound(memberDn)), ents)
    else if roleDn !in ents then (Err(NotFound(roleDn)), ents)
    else AddWalk(ents, suffix, roleDn, memberDn, flavour)
  }

  /** `d` is a level of the walk from `dn`: `dn` or an entry above it that
      is still under the roles suffix. */
  predicate Level(suffix: string, dn: string, d: string) {
    InSubtree(dn, d) && EndsWith(d, suffix)
  }

  /** Membership is closed upwards along the levels above `dn`. */
  ghost predicate UpClosed(ents: Entries, suffix: string, dn: string, member: string)
    requires forall d :: Level(suffix, dn, d) ==> d in ents
  {
    forall a, b :: Level(suffix, dn, a) && Level(suffix, dn, b) && InSubtree(a, b) ==>
      (member in ents[a].members ==> member in ents[b].members)
  }

  /** The levels above `dn`'s parent are those of `dn` without `dn`. */
  lemma {:induction false} LevelsOfParent(suffix: string, dn: string)
    requires ',' in dn
    ensures forall d :: Level(suffix, AfterFirst(dn, ','), d) <==> Level(suffix, dn, d) && d != dn
  {
    var up := AfterFirst(dn, ',');
    ParentAncestors(dn);
    forall d | Level(suffix, dn, d) && d != dn
      ensures Level(suffix, up, d)
    {
      InSubtreeParent(dn, d);
    }
  }

  lemma CommaInside(dn: string, suffix: string)
    requires EndsWith(dn, suffix) && ',' in suffix
    ensures ',' in dn
  {
    var j :| 0 <= j < |suffix| && suffix[j] == ',';
    assert dn[|dn| - |suffix| + j] == ',';
  }

  /** The two Modify requests of one level of the climb, on a group that
      lacks the member: the member goes in and the placeholder goes out. */
  lemma AddLevel(ents: Entries, dn: string, member: string, flavour: Flavour)
    requires member != ""
    requires dn in ents && ents[dn].IsGroup() && member !in ents[dn].members
    ensures var e := ents[dn];
      var m1 := ModifySpec(ents, dn, AddValue(member), flavour);
      var m2 := ModifySpec(m1.1, dn, DeleteValue(""), flavour);
      m1.0 == Success && (m2.0 == Success || m2.0 == NoSuchAttribute) &&
      m2.1 == ents[dn := e.(members := (e.members + {member}) - {""})]
  {
    var e := ents[dn];
    ModifyOne(ents, dn, Change(ModAdd, MemberAttr, member), flavour);
    var e1 := ents[dn := e.(members := e.members + {member})];
    assert ModifySpec(ents, dn, AddValue(member), flavour) == (Success, e1);
    ModifyOne(e1, dn, Change(ModDelete, MemberAttr, ""), flavour);
    var e2 := ents[dn := e.(members := (e.members + {member}) - {""})];
    if "" !in e.members {
      assert (e.members + {member}) - {""} == e.members + {member};
      assert ModifySpec(e1, dn, DeleteValue(""), flavour) == (NoSuchAttribute, e1);
      assert e1 == e2;
    } else {
      assert e1[dn].members != {""};
      var after := e1[dn].(members := e1[dn].members - {""});
      assert ApplyChange(e1[dn], Change(ModDelete, MemberAttr, ""), flavour) == Ok(after);
      assert after == e.(members := (e.members + {member}) - {""});
      assert e1[dn := after] == e2;
      assert ModifySpec(e1, dn, DeleteValue(""), flavour) == (Success, e2);
    }
  }

  /** One level of the climb on a group that lacks the member: the
      member goes in, the placeholder goes out, and the walk goes on one
      level up. */
  lemma AddWalkStep(ents: Entries, suffix: string, dn: string, member: string, flavour: Flavour)
    requires EndsWith(dn, suffix) && ',' in dn && member != ""
    requires dn in ents && ents[dn].IsGroup() && member !in ents[dn].members
    ensures var e := ents[dn];
      AddWalk(ents, suffix, dn, member, flavour) ==
        AddWalk(ents[dn := e.(members := (e.members + {member}) - {""})], suffix, AfterFirst(dn, ','), member, flavour)
  {
    AddLevel(ents, dn, member, flavour);
  }

  /** A level that already holds the member ends the climb, changing
      nothing. */
  lemma AddWalkStops(ents: Entries, suffix: string, dn: string, member: string, flavour: Flavour)
    requires EndsWith(dn, suffix) && dn in ents && member in ents[dn].members
    ensures AddWalk(ents, suffix, dn, member, flavour) == (Ok(()), ents)
  {
    ModifyOne(ents, dn, Change(ModAdd, MemberAttr, member), flavour);
  }

  /** When every level exists as a group and membership is closed upwards,
      the walk succeeds and leaves the member in every level up to and
      including the roles root. */
  lemma {:induction false} AddWalkReachesEveryLevel(ents: Entries, suffix: string, dn: string, member: string, flavour: Flavour)
    requires member != "" && ',' in suffix
    requires forall d :: Level(suffix, dn, d) ==> d in ents && ents[d].IsGroup()
    requires UpClosed(ents, suffix, dn, member)
    ensures AddWalk(ents, suffix, dn, member, flavour).0 == Ok(())
    ensures forall d :: Level(suffix, dn, d) ==> member in AddWalk(ents, suffix, dn, member, flavour).1[d].members
    decreases |dn|
  {
    if EndsWith(dn, suffix) {
      assert Level(suffix, dn, dn);
      var e := ents[dn];
      if member in e.members {
        AddWalkStops(ents, suffix, dn, member, flavour);
      } else {
        CommaInside(dn, suffix);
        AddWalkStep(ents, suffix, dn, member, flavour);
        var e2 := ents[dn := e.(members := (e.members + {member}) - {""})];
        var up := AfterFirst(dn, ',');
        LevelsOfParent(suffix, dn);
        ParentInSubtree(dn, up);
        assert UpClosed(e2, suffix, up, member);
        AddWalkReachesEveryLevel(e2, suffix, up, member, flavour);
        assert !InSubtree(up, dn);
      }
    } else {
      forall d | Level(suffix, dn, d)
        ensures false
      {
        EndsWithAncestor(dn, d, suffix);
      }
    }
  }

  /** The walk keeps every group's placeholder invariant. */
  lemma {:induction false} AddWalkKeepsPlaceholders(ents: Entries, suffix: string, dn: string, member: string, flavour: Flavour)
    requires member != "" && AllPlaceholderOk(ents)
    ensures AllPlaceholderOk(AddWalk(ents, suffix, dn, member, flavour).1)
    decreases |dn|
  {
    if EndsWith(dn, suffix) && dn in ents {
      var e := ents[dn];
      if e.IsGroup() && member !in e.members {
        AddLevel(ents, dn, member, flavour);
        var e2 := ents[dn := e.(members := (e.members + {member}) - {""})];
        assert PlaceholderOk(e2[dn]);
        assert AllPlaceholderOk(e2);
        if ',' in dn {
          AddWalkKeepsPlaceholders(e2, suffix, AfterFirst(dn, ','), member, flavour);
        }
      } else {
        ModifyOne(ents, dn, Change(ModAdd, MemberAttr, member), flavour);
      }
    }
  }

  // ----- _remove_member_dn_from_single_role_dn -----

  /** Step 1 adds the placeholder (an objectClassViolation is tolerated and
      any other error raised at once); step 2 deletes the member (a
      noSuchAttribute is tolerated); step 3, in a `finally`, deletes the
      placeholder (an objectClassViolation is tolerated). An error of step
      3 replaces one of step 2. */
  function RemoveSingle(ents: Entries, roleDn: string, memberDn: string, flavour: Flavour)
    : (r: (Result<(), Failure>, Entries))
    ensures r.1.Keys == ents.Keys
    ensures forall d :: d in ents && d != roleDn ==> r.1[d] == ents[d]
  {
    var (c1, e1) := ModifySpec(ents, roleDn, AddValue(""), flavour);
    if c1 != Success && c1 != ObjectClassViolation then (Err(Ldap(c1)), e1)
    else RemoveAndRestore(e1, roleDn, memberDn, flavour)
  }

  /** Steps 2 and 3: the `try`/`finally` that deletes the member and then
      the placeholder. */
  function RemoveAndRestore(ents: Entries, roleDn: string, memberDn: string, flavour: Flavour)
    : (r: (Result<(), Failure>, Entries))
    ensures r.1.Keys == ents.Keys
    ensures forall d :: d in ents && d != roleDn ==> r.1[d] == ents[d]
  {
    var (c2, e2) := ModifySpec(ents, roleDn, DeleteValue(memberDn), flavour);
    var (c3, e3) := ModifySpec(e2, roleDn, DeleteValue(""), flavour);
    if c3 != Success && c3 != ObjectClassViolation then (Err(Ldap(c3)), e3)
    else if c2 != Success && c2 != NoSuchAttribute then (Err(Ldap(c2)), e3)
    else (Ok(()), e3)
  }

  /** The members a group is left with: the placeholder only when the
      removed member was the last one. */
  function Remaining(members: set<string>, member: string): (r: set<string>)
    ensures r != {}
    ensures "" in r ==> r == {""} || "" in members
  {
    if members - {member} == {} then {""} else members - {member}
  }

  /** On a group keeping its placeholder invariant the dance removes the
      member, leaves the placeholder only when no member is left, and keeps
      the invariant, except on an empty role of a server that reports a
      duplicate value as attributeOrValueExists (see below). */
  lemma RemoveSingleFromGroup(ents: Entries, roleDn: string, memberDn: string, flavour: Flavour)
    requires roleDn in ents && ents[roleDn].IsGroup() && PlaceholderOk(ents[roleDn])
    requires memberDn != ""
    requires ents[roleDn].members == {""} ==> flavour == ReportsClassViolation
    ensures var e := ents[roleDn];
      RemoveSingle(ents, roleDn, memberDn, flavour) ==
        (Ok(()), ents[roleDn := e.(members := Remaining(e.members, memberDn))])
    ensures PlaceholderOk(RemoveSingle(ents, roleDn, memberDn, flavour).1[roleDn])
  {
    var e := ents[roleDn];
    if "" in e.members {
      RemoveSingleFromPlaceholder(ents, roleDn, memberDn, flavour);
      assert e.(members := Remaining(e.members, memberDn)) == e;
      assert ents[roleDn := e] == ents;
    } else {
      RemoveSingleFromMembers(ents, roleDn, memberDn, flavour);
    }
  }

  /** The role holds only the placeholder: nothing changes. */
  lemma RemoveSingleFromPlaceholder(ents: Entries, roleDn: string, memberDn: string, flavour: Flavour)
    requires roleDn in ents && ents[roleDn].IsGroup() && ents[roleDn].members == {""}
    requires memberDn != "" && flavour == ReportsClassViolation
    ensures RemoveSingle(ents, roleDn, memberDn, flavour) == (Ok(()), ents)
    ensures Remaining({""}, memberDn) == {""}
  {
    ModifyOne(ents, roleDn, Change(ModAdd, MemberAttr, ""), flavour);
    ModifyOne(ents, roleDn, Change(ModDelete, MemberAttr, memberDn), flavour);
    ModifyOne(ents, roleDn, Change(ModDelete, MemberAttr, ""), flavour);
  }

  /** The role holds real members: the placeholder goes in, the member goes
      out, and the placeholder goes out again unless no member is left. */
  lemma RemoveSingleFromMembers(ents: Entries, roleDn: string, memberDn: string, flavour: Flavour)
    requires roleDn in ents && ents[roleDn].IsGroup() && ents[roleDn].members != {} && "" !in ents[roleDn].members
    requires memberDn != ""
    ensures var e := ents[roleDn];
      RemoveSingle(ents, roleDn, memberDn, flavour) ==
        (Ok(()), ents[roleDn := e.(members := Remaining(e.members, memberDn))])
  {
    var e := ents[roleDn];
    AddGroupValue(ents, roleDn, "", flavour);
    var e1 := ents[roleDn := e.(members := e.members + {""})];
    RemoveAndRestoreFromGroup(e1, roleDn, memberDn, flavour);
    assert (e.members + {""}) - {""} == e.members;
    var after := e.(members := Remaining(e.members, memberDn));
    assert e1[roleDn := after] == ents[roleDn := after];
  }

  /** Steps 2 and 3 on a group holding the placeholder: the member goes,
      and so does the placeholder unless no member is left. */
  lemma RemoveAndRestoreFromGroup(ents: Entries, roleDn: string, memberDn: string, flavour: Flavour)
    requires roleDn in ents && ents[roleDn].IsGroup() && "" in ents[roleDn].members
    requires memberDn != ""
    ensures var e := ents[roleDn];
      RemoveAndRestore(ents, roleDn, memberDn, flavour) ==
        (Ok(()), ents[roleDn := e.(members := Remaining(e.members - {""}, memberDn))])
  {
    var e := ents[roleDn];
    var m := e.members;
    DeleteGroupValue(ents, roleDn, memberDn, flavour);
    var e2 := ents[roleDn := e.(members := m - {memberDn})];
    if memberDn !in m {
      assert m - {memberDn} == m;
      assert e2 == ents;
    } else {
      assert m != {memberDn};
    }
    assert ModifySpec(ents, roleDn, DeleteValue(memberDn), flavour).1 == e2;
    DeleteGroupValue(e2, roleDn, "", flavour);
    if (m - {""}) - {memberDn} == {} {
      assert m - {memberDn} == {""};
    } else {
      assert m - {memberDn} != {""};
      assert (m - {memberDn}) - {""} == (m - {""}) - {memberDn};
      assert e2[roleDn := e.(members := (m - {""}) - {memberDn})] == ents[roleDn := e.(members := (m - {""}) - {memberDn})];
    }
  }

  /** Adding a value a group lacks. */
  lemma AddGroupValue(ents: Entries, dn: string, v: string, flavour: Flavour)
    requires dn in ents && ents[dn].IsGroup() && v !in ents[dn].members
    ensures ModifySpec(ents, dn, AddValue(v), flavour) == (Success, ents[dn := ents[dn].(members := ents[dn].members + {v})])
  {
    ModifyOne(ents, dn, Change(ModAdd, MemberAttr, v), flavour);
  }

  /** Deleting a value from a group: refused when it is missing or the last. */
  lemma DeleteGroupValue(ents: Entries, dn: string, v: string, flavour: Flavour)
    requires dn in ents && ents[dn].IsGroup()
    ensures var m := ents[dn].members;
      ModifySpec(ents, dn, DeleteValue(v), flavour) ==
        if v !in m then (NoSuchAttribute, ents)
        else if m == {v} then (ObjectClassViolation, ents)
        else (Success, ents[dn := ents[dn].(members := m - {v})])
  {
    ModifyOne(ents, dn, Change(ModDelete, MemberAttr, v), flavour);
  }

  /** On a role holding only the placeholder, a server that answers a
      duplicate value with attributeOrValueExists makes step 1 raise: only
      objectClassViolation is caught there. */
  lemma RemoveSingleFromEmptyRole(ents: Entries, roleDn: string, memberDn: string)
    requires roleDn in ents && ents[roleDn].IsGroup() && ents[roleDn].members == {""}
    ensures RemoveSingle(ents, roleDn, memberDn, ReportsValueExists) == (Err(Ldap(AttributeOrValueExists)), ents)
  {
    ModifyOne(ents, roleDn, Change(ModAdd, MemberAttr, ""), ReportsValueExists);
  }

  /** Run on an entry that is not a group and has no members (a user or an
      organisation), the dance changes nothing and fails with
      noSuchAttribute at step 3. */
  lemma RemoveSingleFromNonGroup(ents: Entries, dn: string, value: string, flavour: Flavour)
    requires dn in ents && !ents[dn].IsGroup() && ents[dn].members == {}
    ensures RemoveSingle(ents, dn, value, flavour) == (Err(Ldap(NoSuchAttribute)), ents)
  {
    ModifyOne(ents, dn, Change(ModAdd, MemberAttr, ""), flavour);
    ModifyOne(ents, dn, Change(ModDelete, MemberAttr, value), flavour);
    ModifyOne(ents, dn, Change(ModDelete, MemberAttr, ""), flavour);
  }

  // ----- _remove_member_dn_from_role_dn -----

  /** The removal loop with the arguments in the declared order: the member
      is removed from each listed role in turn. */
  function RemoveEach(ents: Entries, roles: seq<string>, memberDn: string, flavour: Flavour)
    : (r: (Result<(), Failure>, Entries))
    ensures r.1.Keys == ents.Keys
    ensures forall d :: d in ents && d !in roles ==> r.1[d] == ents[d]
    decreases |roles|
  {
    if roles == [] then (Ok(()), ents)
    else
      var (res, e1) := RemoveSingle(ents, roles[0], memberDn, flavour);
      if res.Err? then (res, e1) else RemoveEach(e1, roles[1..], memberDn, flavour)
  }

  /** The removal loop as the source writes it: `(member_dn, sub_role_dn)`
      is passed where `(role_dn, member_dn)` is expected. */
  function RemoveEachAsWritten(ents: Entries, roles: seq<string>, memberDn: string, flavour: Flavour)
    : (r: (Result<(), Failure>, Entries))
    ensures r.1.Keys == ents.Keys
    ensures forall d :: d in ents && d != memberDn ==> r.1[d] == ents[d]
    decreases |roles|
  {
    if roles == [] then (Ok(()), ents)
    else
      var (res, e1) := RemoveSingle(ents, memberDn, roles[0], flavour);
      if res.Err? then (res, e1) else RemoveEachAsWritten(e1, roles[1..], memberDn, flavour)
  }

  /** As written, removing a user or an organisation from any non-empty
      list of roles fails at once with noSuchAttribute and changes
      nothing: the dance runs on the member's own entry. */
  lemma SwappedRemovalFails(ents: Entries, roles: seq<string>, memberDn: string, flavour: Flavour)
    requires roles != []
    requires memberDn in ents && !ents[memberDn].IsGroup() && ents[memberDn].members == {}
    ensures RemoveEachAsWritten(ents, roles, memberDn, flavour) == (Err(Ldap(NoSuchAttribute)), ents)
  {
    RemoveSingleFromNonGroup(ents, memberDn, roles[0], flavour);
  }

  /** The groups hold the member, are distinct and keep the placeholder
      invariant: what `RemoveEachClears` needs of its input. */
  ghost predicate ClearableGroups(ents: Entries, roles: seq<string>, memberDn: string) {
    memberDn != "" && AllPlaceholderOk(ents) &&
    (forall i :: 0 <= i < |roles| ==> roles[i] in ents && ents[roles[i]].IsGroup() && memberDn in ents[roles[i]].members) &&
    (forall i, j :: 0 <= i < j < |roles| ==> roles[i] != roles[j])
  }

  /** Removing the member from the first group succeeds, and leaves the
      remaining groups clearable. */
  lemma {:induction false} RemoveHead(ents: Entries, roles: seq<string>, memberDn: string, flavour: Flavour)
    requires roles != [] && ClearableGroups(ents, roles, memberDn)
    ensures var (res, e1) := RemoveSingle(ents, roles[0], memberDn, flavour);
      res == Ok(()) && memberDn !in e1[roles[0]].members && roles[0] !in roles[1..] &&
      ClearableGroups(e1, roles[1..], memberDn)
  {
    var dn := roles[0];
    RemoveSingleFromGroup(ents, dn, memberDn, flavour);
    var e1 := RemoveSingle(ents, dn, memberDn, flavour).1;
    var rest := roles[1..];
    forall d | d in e1
      ensures PlaceholderOk(e1[d])
    {
      if d != dn {
        assert e1[d] == ents[d];
      }
    }
    forall i | 0 <= i < |rest|
      ensures rest[i] != dn && e1[rest[i]] == ents[rest[i]]
    {
      assert rest[i] == roles[i + 1];
    }
    forall i, j | 0 <= i < j < |rest|
      ensures rest[i] != rest[j]
    {
      assert rest[i] == roles[i + 1] && rest[j] == roles[j + 1];
    }
  }

  /** With the arguments in the declared order, removing a member from
      distinct groups that all hold it succeeds; afterwards none of them
      holds it and all keep the placeholder invariant. */
  lemma {:induction false} RemoveEachClears(ents: Entries, roles: seq<string>, memberDn: string, flavour: Flavour)
    requires memberDn != "" && AllPlaceholderOk(ents)
    requires forall i :: 0 <= i < |roles| ==> roles[i] in ents && ents[roles[i]].IsGroup() && memberDn in ents[roles[i]].members
    requires forall i, j :: 0 <= i < j < |roles| ==> roles[i] != roles[j]
    ensures RemoveEach(ents, roles, memberDn, flavour).0 == Ok(())
    ensures forall i :: 0 <= i < |roles| ==> memberDn !in RemoveEach(ents, roles, memberDn, flavour).1[roles[i]].members
    ensures AllPlaceholderOk(RemoveEach(ents, roles, memberDn, flavour).1)
    decreases |roles|
  {
    if roles != [] {
      RemoveHead(ents, roles, memberDn, flavour);
      var e1 := RemoveSingle(ents, roles[0], memberDn, flavour).1;
      RemoveEachClears(e1, roles[1..], memberDn, flavour);
      var fin := RemoveEach(ents, roles, memberDn, flavour).1;
      assert fin == RemoveEach(e1, roles[1..], memberDn, flavour).1;
      forall i | 1 <= i < |roles|
        ensures memberDn !in fin[roles[i]].members
      {
        assert roles[i] == roles[1..][i - 1];
      }
    }
  }

  /** `_remove_member_dn_from_role_dn` with the corrected argument order, on
      a reverse-sorted listing of the groups at or below `base` that hold
      the member: it succeeds, no group at or below `base` holds the member
      afterwards, and every group keeps the placeholder invariant. */
  lemma {:induction false} RemoveEachClearsSubtree(ents: Entries, base: string, roles: seq<string>, memberDn: string, flavour: Flavour)
    requires memberDn != "" && AllPlaceholderOk(ents)
    requires Descending(roles)
    requires forall d :: d in roles <==> d in SubtreeGroupsWithMember(ents, base, memberDn)
    ensures RemoveEach(ents, roles, memberDn, flavour).0 == Ok(())
    ensures AllPlaceholderOk(RemoveEach(ents, roles, memberDn, flavour).1)
    ensures forall d :: d in SubtreeGroups(ents, base) ==> memberDn !in RemoveEach(ents, roles, memberDn, flavour).1[d].members
  {
    forall i, j | 0 <= i < j < |roles|
      ensures roles[i] != roles[j]
    {
      LessIrreflexive(roles[i]);
    }
    assert forall i :: 0 <= i < |roles| ==> roles[i] in SubtreeGroupsWithMember(ents, base, memberDn);
    RemoveEachClears(ents, roles, memberDn, flavour);
    var after := RemoveEach(ents, roles, memberDn, flavour).1;
    forall d | d in SubtreeGroups(ents, base)
      ensures memberDn !in after[d].members
    {
      if d in roles {
        var k :| 0 <= k < |roles| && roles[k] == d;
      }
    }
  }
}
