/** `LdapAgent`: the agent object over one directory connection. Its
    `_bound` flag is a field set by `PerformBind`; the mutators refuse to
    run until it is set. The directory calls of each operation run
    against a `DirectoryServer`, and each method is proved equal to the
    pure description of its operation in the modules it imports. */
module Agent {
  import opened Wrappers
  import opened Text
  import opened Directory
  import opened Errors
  import opened DnCodec
  import opened RoleTree
  import opened Membership
  import opened OrgRecords

  /** A directory answer as the agent passes it on: success, or the
      uncaught LDAP error. */
  function Outcome(code: ResultCode): (r: Result<(), Failure>)
    ensures r.Ok? <==> code == Success
  {
    if code == Success then Ok(()) else Err(Ldap(code))
  }

  /** How `create_role` reports a refused Add: a missing parent and a
      taken DN become ValueErrors naming the DN; other errors pass. */
  function AddOutcome(code: ResultCode, dn: string): (r: Result<(), Failure>)
    ensures r.Ok? <==> code == Success
    ensures code == NoSuchObject ==> r == Err(ParentMissing(dn))
    ensures code == EntryAlreadyExists ==> r == Err(AlreadyExists(dn))
  {
    if code == Success then Ok(())
    else if code == NoSuchObject then Err(ParentMissing(dn))
    else if code == EntryAlreadyExists then Err(AlreadyExists(dn))
    else Err(Ldap(code))
  }

  /** The last `-` segment of a role id: `role_id.split('-')[-1]`. */
  function LastSegment(roleId: string): (r: string)
    ensures '-' !in r
    ensures '-' in roleId ==> r == roleId[LastIndex(roleId, '-') + 1..]
    ensures '-' !in roleId ==> r == roleId
  {
    var segs := Split(roleId, '-');
    segs[|segs| - 1]
  }

  /** The entry `create_role` adds: a `groupOfUniqueNames` holding only the
      blank placeholder, its `ou` the last segment of the id, and a
      description only when one is given. */
  function RoleEntry(roleId: string, description: string): (e: Entry)
    ensures e.IsGroup() && PlaceholderOk(e) && e.members == {""}
  {
    var text := map["ou" := LastSegment(roleId)];
    Entry(["top", GroupClass], {""}, if description == "" then text else text["description" := description])
  }

  /** A freshly created role has no direct members: its only value is the
      placeholder, which `members_in_role` skips. */
  lemma {:induction false} NewRoleHasNoMembers(userSuffix: string, orgSuffix: string, roleId: string, description: string)
    ensures MemberSet(userSuffix, orgSuffix, RoleEntry(roleId, description).members) == Ok({})
  {
    var r := MemberSet(userSuffix, orgSuffix, {""});
    assert Classify(userSuffix, orgSuffix, "") == Ok(None);
    assert r.Ok?;
    assert forall k :: k !in r.value;
    assert r.value == {};
  }

  /** `add_to_role` after the bound check. */
  function AddToRoleSpec(ents: Entries, userSuffix: string, orgSuffix: string, roleSuffix: string,
                         roleId: Option<string>, kind: string, memberId: string, flavour: Flavour)
    : (r: (Result<(), Failure>, Entries))
    ensures MemberDnOf(userSuffix, orgSuffix, kind, memberId).Err? ==>
      r == (Err(MemberDnOf(userSuffix, orgSuffix, kind, memberId).error), ents)
    ensures MemberDnOf(userSuffix, orgSuffix, kind, memberId).Ok? ==>
      r == AddMember(ents, roleSuffix, RoleDnOf(roleSuffix, roleId), MemberDnOf(userSuffix, orgSuffix, kind, memberId).value, flavour)
  {
    match MemberDnOf(userSuffix, orgSuffix, kind, memberId)
    case Err(e) => (Err(e), ents)
    case Ok(memberDn) => AddMember(ents, roleSuffix, RoleDnOf(roleSuffix, roleId), memberDn, flavour)
  }

  /** `remove_from_role` after the bound check: the single-role dance on
      the role itself, with no existence check and no sub-roles. */
  function RemoveFromRoleSpec(ents: Entries, userSuffix: string, orgSuffix: string, roleSuffix: string,
                              roleId: Option<string>, kind: string, memberId: string, flavour: Flavour)
    : (r: (Result<(), Failure>, Entries))
    ensures MemberDnOf(userSuffix, orgSuffix, kind, memberId).Err? ==>
      r == (Err(MemberDnOf(userSuffix, orgSuffix, kind, memberId).error), ents)
    ensures MemberDnOf(userSuffix, orgSuffix, kind, memberId).Ok? ==>
      r == RemoveSingle(ents, RoleDnOf(roleSuffix, roleId), MemberDnOf(userSuffix, orgSuffix, kind, memberId).value, flavour)
  {
    match MemberDnOf(userSuffix, orgSuffix, kind, memberId)
    case Err(e) => (Err(e), ents)
    case Ok(memberDn) => RemoveSingle(ents, RoleDnOf(roleSuffix, roleId), memberDn, flavour)
  }

  /** As written, `remove_from_role` leaves every sub-role alone: the entry
      of a child role, and so a member it holds, is exactly as before. */
  lemma {:induction false} RemoveFromRoleKeepsSubRoles(ents: Entries, userSuffix: string, orgSuffix: string,
                                                       roleSuffix: string, roleId: Option<string>, kind: string,
                                                       memberId: string, flavour: Flavour, child: string)
    requires ',' !in child && ParentId(child) == roleId
    requires RoleDnOf(roleSuffix, Some(child)) in ents
    ensures var sub := RoleDnOf(roleSuffix, Some(child));
      var r := RemoveFromRoleSpec(ents, userSuffix, orgSuffix, roleSuffix, roleId, kind, memberId, flavour);
      sub in r.1 && r.1[sub] == ents[sub]
  {
    var sub := RoleDnOf(roleSuffix, Some(child));
    if roleId.Some? {
      PrefixKeepsAbsent(roleId.value, child, ',');
    }
    if sub == RoleDnOf(roleSuffix, roleId) {
      RoleDnInjective(roleSuffix, Some(child), roleId);
      assert false;
    }
  }

  class LdapAgent {
    const dir: DirectoryServer
    const userSuffix: string
    const orgSuffix: string
    const roleSuffix: string
    var bound: bool

    /** `__init__` with the connection already made; the suffixes default
        to `DefaultUsersDn`, `DefaultOrgsDn` and `DefaultRolesDn`. */
    constructor (dir: DirectoryServer, userSuffix: string, orgSuffix: string, roleSuffix: string)
      ensures this.dir == dir && !bound
      ensures this.userSuffix == userSuffix && this.orgSuffix == orgSuffix && this.roleSuffix == roleSuffix
    {
      this.dir := dir;
      this.userSuffix := userSuffix;
      this.orgSuffix := orgSuffix;
      this.roleSuffix := roleSuffix;
      bound := false;
    }

    /** `perform_bind`: a successful simple Bind sets the flag; a refused
        one raises and leaves it as it was. */
    method PerformBind(loginDn: string, loginPw: string) returns (r: Result<(), Failure>)
      modifies this
      ensures r.Ok? <==> loginDn in dir.passwords && dir.passwords[loginDn] == loginPw
      ensures r.Err? ==> r == Err(Ldap(InvalidCredentials))
      ensures bound == (old(bound) || r.Ok?)
    {
      var code := dir.Bind(loginDn, loginPw);
      if code != Success {
        return Err(Ldap(code));
      }
      bound := true;
      return Ok(());
    }

    // ----- organisations -----

    /** `create_org`: the bound check, the id charset check, the field
        name lookups in sorted order, then one Add. */
    method CreateOrg(orgId: string, info: Info) returns (r: Result<(), Failure>)
      modifies dir
      ensures !bound ==> r == Err(NotBound)
      ensures bound && (exists i :: 0 <= i < |orgId| && orgId[i] !in OrgIdChars) ==>
        r.Err? && r.error.BadCharacter? && r.error.ch in orgId && r.error.ch !in OrgIdChars
      ensures (bound && (forall i :: 0 <= i < |orgId| ==> orgId[i] in OrgIdChars) &&
               (exists name :: name in info && !Known(OrgAttrs, name))) ==>
        r.Err? && r.error.UnknownField? && r.error.name in info && !Known(OrgAttrs, r.error.name) &&
        forall name :: name in info && Less(name, r.error.name) ==> Known(OrgAttrs, name)
      ensures r.Err? && !r.error.Ldap? ==> dir.entries == old(dir.entries)
      ensures (bound && (forall i :: 0 <= i < |orgId| ==> orgId[i] in OrgIdChars) &&
               (forall name :: name in info ==> Known(OrgAttrs, name))) ==>
        ',' !in orgId &&
        var add := AddSpec(old(dir.entries), OrgDnOf(orgSuffix, orgId).value, NewOrgEntry(info));
        dir.entries == add.1 && r == Outcome(add.0)
    {
      if !bound {
        return Err(NotBound);
      }
      var bad := FirstOutside(orgId, OrgIdChars);
      if bad.Some? {
        return Err(BadCharacter(orgId[bad.value]));
      }
      var unknown := FirstUnknownField(OrgAttrs, info);
      if unknown.Some? {
        return Err(UnknownField(unknown.value));
      }
      CharsetOrgDn(orgSuffix, orgId);
      var code := dir.Add("cn=" + orgId + "," + orgSuffix, NewOrgEntry(info));
      r := Outcome(code);
    }

    /** `set_org_info` (the source does not check the bound flag here). */
    method SetOrgInfo(orgId: string, newInfo: Info) returns (r: Result<(), Failure>)
      modifies dir
      ensures (r, dir.entries) == SetOrgInfoSpec(old(dir.entries), orgSuffix, orgId, newInfo, dir.flavour)
    {
      var info := OrgInfo(dir.entries, orgSuffix, orgId);
      if info.Err? {
        return Err(info.error);
      }
      var changes := Diff(OrgAttrs, info.value.fields, newInfo);
      if changes == [] {
        return Ok(());
      }
      SetOrgInfoSends(dir.entries, orgSuffix, orgId, newInfo, dir.flavour);
      var code := dir.Modify(info.value.dn, changes);
      r := Outcome(code);
    }

    /** `delete_org` */
    method DeleteOrg(orgId: string) returns (r: Result<(), Failure>)
      modifies dir
      ensures !bound ==> r == Err(NotBound) && dir.entries == old(dir.entries)
      ensures bound && ',' in orgId ==> r == Err(BadDn) && dir.entries == old(dir.entries)
      ensures bound && ',' !in orgId ==>
        var del := DeleteSpec(old(dir.entries), OrgDnOf(orgSuffix, orgId).value);
        dir.entries == del.1 && r == Outcome(del.0)
    {
      if !bound {
        return Err(NotBound);
      }
      var dn := OrgDnOf(orgSuffix, orgId);
      if dn.Err? {
        return Err(dn.error);
      }
      var code := dir.Delete(dn.value);
      r := Outcome(code);
    }

    // ----- roles -----

    /** `create_role` */
    method CreateRole(roleId: string, description: string) returns (r: Result<(), Failure>)
      modifies dir
      ensures !bound ==> r == Err(NotBound) && dir.entries == old(dir.entries)
      ensures bound ==>
        var dn := RoleDnOf(roleSuffix, Some(roleId));
        var add := AddSpec(old(dir.entries), dn, RoleEntry(roleId, description));
        dir.entries == add.1 && r == AddOutcome(add.0, dn)
    {
      if !bound {
        return Err(NotBound);
      }
      var dn := RoleDn(roleSuffix, Some(roleId));
      var code := dir.Add(dn, RoleEntry(roleId, description));
      r := AddOutcome(code, dn);
    }

    /** `_sub_roles`: the groups at and below the role, reverse-sorted. A
        subtree search whose base entry is missing is refused with
        noSuchObject. */
    method SubRoles(roleId: Option<string>) returns (r: Result<seq<string>, Failure>)
      ensures r.Err? <==> RoleDnOf(roleSuffix, roleId) !in dir.entries
      ensures r.Err? ==> r.error == Ldap(NoSuchObject)
      ensures r.Ok? ==> Descending(r.value)
      ensures r.Ok? ==> forall d :: d in r.value <==> d in SubtreeGroups(dir.entries, RoleDnOf(roleSuffix, roleId))
    {
      var base := RoleDn(roleSuffix, roleId);
      if !dir.Has(base) {
        return Err(Ldap(NoSuchObject));
      }
      var dns := SortDescending(SubtreeGroups(dir.entries, base));
      r := Ok(dns);
    }

    /** `delete_role`: one Delete per sub-role DN in `_sub_roles` order; the
        first refusal stops it. On a subtree made only of roles every
        Delete hits a leaf, and the whole subtree goes. */
    method DeleteRole(roleId: Option<string>) returns (r: Result<(), Failure>)
      modifies dir
      ensures !bound ==> r == Err(NotBound) && dir.entries == old(dir.entries)
      ensures bound && RoleDnOf(roleSuffix, roleId) !in old(dir.entries) ==>
        r == Err(Ldap(NoSuchObject)) && dir.entries == old(dir.entries)
      ensures bound && RoleDnOf(roleSuffix, roleId) in old(dir.entries) ==> exists dns ::
        Descending(dns) &&
        (forall d :: d in dns <==> d in SubtreeGroups(old(dir.entries), RoleDnOf(roleSuffix, roleId))) &&
        (r, dir.entries) == DeleteEach(old(dir.entries), dns)
      ensures bound && RoleDnOf(roleSuffix, roleId) in old(dir.entries) &&
              RoleSubtree(old(dir.entries), roleSuffix, RoleDnOf(roleSuffix, roleId)) ==>
        r == Ok(()) && dir.entries == old(dir.entries) - SubtreeGroups(old(dir.entries), RoleDnOf(roleSuffix, roleId))
    {
      if !bound {
        return Err(NotBound);
      }
      var sub := SubRoles(roleId);
      if sub.Err? {
        return Err(sub.error);
      }
      var dns := sub.value;
      ghost var base := RoleDnOf(roleSuffix, roleId);
      if RoleSubtree(dir.entries, roleSuffix, base) {
        DeleteSubtree(dir.entries, roleSuffix, base, dns);
      }
      r := DeleteAll(dns);
    }

    /** The loop of `delete_role`: one Delete per DN, in order, stopping at
        the first refusal. */
    method DeleteAll(dns: seq<string>) returns (r: Result<(), Failure>)
      modifies dir
      ensures (r, dir.entries) == DeleteEach(old(dir.entries), dns)
    {
      var i := 0;
      while i < |dns|
        invariant 0 <= i <= |dns|
        invariant DeleteEach(dir.entries, dns[i..]) == DeleteEach(old(dir.entries), dns)
      {
        assert dns[i..][1..] == dns[i + 1..];
        var code := dir.Delete(dns[i]);
        if code != Success {
          return Err(Ldap(code));
        }
        i := i + 1;
      }
      r := Ok(());
    }

    // ----- membership -----

    /** `_add_member_dn_to_role_dn`: the climb, one level per pass. */
    method AddMemberDnToRoleDn(roleDn: string, memberDn: string) returns (r: Result<(), Failure>)
      modifies dir
      ensures (r, dir.entries) == AddMember(old(dir.entries), roleSuffix, roleDn, memberDn, dir.flavour)
    {
      if !dir.Has(memberDn) {
        return Err(NotFound(memberDn));
      }
      if !dir.Has(roleDn) {
        return Err(NotFound(roleDn));
      }
      var dn := roleDn;
      while EndsWith(dn, roleSuffix)
        invariant AddWalk(dir.entries, roleSuffix, dn, memberDn, dir.flavour) ==
                  AddWalk(old(dir.entries), roleSuffix, roleDn, memberDn, dir.flavour)
        decreases |dn|
      {
        var added := dir.Modify(dn, AddValue(memberDn));
        if added == ObjectClassViolation || added == AttributeOrValueExists {
          return Ok(());
        }
        if added != Success {
          return Err(Ldap(added));
        }
        var dropped := dir.Modify(dn, DeleteValue(""));
        if dropped != Success && dropped != NoSuchAttribute {
          return Err(Ldap(dropped));
        }
        if ',' !in dn {
          return Err(NoParentDn(dn));
        }
        dn := AfterFirst(dn, ',');
      }
      r := Ok(());
    }

    /** `add_to_role` */
    method AddToRole(roleId: Option<string>, kind: string, memberId: string) returns (r: Result<(), Failure>)
      modifies dir
      ensures !bound ==> r == Err(NotBound) && dir.entries == old(dir.entries)
      ensures bound ==>
        (r, dir.entries) == AddToRoleSpec(old(dir.entries), userSuffix, orgSuffix, roleSuffix, roleId, kind, memberId, dir.flavour)
    {
      if !bound {
        return Err(NotBound);
      }
      var memberDn := MemberDnOf(userSuffix, orgSuffix, kind, memberId);
      if memberDn.Err? {
        return Err(memberDn.error);
      }
      var roleDn := RoleDn(roleSuffix, roleId);
      r := AddMemberDnToRoleDn(roleDn, memberDn.value);
    }

    /** `_remove_member_dn_from_single_role_dn`: the three-step dance. */
    method RemoveMemberDnFromSingleRoleDn(roleDn: string, memberDn: string) returns (r: Result<(), Failure>)
      modifies dir
      ensures (r, dir.entries) == RemoveSingle(old(dir.entries), roleDn, memberDn, dir.flavour)
    {
      var placed := dir.Modify(roleDn, AddValue(""));
      if placed != Success && placed != ObjectClassViolation {
        return Err(Ldap(placed));
      }
      var removed := dir.Modify(roleDn, DeleteValue(memberDn));
      var cleared := dir.Modify(roleDn, DeleteValue(""));
      if cleared != Success && cleared != ObjectClassViolation {
        return Err(Ldap(cleared));
      }
      if removed != Success && removed != NoSuchAttribute {
        return Err(Ldap(removed));
      }
      r := Ok(());
    }

    /** `_remove_member_dn_from_role_dn` as written: both DNs must exist and
        some group at or below the role must hold the member; the loop then
        passes `(member_dn, sub_role_dn)` to the dance, whose first
        parameter is the role. Run on a user or an organisation, the dance
        targets the member's own entry and the call fails with
        noSuchAttribute, changing nothing. */
    method RemoveMemberDnFromRoleDn(roleDn: string, memberDn: string) returns (r: Result<(), Failure>)
      modifies dir
      ensures memberDn !in old(dir.entries) ==> r == Err(NotFound(memberDn)) && dir.entries == old(dir.entries)
      ensures memberDn in old(dir.entries) && roleDn !in old(dir.entries) ==>
        r == Err(NotFound(roleDn)) && dir.entries == old(dir.entries)
      ensures (memberDn in old(dir.entries) && roleDn in old(dir.entries) &&
               SubtreeGroupsWithMember(old(dir.entries), roleDn, memberDn) == {}) ==>
        r == Err(NotAMember(memberDn, roleDn)) && dir.entries == old(dir.entries)
      ensures (memberDn in old(dir.entries) && roleDn in old(dir.entries) &&
               SubtreeGroupsWithMember(old(dir.entries), roleDn, memberDn) != {}) ==>
        exists roles ::
          Descending(roles) &&
          (forall d :: d in roles <==> d in SubtreeGroupsWithMember(old(dir.entries), roleDn, memberDn)) &&
          (r, dir.entries) == RemoveEachAsWritten(old(dir.entries), roles, memberDn, dir.flavour)
      ensures (memberDn in old(dir.entries) && roleDn in old(dir.entries) &&
               SubtreeGroupsWithMember(old(dir.entries), roleDn, memberDn) != {} &&
               !old(dir.entries)[memberDn].IsGroup() && old(dir.entries)[memberDn].members == {}) ==>
        r == Err(Ldap(NoSuchAttribute)) && dir.entries == old(dir.entries)
    {
      if !dir.Has(memberDn) {
        return Err(NotFound(memberDn));
      }
      if !dir.Has(roleDn) {
        return Err(NotFound(roleDn));
      }
      var found := SubtreeGroupsWithMember(dir.entries, roleDn, memberDn);
      if found == {} {
        return Err(NotAMember(memberDn, roleDn));
      }
      var roles := SortDescending(found);
      if !dir.entries[memberDn].IsGroup() && dir.entries[memberDn].members == {} {
        SwappedRemovalFails(dir.entries, roles, memberDn, dir.flavour);
      }
      r := RemoveFromEachAsWritten(roles, memberDn);
    }

    /** The loop of `_remove_member_dn_from_role_dn` as written: the dance
        with the member DN in the role's place, for each listed role in
        turn, stopping at the first error. */
    method RemoveFromEachAsWritten(roles: seq<string>, memberDn: string) returns (r: Result<(), Failure>)
      modifies dir
      ensures (r, dir.entries) == RemoveEachAsWritten(old(dir.entries), roles, memberDn, dir.flavour)
    {
      var i := 0;
      while i < |roles|
        invariant 0 <= i <= |roles|
        invariant RemoveEachAsWritten(dir.entries, roles[i..], memberDn, dir.flavour) ==
                  RemoveEachAsWritten(old(dir.entries), roles, memberDn, dir.flavour)
      {
        assert roles[i..][1..] == roles[i + 1..];
        var res := RemoveMemberDnFromSingleRoleDn(memberDn, roles[i]);
        if res.Err? {
          return res;
        }
        i := i + 1;
      }
      r := Ok(());
    }

    /** `_remove_member_dn_from_role_dn` as evidently intended, with the
        inner call's arguments in their declared order: the same checks,
        then the member leaves each matching group, deepest first. */
    method RemoveMemberDnFromRoleDnCorrected(roleDn: string, memberDn: string) returns (r: Result<(), Failure>)
      modifies dir
      ensures memberDn !in old(dir.entries) ==> r == Err(NotFound(memberDn)) && dir.entries == old(dir.entries)
      ensures memberDn in old(dir.entries) && roleDn !in old(dir.entries) ==>
        r == Err(NotFound(roleDn)) && dir.entries == old(dir.entries)
      ensures (memberDn in old(dir.entries) && roleDn in old(dir.entries) &&
               SubtreeGroupsWithMember(old(dir.entries), roleDn, memberDn) == {}) ==>
        r == Err(NotAMember(memberDn, roleDn)) && dir.entries == old(dir.entries)
      ensures (memberDn in old(dir.entries) && roleDn in old(dir.entries) &&
               SubtreeGroupsWithMember(old(dir.entries), roleDn, memberDn) != {}) ==>
        exists roles ::
          Descending(roles) &&
          (forall d :: d in roles <==> d in SubtreeGroupsWithMember(old(dir.entries), roleDn, memberDn)) &&
          (r, dir.entries) == RemoveEach(old(dir.entries), roles, memberDn, dir.flavour)
      ensures (memberDn in old(dir.entries) && roleDn in old(dir.entries) &&
               SubtreeGroupsWithMember(old(dir.entries), roleDn, memberDn) != {} &&
               memberDn != "" && AllPlaceholderOk(old(dir.entries))) ==>
        r == Ok(()) && AllPlaceholderOk(dir.entries) &&
        forall d :: d in SubtreeGroups(old(dir.entries), roleDn) ==> memberDn !in dir.entries[d].members
    {
      if !dir.Has(memberDn) {
        return Err(NotFound(memberDn));
      }
      if !dir.Has(roleDn) {
        return Err(NotFound(roleDn));
      }
      var found := SubtreeGroupsWithMember(dir.entries, roleDn, memberDn);
      if found == {} {
        return Err(NotAMember(memberDn, roleDn));
      }
      var roles := SortDescending(found);
      if memberDn != "" && AllPlaceholderOk(dir.entries) {
        RemoveEachClearsSubtree(dir.entries, roleDn, roles, memberDn, dir.flavour);
      }
      r := RemoveFromEach(roles, memberDn);
    }

    /** The corrected loop: the dance on each listed role in turn, with the
        role first, stopping at the first error. */
    method RemoveFromEach(roles: seq<string>, memberDn: string) returns (r: Result<(), Failure>)
      modifies dir
      ensures (r, dir.entries) == RemoveEach(old(dir.entries), roles, memberDn, dir.flavour)
    {
      var i := 0;
      while i < |roles|
        invariant 0 <= i <= |roles|
        invariant RemoveEach(dir.entries, roles[i..], memberDn, dir.flavour) ==
                  RemoveEach(old(dir.entries), roles, memberDn, dir.flavour)
      {
        assert roles[i..][1..] == roles[i + 1..];
        var res := RemoveMemberDnFromSingleRoleDn(roles[i], memberDn);
        if res.Err? {
          return res;
        }
        i := i + 1;
      }
      r := Ok(());
    }

    /** `remove_from_role`: the single-role dance on the role itself. */
    method RemoveFromRole(roleId: Option<string>, kind: string, memberId: string) returns (r: Result<(), Failure>)
      modifies dir
      ensures !bound ==> r == Err(NotBound) && dir.entries == old(dir.entries)
      ensures bound ==>
        (r, dir.entries) == RemoveFromRoleSpec(old(dir.entries), userSuffix, orgSuffix, roleSuffix, roleId, kind, memberId, dir.flavour)
    {
      if !bound {
        return Err(NotBound);
      }
      var memberDn := MemberDnOf(userSuffix, orgSuffix, kind, memberId);
      if memberDn.Err? {
        return Err(memberDn.error);
      }
      var roleDn := RoleDn(roleSuffix, roleId);
      r := RemoveMemberDnFromSingleRoleDn(roleDn, memberDn.value);
    }
  }
}
