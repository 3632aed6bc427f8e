/** The agent's read-only views of the roles tree: `filter_roles`,
    `members_in_role`, the order in which `_sub_roles` lists a subtree, and
    why `delete_role` can delete a subtree in that order. */
module RoleTree {
  import opened Wrappers
  import opened Text
  import opened Directory
  import opened Errors
  import opened DnCodec

  // ----- filter_roles -----

  /** What `filter_roles` asks of a role: the pattern has no more tokens
      than the role has segments, and every token other than `*` equals the
      segment at its position (compared case-sensitively). */
  predicate Matches(patternBits: seq<string>, roleBits: seq<string>) {
    |patternBits| <= |roleBits| &&
    forall c :: 0 <= c < |patternBits| ==> patternBits[c] == "*" || roleBits[c] == patternBits[c]
  }

  /** The source's scan for a mismatching token from position `c` on. */
  function NoMismatchFrom(p: seq<string>, r: seq<string>, c: nat): bool
    requires c <= |p| <= |r|
    decreases |p| - c
  {
    c == |p| || ((p[c] == "*" || r[c] == p[c]) && NoMismatchFrom(p, r, c + 1))
  }

  /** The test `filter_roles` applies to one role id. */
  function RoleMatches(pattern: string, roleId: string): bool {
    var p := Split(pattern, '-');
    var r := Split(roleId, '-');
    |p| <= |r| && NoMismatchFrom(p, r, 0)
  }

  lemma {:induction false} NoMismatchFromMeans(p: seq<string>, r: seq<string>, c: nat)
    requires c <= |p| <= |r|
    ensures NoMismatchFrom(p, r, c) <==> forall k :: c <= k < |p| ==> p[k] == "*" || r[k] == p[k]
    decreases |p| - c
  {
    if c < |p| {
      NoMismatchFromMeans(p, r, c + 1);
    }
  }

  lemma RoleMatchesMeans(pattern: string, roleId: string)
    ensures RoleMatches(pattern, roleId) <==> Matches(Split(pattern, '-'), Split(roleId, '-'))
  {
    var p := Split(pattern, '-');
    var r := Split(roleId, '-');
    if |p| <= |r| {
      NoMismatchFromMeans(p, r, 0);
    }
  }

  /** A pattern of one token matches by the first segment alone: `*`
      matches every role, `A` the roles `A`, `A-B`, ..., and `''` or `**`
      only roles whose first segment is literally `''` or `**`. */
  lemma SingleTokenPattern(t: string, roleId: string)
    requires '-' !in t
    ensures RoleMatches(t, roleId) <==> t == "*" || Split(roleId, '-')[0] == t
  {
    RoleMatchesMeans(t, roleId);
    assert Split(t, '-') == [t];
  }

  /** `filter_roles`: the ids of the roles below the roles suffix that match
      `pattern`. The root is not a role id and is skipped; a group whose DN
      `_role_id` refuses makes the call fail. */
  function FilterRoles(ents: Entries, suffix: string, pattern: string): (r: Result<set<string>, Failure>)
    ensures r.Err? <==> exists dn :: dn in SubtreeGroups(ents, suffix) && RoleIdOf(suffix, dn).Err?
  {
    var groups := SubtreeGroups(ents, suffix);
    if exists dn :: dn in groups && RoleIdOf(suffix, dn).Err? then Err(BadDn)
    else
      Ok(set dn | dn in groups && RoleIdOf(suffix, dn).Ok? && RoleIdOf(suffix, dn).value.Some?
                  && RoleMatches(pattern, RoleIdOf(suffix, dn).value.value)
                :: RoleIdOf(suffix, dn).value.value)
  }

  /** `filter_roles` returns a role id exactly when it names a group under
      the roles suffix and matches the pattern position by position. */
  lemma FilterRolesExact(ents: Entries, suffix: string, pattern: string, id: string)
    requires FilterRoles(ents, suffix, pattern).Ok?
    ensures id in FilterRoles(ents, suffix, pattern).value <==>
      ',' !in id && RoleDnOf(suffix, Some(id)) in SubtreeGroups(ents, suffix)
      && Matches(Split(pattern, '-'), Split(id, '-'))
  {
    RoleMatchesMeans(pattern, id);
    if id in FilterRoles(ents, suffix, pattern).value {
      var dn :| dn in SubtreeGroups(ents, suffix) && RoleIdOf(suffix, dn).Ok? && RoleIdOf(suffix, dn).value == Some(id);
      RoleDnOfRoleIdOf(suffix, dn);
    }
    if ',' !in id && RoleDnOf(suffix, Some(id)) in SubtreeGroups(ents, suffix) {
      RoleIdOfRoleDn(suffix, Some(id));
    }
  }

  // ----- members_in_role -----

  /** A direct member as `members_in_role` reports it: `('users', id)` or
      `('orgs', id)`. */
  datatype Member = UserMember(userId: string) | OrgMember(orgId: string)

  /** How `members_in_role` reads one `uniqueMember` value: blank values and
      DNs under neither suffix are skipped, and the organisation suffix is
      tried first. */
  function Classify(userSuffix: string, orgSuffix: string, m: string): (r: Result<Option<Member>, Failure>)
    ensures r.Ok? && r.value.Some? && r.value.value.OrgMember? ==>
      OrgDnOf(orgSuffix, r.value.value.orgId) == Ok(m)
    ensures r.Ok? && r.value.Some? && r.value.value.UserMember? ==>
      !EndsWith(m, orgSuffix) && UserDnOf(userSuffix, r.value.value.userId) == Ok(m)
    ensures r.Ok? && r.value.None? ==> m == "" || (!EndsWith(m, orgSuffix) && !EndsWith(m, userSuffix))
  {
    if m == "" then Ok(None)
    else if EndsWith(m, orgSuffix) then
      match OrgIdOf(orgSuffix, m)
      case Err(e) => Err(e)
      case Ok(o) =>
        OrgDnRoundTrip(orgSuffix, o, m);
        Ok(Some(OrgMember(o)))
    else if EndsWith(m, userSuffix) then
      match UserIdOf(userSuffix, m)
      case Err(e) => Err(e)
      case Ok(u) =>
        UserDnRoundTrip(userSuffix, u, m);
        Ok(Some(UserMember(u)))
    else Ok(None)
  }

  /** `member_tuples_from_result` over a set of `uniqueMember` values. */
  function MemberSet(userSuffix: string, orgSuffix: string, values: set<string>): (r: Result<set<Member>, Failure>)
    ensures r.Err? <==> exists m :: m in values && Classify(userSuffix, orgSuffix, m).Err?
    ensures r.Ok? ==> forall k :: k in r.value <==>
      exists m :: m in values && Classify(userSuffix, orgSuffix, m) == Ok(Some(k))
  {
    if exists m :: m in values && Classify(userSuffix, orgSuffix, m).Err? then Err(BadDn)
    else
      Ok(set m | m in values && Classify(userSuffix, orgSuffix, m).Ok? && Classify(userSuffix, orgSuffix, m).value.Some?
               :: Classify(userSuffix, orgSuffix, m).value.value)
  }

  /** The base search for a group at `dn`: its members, or nothing. */
  function OwnMembers(ents: Entries, dn: string): set<string> {
    if dn in ents && ents[dn].IsGroup() then ents[dn].members else {}
  }

  /** The one-level search for groups below `dn`: all their members. */
  function ChildMembers(ents: Entries, dn: string): (r: set<string>)
    ensures forall m :: m in r <==> exists c :: c in ChildGroups(ents, dn) && m in ents[c].members
  {
    set c, m | c in ChildGroups(ents, dn) && m in ents[c].members :: m
  }

  /** `members_in_role`: the members of the role's own entry that no
      immediate sub-role also holds. */
  function MembersInRole(ents: Entries, userSuffix: string, orgSuffix: string, roleSuffix: string,
                         roleId: Option<string>): (r: Result<set<Member>, Failure>)
    ensures r.Err? <==> exists m ::
      (m in OwnMembers(ents, RoleDnOf(roleSuffix, roleId)) || m in ChildMembers(ents, RoleDnOf(roleSuffix, roleId))) &&
      Classify(userSuffix, orgSuffix, m).Err?
  {
    var dn := RoleDnOf(roleSuffix, roleId);
    match MemberSet(userSuffix, orgSuffix, OwnMembers(ents, dn))
    case Err(e) => Err(e)
    case Ok(all) =>
      match MemberSet(userSuffix, orgSuffix, ChildMembers(ents, dn))
      case Err(e) => Err(e)
      case Ok(inSubRoles) => Ok(all - inSubRoles)
  }

  lemma ClassifyOrg(userSuffix: string, orgSuffix: string, o: string)
    requires ',' !in o
    ensures Classify(userSuffix, orgSuffix, OrgDnOf(orgSuffix, o).value) == Ok(Some(OrgMember(o)))
  {
    var m := OrgDnOf(orgSuffix, o).value;
    OrgDnRoundTrip(orgSuffix, o, m);
    assert m[|m| - |orgSuffix|..] == orgSuffix;
  }

  lemma ClassifyUser(userSuffix: string, orgSuffix: string, u: string)
    requires ',' !in u
    requires !EndsWith(UserDnOf(userSuffix, u).value, orgSuffix)
    ensures Classify(userSuffix, orgSuffix, UserDnOf(userSuffix, u).value) == Ok(Some(UserMember(u)))
  {
    var m := UserDnOf(userSuffix, u).value;
    UserDnRoundTrip(userSuffix, u, m);
    assert m[|m| - |userSuffix|..] == userSuffix;
  }

  lemma {:induction false} MemberSetHasOrg(userSuffix: string, orgSuffix: string, values: set<string>, o: string)
    requires MemberSet(userSuffix, orgSuffix, values).Ok? && ',' !in o
    ensures OrgMember(o) in MemberSet(userSuffix, orgSuffix, values).value <==> OrgDnOf(orgSuffix, o).value in values
  {
    ClassifyOrg(userSuffix, orgSuffix, o);
  }

  lemma {:induction false} MemberSetHasUser(userSuffix: string, orgSuffix: string, values: set<string>, u: string)
    requires MemberSet(userSuffix, orgSuffix, values).Ok? && ',' !in u
    requires !EndsWith(UserDnOf(userSuffix, u).value, orgSuffix)
    ensures UserMember(u) in MemberSet(userSuffix, orgSuffix, values).value <==> UserDnOf(userSuffix, u).value in values
  {
    ClassifyUser(userSuffix, orgSuffix, u);
  }

  /** `members_in_role` reports an organisation exactly when its DN is a
      member of the role's own entry and of no immediate sub-role. */
  lemma MembersInRoleOrgs(ents: Entries, userSuffix: string, orgSuffix: string, roleSuffix: string,
                          roleId: Option<string>, o: string)
    requires MembersInRole(ents, userSuffix, orgSuffix, roleSuffix, roleId).Ok? && ',' !in o
    ensures var dn := RoleDnOf(roleSuffix, roleId);
      var m := OrgDnOf(orgSuffix, o).value;
      OrgMember(o) in MembersInRole(ents, userSuffix, orgSuffix, roleSuffix, roleId).value <==>
        m in OwnMembers(ents, dn) && m !in ChildMembers(ents, dn)
  {
    var dn := RoleDnOf(roleSuffix, roleId);
    MemberSetHasOrg(userSuffix, orgSuffix, OwnMembers(ents, dn), o);
    MemberSetHasOrg(userSuffix, orgSuffix, ChildMembers(ents, dn), o);
  }

  /** The same for a user, whose DN must not also lie under the
      organisations suffix (that suffix is tried first). */
  lemma MembersInRoleUsers(ents: Entries, userSuffix: string, orgSuffix: string, roleSuffix: string,
                           roleId: Option<string>, u: string)
    requires MembersInRole(ents, userSuffix, orgSuffix, roleSuffix, roleId).Ok? && ',' !in u
    requires !EndsWith(UserDnOf(userSuffix, u).value, orgSuffix)
    ensures var dn := RoleDnOf(roleSuffix, roleId);
      var m := UserDnOf(userSuffix, u).value;
      UserMember(u) in MembersInRole(ents, userSuffix, orgSuffix, roleSuffix, roleId).value <==>
        m in OwnMembers(ents, dn) && m !in ChildMembers(ents, dn)
  {
    var dn := RoleDnOf(roleSuffix, roleId);
    MemberSetHasUser(userSuffix, orgSuffix, OwnMembers(ents, dn), u);
    MemberSetHasUser(userSuffix, orgSuffix, ChildMembers(ents, dn), u);
  }

  // ----- _sub_roles and delete_role -----

  /** A DN that `_role_id` maps to a role (not to the root). */
  predicate IsRoleDn(suffix: string, dn: string) {
    RoleIdOf(suffix, dn).Ok? && RoleIdOf(suffix, dn).value.Some?
  }

  /** Every entry at or below a role is a role: what `delete_role` needs to
      find a leaf at each step. */
  predicate RoleSubtree(ents: Entries, suffix: string, base: string) {
    forall d :: d in ents && InSubtree(d, base) ==> ents[d].IsGroup() && IsRoleDn(suffix, d)
  }

  /** Every descendant of a role sorts after it, so a reverse-sorted list
      of a subtree names every descendant before each of its ancestors. */
  lemma {:induction false} DescendantSortsAfter(suffix: string, p: string, c: string)
    requires IsRoleDn(suffix, p) && RoleIdOf(suffix, c).Ok?
    requires InSubtree(c, p) && c != p
    ensures Less(p, c)
    decreases |c|
  {
    RoleDnOfRoleIdOf(suffix, p);
    RoleDnOfRoleIdOf(suffix, c);
    InSubtreeParent(c, p);
    var q := AfterFirst(c, ',');
    assert ParentDn(c) == Some(q);
    if q == p {
      ChildDnSortsAfter(suffix, p, c);
    } else {
      var y := RoleIdOf(suffix, c).value;
      assert |p| > |suffix|;
      assert y.Some?;
      ParentOfRoleDn(suffix, y.value);
      var py := ParentId(y.value);
      assert q == RoleDnOf(suffix, py);
      assert py.Some? ==> ',' !in py.value by {
        if py.Some? {
          PrefixKeepsAbsent(py.value, y.value, ',');
        }
      }
      RoleIdOfRoleDn(suffix, py);
      assert |q| > |p|;
      DescendantSortsAfter(suffix, p, q);
      ChildDnSortsAfter(suffix, q, c);
      LessTransitive(p, q, c);
    }
  }

  /** The `delete_role` loop: each DN in turn; the first failure stops it. */
  function DeleteEach(ents: Entries, dns: seq<string>): (r: (Result<(), Failure>, Entries))
    ensures r.0.Ok? ==> r.1 == ents - set d | d in dns
    decreases |dns|
  {
    if dns == [] then (Ok(()), ents)
    else
      var (code, e1) := DeleteSpec(ents, dns[0]);
      if code != Success then (Err(Ldap(code)), e1)
      else
        var r := DeleteEach(e1, dns[1..]);
        assert r.0.Ok? ==> r.1 == ents - set d | d in dns by {
          assert (set d | d in dns) == {dns[0]} + set d | d in dns[1..];
        }
        r
  }

  /** Each DN's children come earlier in the list. */
  predicate ChildrenFirst(ents: Entries, dns: seq<string>) {
    forall i, c :: 0 <= i < |dns| && c in ents && ParentDn(c) == Some(dns[i]) ==>
      exists j :: 0 <= j < i && dns[j] == c
  }

  /** Deleting a list of present, distinct DNs that names every child
      before its parent succeeds and removes exactly those DNs. */
  lemma {:induction false} DeleteEachChildrenFirst(ents: Entries, dns: seq<string>)
    requires forall i :: 0 <= i < |dns| ==> dns[i] in ents
    requires forall i, j :: 0 <= i < j < |dns| ==> dns[i] != dns[j]
    requires ChildrenFirst(ents, dns)
    ensures DeleteEach(ents, dns) == (Ok(()), ents - set d | d in dns)
    decreases |dns|
  {
    if dns != [] {
      assert !HasChildren(ents, dns[0]);
      var e1 := ents - {dns[0]};
      var rest := dns[1..];
      forall i, c | 0 <= i < |rest| && c in e1 && ParentDn(c) == Some(rest[i])
        ensures exists j :: 0 <= j < i && rest[j] == c
      {
        var j :| 0 <= j < i + 1 && dns[j] == c;
        assert rest[j - 1] == c;
      }
      DeleteEachChildrenFirst(e1, rest);
    }
  }

  /** A reverse-sorted listing of a role subtree names every child before
      its parent. */
  lemma ReverseSortedIsChildrenFirst(ents: Entries, suffix: string, base: string, dns: seq<string>)
    requires RoleSubtree(ents, suffix, base)
    requires Descending(dns)
    requires forall d :: d in dns <==> d in SubtreeGroups(ents, base)
    ensures ChildrenFirst(ents, dns)
  {
    forall i, c | 0 <= i < |dns| && c in ents && ParentDn(c) == Some(dns[i])
      ensures exists j :: 0 <= j < i && dns[j] == c
    {
      var p := dns[i];
      assert p in dns;
      ParentInSubtree(c, p);
      InSubtreeTransitive(c, p, base);
      assert c in SubtreeGroups(ents, base);
      var j :| 0 <= j < |dns| && dns[j] == c;
      DescendantSortsAfter(suffix, p, c);
      if j > i {
        LessAsymmetric(p, c);
      } else if j == i {
        LessIrreflexive(p);
      }
    }
  }

  /** `delete_role` on a role subtree deletes exactly that subtree. */
  lemma DeleteSubtree(ents: Entries, suffix: string, base: string, dns: seq<string>)
    requires RoleSubtree(ents, suffix, base)
    requires Descending(dns)
    requires forall d :: d in dns <==> d in SubtreeGroups(ents, base)
    ensures DeleteEach(ents, dns) == (Ok(()), ents - SubtreeGroups(ents, base))
  {
    ReverseSortedIsChildrenFirst(ents, suffix, base, dns);
    forall i, j | 0 <= i < j < |dns|
      ensures dns[i] != dns[j]
    {
      LessIrreflexive(dns[i]);
    }
    DeleteEachChildrenFirst(ents, dns);
    assert (set d | d in dns) == SubtreeGroups(ents, base);
  }
}
