/** The role-id helpers of the roles editor: the breadcrumb chain of
    `_role_parents`, the id check and composition of `do_create_role`, and
    the parent id `delete_role` redirects to. */
module RolesEditor {
  import opened Wrappers
  import opened Text
  import opened Directory
  import opened Errors
  import opened DnCodec

  /** The ancestors of a role id, root first, ending with the id itself. */
  function Parents(roleId: string): (r: seq<string>)
    ensures |r| >= 1 && r[|r| - 1] == roleId
    decreases |roleId|
  {
    if '-' !in roleId then [roleId]
    else Parents(BeforeLast(roleId, '-')) + [roleId]
  }

  /** `_role_parents`: the source's loop, which walks up with
      `rsplit('-', 1)[0]` and reverses the list at the end. */
  method RoleParents(roleId: Option<string>) returns (r: seq<string>)
    ensures roleId.None? ==> r == []
    ensures roleId.Some? ==> r == Parents(roleId.value)
  {
    if roleId.None? {
      return [];
    }
    var current := roleId.value;
    var parents := [current];
    while '-' in current
      invariant |parents| >= 1 && parents[|parents| - 1] == current
      invariant Parents(roleId.value) == Parents(current) + Reverse(parents)[1..]
      decreases |current|
    {
      var up := BeforeLast(current, '-');
      ParentsWalkStep(roleId.value, current, parents);
      current := up;
      parents := parents + [current];
    }
    ParentsWalkDone(roleId.value, current, parents);
    r := Reverse(parents);
  }

  lemma {:induction false} ReverseSnoc(s: seq<string>, x: string)
    ensures Reverse(s + [x]) == [x] + Reverse(s)
  {
    assert |Reverse(s + [x])| == |[x] + Reverse(s)|;
    forall i | 0 <= i < |s| + 1
      ensures Reverse(s + [x])[i] == ([x] + Reverse(s))[i]
    {
      if i > 0 {
        assert ([x] + Reverse(s))[i] == Reverse(s)[i - 1];
      }
    }
  }

  lemma {:induction false} ReverseLast(s: seq<string>)
    requires |s| >= 1
    ensures Reverse(s) == [s[|s| - 1]] + Reverse(s)[1..]
  {
    var r := Reverse(s);
    assert r == [r[0]] + r[1..];
  }

  /** One pass of the `_role_parents` loop keeps its invariant. */
  lemma {:induction false} ParentsWalkStep(roleId: string, current: string, parents: seq<string>)
    requires '-' in current
    requires |parents| >= 1 && parents[|parents| - 1] == current
    requires Parents(roleId) == Parents(current) + Reverse(parents)[1..]
    ensures var up := BeforeLast(current, '-');
      Parents(roleId) == Parents(up) + Reverse(parents + [up])[1..]
  {
    var up := BeforeLast(current, '-');
    assert Parents(current) == Parents(up) + [current];
    ReverseSnoc(parents, up);
    DropHead(up, Reverse(parents));
    ReverseLast(parents);
    ConcatAssoc(Parents(up), [current], Reverse(parents)[1..]);
  }

  /** When the loop stops, the reversed list is the whole chain. */
  lemma {:induction false} ParentsWalkDone(roleId: string, current: string, parents: seq<string>)
    requires '-' !in current
    requires |parents| >= 1 && parents[|parents| - 1] == current
    requires Parents(roleId) == Parents(current) + Reverse(parents)[1..]
    ensures Reverse(parents) == Parents(roleId)
  {
    assert Parents(current) == [current];
    ReverseLast(parents);
  }

  /** One ancestor per segment: the `k`-th is the first `k + 1` segments
      joined by `-`. */
  lemma {:induction false} ParentsArePrefixes(roleId: string)
    ensures |Parents(roleId)| == |Split(roleId, '-')|
    ensures forall k :: 0 <= k < |Parents(roleId)| ==>
      Parents(roleId)[k] == Join(Split(roleId, '-')[..k + 1], '-')
    decreases |roleId|
  {
    var segs := Split(roleId, '-');
    JoinSplit(roleId, '-');
    if '-' in roleId {
      var up := BeforeLast(roleId, '-');
      SplitLast(roleId, '-');
      ParentsArePrefixes(up);
      PrefixesStep(Parents(up), Split(up, '-'), roleId[LastIndex(roleId, '-') + 1..], roleId);
    } else {
      assert segs[..1] == segs;
    }
  }

  /** The inductive step of `ParentsArePrefixes`, on plain sequences. */
  lemma {:induction false} PrefixesStep(q: seq<string>, upSegs: seq<string>, last: string, roleId: string)
    requires |q| == |upSegs|
    requires forall k :: 0 <= k < |q| ==> q[k] == Join(upSegs[..k + 1], '-')
    requires Join(upSegs + [last], '-') == roleId
    ensures forall k :: 0 <= k < |q| + 1 ==> (q + [roleId])[k] == Join((upSegs + [last])[..k + 1], '-')
  {
    var segs := upSegs + [last];
    forall k | 0 <= k < |q| + 1
      ensures (q + [roleId])[k] == Join(segs[..k + 1], '-')
    {
      if k < |q| {
        PrefixOfSnoc(upSegs, last, k + 1);
      } else {
        assert segs[..k + 1] == segs;
      }
    }
  }

  lemma PrefixOfSnoc(a: seq<string>, x: string, k: nat)
    requires k <= |a|
    ensures (a + [x])[..k] == a[..k]
  {
  }

  /** Each ancestor is the next one without its last segment, and the
      first has a single segment. */
  lemma {:induction false} ParentsStepUp(roleId: string)
    ensures '-' !in Parents(roleId)[0]
    ensures forall k :: 1 <= k < |Parents(roleId)| ==>
      '-' in Parents(roleId)[k] && Parents(roleId)[k - 1] == BeforeLast(Parents(roleId)[k], '-')
    decreases |roleId|
  {
    if '-' in roleId {
      var up := BeforeLast(roleId, '-');
      ParentsStepUp(up);
      var p := Parents(roleId);
      var q := Parents(up);
      assert p == q + [roleId];
      forall k | 1 <= k < |p|
        ensures '-' in p[k] && p[k - 1] == BeforeLast(p[k], '-')
      {
        if k < |q| {
          assert p[k - 1] == q[k - 1] && p[k] == q[k];
        } else {
          assert p[k - 1] == q[|q| - 1] == up;
        }
      }
    }
  }

  // ----- do_create_role -----

  /** The characters `do_create_role` accepts in a fragment. */
  const FragmentChars: set<char> := set c | 'a' <= c <= 'z'

  /** The new id: the fragment alone, or appended to the parent with `-`. */
  function ComposeRoleId(fragment: string, parent: Option<string>): (r: string)
    ensures parent.None? ==> r == fragment
    ensures parent.Some? ==> |r| == |parent.value| + 1 + |fragment|
  {
    if parent.None? then fragment else parent.value + "-" + fragment
  }

  /** The id check of `do_create_role`, then the composition. */
  method NewRoleId(fragment: string, parent: Option<string>) returns (r: Result<string, Failure>)
    ensures r.Ok? <==> forall i :: 0 <= i < |fragment| ==> fragment[i] in FragmentChars
    ensures r.Ok? ==> r.value == ComposeRoleId(fragment, parent)
    ensures r.Err? ==>
      exists i :: 0 <= i < |fragment| && r == Err(BadCharacter(fragment[i])) &&
        fragment[i] !in FragmentChars && forall j :: 0 <= j < i ==> fragment[j] in FragmentChars
  {
    var bad := FirstOutside(fragment, FragmentChars);
    if bad.Some? {
      return Err(BadCharacter(fragment[bad.value]));
    }
    r := Ok(ComposeRoleId(fragment, parent));
  }

  /** The new role's parent role is the one it was created under. */
  lemma {:induction false} ComposedParent(fragment: string, parent: Option<string>)
    requires forall i :: 0 <= i < |fragment| ==> fragment[i] in FragmentChars
    ensures ParentId(ComposeRoleId(fragment, parent)) == parent
  {
    assert '-' !in FragmentChars;
    if parent.Some? {
      var r := ComposeRoleId(fragment, parent);
      LastIndexOfJoined(parent.value, '-', fragment);
      assert r == parent.value + ['-'] + fragment;
      assert r[..|parent.value|] == parent.value;
    }
  }

  /** Its breadcrumbs are the parent's with the new id appended. */
  lemma {:induction false} ComposedParents(fragment: string, parent: string)
    requires forall i :: 0 <= i < |fragment| ==> fragment[i] in FragmentChars
    ensures Parents(ComposeRoleId(fragment, Some(parent))) == Parents(parent) + [ComposeRoleId(fragment, Some(parent))]
  {
    ComposedParent(fragment, Some(parent));
  }

  /** Its entry sits directly below the parent role's entry. */
  lemma {:induction false} ComposedDn(suffix: string, fragment: string, parent: Option<string>)
    requires forall i :: 0 <= i < |fragment| ==> fragment[i] in FragmentChars
    requires parent.Some? ==> ',' !in parent.value
    ensures ParentDn(RoleDnOf(suffix, Some(ComposeRoleId(fragment, parent)))) == Some(RoleDnOf(suffix, parent))
  {
    assert ',' !in FragmentChars;
    ComposedParent(fragment, parent);
    ParentOfRoleDn(suffix, ComposeRoleId(fragment, parent));
  }

  // ----- delete_role -----

  /** `'-'.join(role_id.split('-')[:-1])`: the parent id of a nested role,
      or "" (the root listing) for a top-level one. */
  function RedirectParentId(roleId: string): (r: string)
    ensures '-' in roleId ==> ParentId(roleId) == Some(r)
    ensures '-' !in roleId ==> r == ""
  {
    var segs := Split(roleId, '-');
    InitSegmentsJoined(roleId);
    Join(segs[..|segs| - 1], '-')
  }

  /** All segments but the last, joined again, give the text before the
      last `-`. */
  lemma {:induction false} InitSegmentsJoined(roleId: string)
    ensures var segs := Split(roleId, '-');
      Join(segs[..|segs| - 1], '-') == if '-' in roleId then BeforeLast(roleId, '-') else ""
  {
    var segs := Split(roleId, '-');
    if '-' in roleId {
      var up := BeforeLast(roleId, '-');
      SplitLast(roleId, '-');
      assert segs[..|segs| - 1] == Split(up, '-');
      JoinSplit(up, '-');
    } else {
      assert segs[..|segs| - 1] == [];
    }
  }
}
