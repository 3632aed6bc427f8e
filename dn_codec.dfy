/** The agent's DN codecs (`_role_dn`/`_role_id`, `_user_dn`/`_user_id`,
    `_org_dn`/`_org_id`) and the hierarchy facts they encode.

    A role id is a `-`-separated list of segments, or None for the root of
    the roles tree. Its DN nests one `cn=` component per prefix of the id,
    innermost (longest) first:
      `eionet-nfp-mc` -> `cn=eionet-nfp-mc,cn=eionet-nfp,cn=eionet,<roles suffix>`. */
module DnCodec {
  import opened Wrappers
  import opened Text
  import opened Errors
  import opened Directory

  const DefaultUsersDn := "ou=Users,o=EIONET,l=Europe"
  const DefaultOrgsDn := "ou=Organisations,o=EIONET,l=Europe"
  const DefaultRolesDn := "ou=Roles,o=EIONET,l=Europe"

  /** `role_id.split('-')`, and no segments for the root. */
  function Segments(roleId: Option<string>): seq<string> {
    if roleId.None? then [] else Split(roleId.value, '-')
  }

  /** The component naming the ancestor made of the first `k` segments. */
  function Rdn(segs: seq<string>, k: nat): string
    requires 1 <= k <= |segs|
  {
    "cn=" + Join(segs[..k], '-')
  }

  /** The text the `_role_dn` loop has produced once it has emitted the
      components for prefixes `c` down to 1: each followed by a comma. */
  function DnStart(segs: seq<string>, c: nat): string
    requires c <= |segs|
  {
    if c == 0 then "" else Rdn(segs, c) + "," + DnStart(segs, c - 1)
  }

  /** The DN of a role: its components, then the roles suffix; the root
      is the suffix itself. */
  function RoleDnOf(suffix: string, roleId: Option<string>): (r: string)
    ensures roleId.None? <==> r == suffix
  {
    var segs := Segments(roleId);
    DnStart(segs, |segs|) + suffix
  }

  /** `_role_dn`: builds the DN with the source's loop. */
  method RoleDn(suffix: string, roleId: Option<string>) returns (dn: string)
    ensures dn == RoleDnOf(suffix, roleId)
  {
    var bits := if roleId.None? then [] else Split(roleId.value, '-');
    var dnStart := "";
    var c := |bits|;
    while c > 0
      invariant 0 <= c <= |bits|
      invariant dnStart + DnStart(bits, c) == DnStart(bits, |bits|)
    {
      dnStart := dnStart + Rdn(bits, c) + ",";
      c := c - 1;
    }
    dn := dnStart + suffix;
  }

  /** One pass of the `_role_id` loop: the name carried by component `bit`
      when the previous component named `current`, or None when one of the
      loop's assertions fails. */
  function NextName(bit: string, current: Option<string>): Option<string> {
    if !StartsWith(bit, "cn=") then None
    else
      var name := bit[3..];
      match current
      case None => if '-' in name then None else Some(name)
      case Some(p) =>
        if StartsWith(name, p + "-") && '-' !in name[|p| + 1..] then Some(name) else None
  }

  /** The `_role_id` loop over the remaining components, outermost first. */
  function DecodeChain(bits: seq<string>, current: Option<string>): Result<Option<string>, Failure>
    decreases |bits|
  {
    if bits == [] then Ok(current)
    else
      match NextName(bits[0], current)
      case None => Err(BadDn)
      case Some(name) => DecodeChain(bits[1..], Some(name))
  }

  /** The role id of a DN, refusing any DN that is not under the suffix or
      whose components do not nest one segment at a time. */
  function RoleIdOf(suffix: string, dn: string): (r: Result<Option<string>, Failure>)
    ensures r == Ok(None) <==> dn == suffix
    ensures r.Ok? ==> dn == suffix || EndsWith(dn, "," + suffix)
  {
    if dn == suffix then Ok(None)
    else if !EndsWith(dn, "," + suffix) then Err(BadDn)
    else
      var bits := Reverse(Split(dn[..|dn| - |suffix| - 1], ','));
      DecodeNonEmpty(bits);
      DecodeChain(bits, None)
  }

  lemma DecodeNonEmpty(bits: seq<string>)
    requires |bits| >= 1
    ensures DecodeChain(bits, None) != Ok(None)
  {
    DecodeChainSome(bits[1..], NextName(bits[0], None));
  }

  lemma {:induction false} DecodeChainSome(bits: seq<string>, current: Option<string>)
    ensures current.Some? && DecodeChain(bits, current).Ok? ==> DecodeChain(bits, current).value.Some?
    decreases |bits|
  {
    if bits != [] {
      var next := NextName(bits[0], current);
      if next.Some? {
        DecodeChainSome(bits[1..], next);
      }
    }
  }

  /** `_role_id`: decodes the DN with the source's loop. */
  method RoleId(suffix: string, dn: string) returns (r: Result<Option<string>, Failure>)
    ensures r == RoleIdOf(suffix, dn)
  {
    if dn == suffix {
      return Ok(None);
    }
    if !EndsWith(dn, "," + suffix) {
      return Err(BadDn);
    }
    var bits := Split(dn[..|dn| - |suffix| - 1], ',');
    bits := Reverse(bits);
    var current: Option<string> := None;
    var i := 0;
    while i < |bits|
      invariant 0 <= i <= |bits|
      invariant DecodeChain(bits[i..], current) == DecodeChain(bits, None)
    {
      var next := NextName(bits[i], current);
      if next.None? {
        return Err(BadDn);
      }
      assert bits[i..][1..] == bits[i + 1..];
      current := next;
      i := i + 1;
    }
    r := Ok(current);
  }

  // ----- Role DN algebra -----

  /** The components of a role DN, outermost first: the order in which
      `_role_id` visits them. */
  function Asc(segs: seq<string>): (r: seq<string>)
    ensures |r| == |segs|
    ensures forall i :: 0 <= i < |segs| ==> r[i] == Rdn(segs, i + 1)
  {
    seq(|segs|, i requires 0 <= i < |segs| => Rdn(segs, i + 1))
  }

  /** The role id of a non-root role without its last segment; None for a
      top-level role. */
  function ParentId(roleId: string): (r: Option<string>)
    ensures r.Some? ==> |r.value| < |roleId|
  {
    if '-' in roleId then Some(BeforeLast(roleId, '-')) else None
  }

  lemma {:induction false} DnStartJoin(segs: seq<string>, c: nat)
    requires 1 <= c <= |segs|
    ensures DnStart(segs, c) == Join(Reverse(Asc(segs)[..c]), ',') + ","
    decreases c
  {
    var R := Reverse(Asc(segs)[..c]);
    if c == 1 {
      assert R == [Rdn(segs, 1)];
    } else {
      DnStartJoin(segs, c - 1);
      var R' := Reverse(Asc(segs)[..c - 1]);
      assert R == [Rdn(segs, c)] + R';
      JoinConcat([Rdn(segs, c)], R', ',');
    }
  }

  /** The name of every ancestor is a prefix of the role id. */
  lemma {:induction false} NamePrefix(segs: seq<string>, k: nat)
    requires 1 <= k <= |segs|
    ensures Join(segs[..k], '-') <= Join(segs, '-')
  {
    if k < |segs| {
      JoinConcat(segs[..k], segs[k..], '-');
      assert segs[..k] + segs[k..] == segs;
      var p := Join(segs[..k], '-');
      assert Join(segs, '-') == p + (['-'] + Join(segs[k..], '-'));
    } else {
      assert segs[..k] == segs;
    }
  }

  lemma PrefixKeepsAbsent(p: string, s: string, ch: char)
    requires p <= s && ch !in s
    ensures ch !in p
  {
  }

  /** Decoding the components of a well-formed role DN from the `k`-th one
      on yields the full id. */
  lemma {:induction false} DecodeAsc(segs: seq<string>, k: nat)
    requires 1 <= k <= |segs|
    requires forall i :: 0 <= i < |segs| ==> '-' !in segs[i]
    ensures DecodeChain(Asc(segs)[k..], Some(Join(segs[..k], '-'))) == Ok(Some(Join(segs, '-')))
    decreases |segs| - k
  {
    if k == |segs| {
      assert Asc(segs)[k..] == [];
      assert segs[..k] == segs;
    } else {
      var p := Join(segs[..k], '-');
      var bit := Asc(segs)[k];
      assert segs[..k + 1] == segs[..k] + [segs[k]];
      JoinAppend(segs[..k], segs[k], '-');
      var name := Join(segs[..k + 1], '-');
      assert name == p + "-" + segs[k];
      assert bit == "cn=" + name;
      assert bit[3..] == name;
      assert name[|p| + 1..] == segs[k];
      assert NextName(bit, Some(p)) == Some(name);
      assert Asc(segs)[k..][1..] == Asc(segs)[k + 1..];
      DecodeAsc(segs, k + 1);
    }
  }

  /** The DN of a role is the comma-join of its components, innermost
      first, followed by the suffix. */
  lemma {:induction false} RoleDnComponents(suffix: string, x: string)
    ensures RoleDnOf(suffix, Some(x)) == Join(Reverse(Asc(Split(x, '-'))), ',') + "," + suffix
  {
    var segs := Split(x, '-');
    DnStartJoin(segs, |segs|);
    assert Asc(segs)[..|segs|] == Asc(segs);
  }

  lemma {:induction false} ComponentsCommaFree(x: string)
    requires ',' !in x
    ensures forall i :: 0 <= i < |Asc(Split(x, '-'))| ==> ',' !in Asc(Split(x, '-'))[i]
  {
    var segs := Split(x, '-');
    JoinSplit(x, '-');
    forall i | 0 <= i < |segs|
      ensures ',' !in Asc(segs)[i]
    {
      NamePrefix(segs, i + 1);
      PrefixKeepsAbsent(Join(segs[..i + 1], '-'), x, ',');
    }
  }

  /** `_role_id` on a comma-join of comma-free components decodes them
      outermost first. */
  lemma {:induction false} RoleIdOfJoined(suffix: string, R: seq<string>)
    requires |R| >= 1
    requires forall i :: 0 <= i < |R| ==> ',' !in R[i]
    ensures RoleIdOf(suffix, Join(R, ',') + "," + suffix) == DecodeChain(Reverse(R), None)
  {
    var start := Join(R, ',');
    var dn := start + "," + suffix;
    assert dn[|dn| - |suffix| - 1..] == "," + suffix;
    assert dn[..|dn| - |suffix| - 1] == start;
    SplitJoin(R, ',');
  }

  lemma {:induction false} DecodeComponents(x: string)
    ensures DecodeChain(Asc(Split(x, '-')), None) == Ok(Some(x))
  {
    var segs := Split(x, '-');
    JoinSplit(x, '-');
    assert segs[..1] == [segs[0]];
    assert Asc(segs)[0] == "cn=" + segs[0];
    assert Asc(segs)[0][3..] == segs[0];
    assert NextName(Asc(segs)[0], None) == Some(segs[0]);
    DecodeAsc(segs, 1);
  }

  /** Round trip, encode then decode: `_role_id(_role_dn(x)) == x` for every
      id free of commas, and the root maps to the bare suffix and back. */
  lemma {:induction false} RoleIdOfRoleDn(suffix: string, roleId: Option<string>)
    requires roleId.Some? ==> ',' !in roleId.value
    ensures RoleIdOf(suffix, RoleDnOf(suffix, roleId)) == Ok(roleId)
  {
    if roleId.Some? {
      var x := roleId.value;
      var A := Asc(Split(x, '-'));
      RoleDnComponents(suffix, x);
      ComponentsCommaFree(x);
      RoleIdOfJoined(suffix, Reverse(A));
      ReverseReverse(A);
      DecodeComponents(x);
    } else {
      assert RoleDnOf(suffix, None) == suffix;
    }
  }

  lemma {:induction false} AscAppend(segs: seq<string>, t: string)
    requires |segs| >= 1
    ensures Asc(segs + [t]) == Asc(segs) + ["cn=" + Join(segs + [t], '-')]
  {
    var s' := segs + [t];
    forall i | 0 <= i < |segs|
      ensures Asc(s')[i] == Asc(segs)[i]
    {
      assert s'[..i + 1] == segs[..i + 1];
    }
    assert s'[..|s'|] == s';
  }

  lemma {:induction false} DecodeChainAppend(bits: seq<string>, b: string, current: Option<string>)
    ensures DecodeChain(bits + [b], current) ==
      match DecodeChain(bits, current)
      case Err(e) => Err(e)
      case Ok(v) => (match NextName(b, v) case None => Err(BadDn) case Some(name) => Ok(Some(name)))
    decreases |bits|
  {
    if bits == [] {
      assert [] + [b] == [b];
      assert [b][1..] == [];
    } else {
      assert (bits + [b])[1..] == bits[1..] + [b];
      var next := NextName(bits[0], current);
      if next.Some? {
        DecodeChainAppend(bits[1..], b, next);
      }
    }
  }

  /** Whatever `_role_id` accepts is exactly the component list of its result. */
  lemma {:induction false} DecodeChainShape(bits: seq<string>, x: string)
    requires DecodeChain(bits, None) == Ok(Some(x))
    ensures bits == Asc(Split(x, '-'))
    decreases |bits|
  {
    assert bits != [];
    var init, b := bits[..|bits| - 1], bits[|bits| - 1];
    assert bits == init + [b];
    DecodeChainAppend(init, b, None);
    if init == [] {
      assert NextName(b, None) == Some(x);
      assert b == "cn=" + x;
      assert Split(x, '-') == [x];
      assert Asc([x]) == ["cn=" + x];
    } else {
      DecodeNonEmpty(init);
      var y := DecodeChain(init, None).value.value;
      DecodeChainShape(init, y);
      assert NextName(b, Some(y)) == Some(x);
      var t := x[|y| + 1..];
      assert x == y + "-" + t;
      assert b == "cn=" + x;
      SplitAtLast(y, '-', t);
      AscAppend(Split(y, '-'), t);
      JoinSplit(x, '-');
    }
  }

  /** The id `_role_id` returns is the name in the innermost component. */
  lemma {:induction false} DecodedIdCommaFree(suffix: string, dn: string)
    requires RoleIdOf(suffix, dn).Ok? && dn != suffix
    ensures var start := dn[..|dn| - |suffix| - 1];
      RoleIdOf(suffix, dn).value.Some? &&
      Reverse(Split(start, ',')) == Asc(Split(RoleIdOf(suffix, dn).value.value, '-')) &&
      ',' !in RoleIdOf(suffix, dn).value.value
  {
    var start := dn[..|dn| - |suffix| - 1];
    var raw := Split(start, ',');
    var bits := Reverse(raw);
    DecodeNonEmpty(bits);
    var x := DecodeChain(bits, None).value.value;
    DecodeChainShape(bits, x);
    var segs := Split(x, '-');
    var n := |segs|;
    JoinSplit(x, '-');
    assert segs[..n] == segs;
    assert bits[n - 1] == "cn=" + x;
    assert raw[0][3..] == x;
    PrefixKeepsAbsent(x, x, ',');
  }

  lemma {:induction false} EncodeDecodedComponents(suffix: string, dn: string, x: string)
    requires |"," + suffix| <= |dn| && dn[|dn| - |suffix| - 1..] == "," + suffix
    requires Reverse(Split(dn[..|dn| - |suffix| - 1], ',')) == Asc(Split(x, '-'))
    ensures RoleDnOf(suffix, Some(x)) == dn
  {
    var start := dn[..|dn| - |suffix| - 1];
    var raw := Split(start, ',');
    RoleDnComponents(suffix, x);
    ReverseReverse(raw);
    JoinSplit(start, ',');
    assert dn == start + ("," + suffix);
  }

  /** Round trip, decode then encode: every DN `_role_id` accepts is the
      `_role_dn` of the id it returns, and that id is free of commas. */
  lemma {:induction false} RoleDnOfRoleIdOf(suffix: string, dn: string)
    requires RoleIdOf(suffix, dn).Ok?
    ensures var r := RoleIdOf(suffix, dn).value;
      (r.Some? ==> ',' !in r.value) && RoleDnOf(suffix, r) == dn
  {
    if dn != suffix {
      DecodedIdCommaFree(suffix, dn);
      EncodeDecodedComponents(suffix, dn, RoleIdOf(suffix, dn).value.value);
    } else {
      assert RoleDnOf(suffix, None) == suffix;
    }
  }

  /** `_role_id` accepts a DN exactly when it is the DN of some comma-free
      role id (or of the root). */
  lemma {:induction false} RoleIdAccepts(suffix: string, dn: string)
    ensures RoleIdOf(suffix, dn).Ok? <==>
      exists r: Option<string> :: (r.Some? ==> ',' !in r.value) && dn == RoleDnOf(suffix, r)
  {
    if RoleIdOf(suffix, dn).Ok? {
      RoleDnOfRoleIdOf(suffix, dn);
    }
    if exists r: Option<string> :: (r.Some? ==> ',' !in r.value) && dn == RoleDnOf(suffix, r) {
      var r: Option<string> :| (r.Some? ==> ',' !in r.value) && dn == RoleDnOf(suffix, r);
      RoleIdOfRoleDn(suffix, r);
    }
  }

  /** A component that skips a level is refused: `cn=a-b,<suffix>` lacks
      `cn=a` between it and the suffix. */
  lemma {:induction false} RoleIdRejectsSkippedLevel(suffix: string, name: string)
    requires ',' !in name && '-' in name
    ensures RoleIdOf(suffix, "cn=" + name + "," + suffix).Err?
  {
    var dn := "cn=" + name + "," + suffix;
    assert dn[|dn| - |suffix| - 1..] == "," + suffix;
    assert dn[..|dn| - |suffix| - 1] == "cn=" + name;
    assert Split("cn=" + name, ',') == ["cn=" + name];
    assert Reverse(["cn=" + name]) == ["cn=" + name];
    assert ("cn=" + name)[3..] == name;
  }

  lemma {:induction false} DnStartPrefix(segs: seq<string>, segs': seq<string>, c: nat)
    requires c <= |segs| && c <= |segs'| && segs[..c] == segs'[..c]
    ensures DnStart(segs, c) == DnStart(segs', c)
    decreases c
  {
    if c > 0 {
      assert segs[..c - 1] == segs'[..c - 1] by {
        assert segs[..c - 1] == segs[..c][..c - 1];
        assert segs'[..c - 1] == segs'[..c][..c - 1];
      }
      DnStartPrefix(segs, segs', c - 1);
    }
  }

  /** The outermost component of a role's DN names the role itself. */
  lemma {:induction false} RoleDnHead(suffix: string, x: string)
    ensures var segs := Split(x, '-');
      RoleDnOf(suffix, Some(x)) == "cn=" + x + "," + DnStart(segs, |segs| - 1) + suffix
  {
    var segs := Split(x, '-');
    JoinSplit(x, '-');
    DnStartTop(segs);
    var t := DnStart(segs, |segs| - 1);
    assert DnStart(segs, |segs|) == "cn=" + x + "," + t;
  }

  /** The outermost component names the whole segment list. */
  lemma {:induction false} DnStartTop(segs: seq<string>)
    requires |segs| >= 1
    ensures DnStart(segs, |segs|) == "cn=" + Join(segs, '-') + "," + DnStart(segs, |segs| - 1)
  {
    assert segs[..|segs|] == segs;
  }

  lemma {:induction false} ParentSegments(x: string)
    requires '-' in x
    ensures var segs := Split(x, '-');
      Segments(ParentId(x)) == segs[..|segs| - 1]
  {
    SplitLast(x, '-');
  }

  /** The parent's DN is what follows the outermost component. */
  lemma {:induction false} ParentDnStart(suffix: string, x: string)
    ensures var segs := Split(x, '-');
      RoleDnOf(suffix, ParentId(x)) == DnStart(segs, |segs| - 1) + suffix
  {
    var segs := Split(x, '-');
    var n := |segs|;
    if '-' in x {
      ParentSegments(x);
      var ys := Segments(ParentId(x));
      assert ys[..n - 1] == segs[..n - 1];
      DnStartPrefix(segs, ys, n - 1);
    } else {
      assert n == 1;
    }
  }

  /** A role's DN is its own component followed by its parent role's DN. */
  lemma {:induction false} RoleDnParent(suffix: string, x: string)
    ensures RoleDnOf(suffix, Some(x)) == "cn=" + x + "," + RoleDnOf(suffix, ParentId(x))
  {
    var segs := Split(x, '-');
    RoleDnHead(suffix, x);
    ParentDnStart(suffix, x);
    ConcatAssoc("cn=" + x + ",", DnStart(segs, |segs| - 1), suffix);
  }

  /** The directory parent of a role's DN is the DN of its parent role. */
  lemma {:induction false} ParentOfRoleDn(suffix: string, x: string)
    requires ',' !in x
    ensures ParentDn(RoleDnOf(suffix, Some(x))) == Some(RoleDnOf(suffix, ParentId(x)))
  {
    RoleDnParent(suffix, x);
    AfterFirstOfJoined("cn=" + x, ',', RoleDnOf(suffix, ParentId(x)));
  }

  lemma {:induction false} LongerNameSortsAfter(h: string, w: string, restX: string, restY: string)
    ensures Less(h + "," + restX, h + "-" + w + "," + restY)
  {
    assert h + "," + restX == h + [','] + restX;
    assert h + "-" + w + "," + restY == h + ['-'] + (w + "," + restY);
    LessAfterCommonPrefix(h, ',', restX, '-', w + "," + restY);
  }

  /** A descendant's DN sorts after its ancestor's: the two agree up to the
      end of the ancestor's id, where the descendant has '-' and the
      ancestor ',', and ',' < '-'. */
  lemma {:induction false} DescendantDnSortsAfter(suffix: string, x: string, w: string)
    ensures Less(RoleDnOf(suffix, Some(x)), RoleDnOf(suffix, Some(x + "-" + w)))
  {
    var y := x + "-" + w;
    RoleDnParent(suffix, x);
    RoleDnParent(suffix, y);
    ConcatAssoc("cn=", x, "-");
    ConcatAssoc("cn=", x + "-", w);
    LongerNameSortsAfter("cn=" + x, w, RoleDnOf(suffix, ParentId(x)), RoleDnOf(suffix, ParentId(y)));
  }

  /** Distinct comma-free role ids have distinct DNs. */
  lemma {:induction false} RoleDnInjective(suffix: string, a: Option<string>, b: Option<string>)
    requires a.Some? ==> ',' !in a.value
    requires b.Some? ==> ',' !in b.value
    requires RoleDnOf(suffix, a) == RoleDnOf(suffix, b)
    ensures a == b
  {
    RoleIdOfRoleDn(suffix, a);
    RoleIdOfRoleDn(suffix, b);
  }

  /** A nested id is its parent id, `-`, and its last segment. */
  lemma {:induction false} ParentIdJoin(y: string, x: string)
    requires ParentId(y) == Some(x)
    ensures '-' in y && y == x + "-" + y[LastIndex(y, '-') + 1..]
  {
    var i := LastIndex(y, '-');
    assert y == y[..i] + "-" + y[i + 1..];
  }

  /** The id of a role DN that is not the root. */
  lemma {:induction false} RoleIdOfNonRoot(suffix: string, dn: string)
    requires RoleIdOf(suffix, dn).Ok? && RoleIdOf(suffix, dn).value.Some?
    ensures var x := RoleIdOf(suffix, dn).value.value;
      ',' !in x && dn == RoleDnOf(suffix, Some(x)) && |dn| > |suffix|
  {
    RoleDnOfRoleIdOf(suffix, dn);
  }

  /** A role entry sorts after the role entry directly above it, so a
      descending sort lists children before parents. */
  lemma {:induction false} ChildDnSortsAfter(suffix: string, p: string, c: string)
    requires RoleIdOf(suffix, p).Ok? && RoleIdOf(suffix, p).value.Some?
    requires RoleIdOf(suffix, c).Ok?
    requires ParentDn(c) == Some(p)
    ensures Less(p, c)
  {
    RoleIdOfNonRoot(suffix, p);
    var x := RoleIdOf(suffix, p).value.value;
    if RoleIdOf(suffix, c).value.None? {
      assert false;
    }
    RoleIdOfNonRoot(suffix, c);
    var y := RoleIdOf(suffix, c).value.value;
    ParentOfRoleDn(suffix, y);
    if ParentId(y).Some? {
      PrefixKeepsAbsent(ParentId(y).value, y, ',');
    }
    RoleDnInjective(suffix, ParentId(y), Some(x));
    ParentIdJoin(y, x);
    DescendantDnSortsAfter(suffix, x, y[LastIndex(y, '-') + 1..]);
  }

  // ----- User and organisation DNs -----

  /** `prefix + id + ',' + suffix`, refusing an id containing ','. */
  function LeafDn(prefix: string, suffix: string, id: string): (r: Result<string, Failure>)
    ensures r.Ok? <==> ',' !in id
  {
    if ',' in id then Err(BadDn) else Ok(prefix + id + "," + suffix)
  }

  /** The id between `prefix` and `,suffix`, with Python's slicing (an
      overlapping slice is empty); refused when either end is missing or the
      id contains ','. */
  function LeafId(prefix: string, suffix: string, dn: string): (r: Result<string, Failure>)
  {
    if !EndsWith(dn, "," + suffix) || !StartsWith(dn, prefix) then Err(BadDn)
    else
      var end := |dn| - |suffix| - 1;
      var id := if |prefix| <= end then dn[|prefix|..end] else "";
      if ',' in id then Err(BadDn) else Ok(id)
  }

  lemma {:induction false} LeafIdOfLeafDn(prefix: string, suffix: string, id: string)
    requires ',' !in id
    ensures LeafId(prefix, suffix, LeafDn(prefix, suffix, id).value) == Ok(id)
  {
    var dn := prefix + id + "," + suffix;
    assert dn[|dn| - |suffix| - 1..] == "," + suffix;
    assert dn[|prefix|..|dn| - |suffix| - 1] == id;
  }

  lemma {:induction false} LeafDnOfLeafId(prefix: string, suffix: string, dn: string)
    requires ',' !in prefix
    requires LeafId(prefix, suffix, dn).Ok?
    ensures LeafDn(prefix, suffix, LeafId(prefix, suffix, dn).value) == Ok(dn)
  {
    var end := |dn| - |suffix| - 1;
    assert dn[end..] == "," + suffix;
    assert dn[end] == ',';
    assert dn[..|prefix|] == prefix;
    if end < |prefix| {
      assert false;
    }
    var id := dn[|prefix|..end];
    assert LeafId(prefix, suffix, dn) == Ok(id);
    assert LeafDn(prefix, suffix, id) == Ok(prefix + id + "," + suffix);
    assert dn == dn[..|prefix|] + dn[|prefix|..end] + dn[end..];
    assert prefix + id + "," + suffix == prefix + id + ("," + suffix);
  }

  /** `_user_dn` */
  function UserDnOf(suffix: string, userId: string): (r: Result<string, Failure>)
    ensures r.Ok? <==> ',' !in userId
  {
    LeafDn("uid=", suffix, userId)
  }

  /** `_user_id` */
  function UserIdOf(suffix: string, dn: string): (r: Result<string, Failure>)
    ensures !StartsWith(dn, "uid=") || !EndsWith(dn, "," + suffix) ==> r == Err(BadDn)
    ensures r.Ok? ==> ',' !in r.value
  {
    LeafId("uid=", suffix, dn)
  }

  /** `_org_dn` */
  function OrgDnOf(suffix: string, orgId: string): (r: Result<string, Failure>)
    ensures r.Ok? <==> ',' !in orgId
  {
    LeafDn("cn=", suffix, orgId)
  }

  /** `_org_id` */
  function OrgIdOf(suffix: string, dn: string): (r: Result<string, Failure>)
    ensures !StartsWith(dn, "cn=") || !EndsWith(dn, "," + suffix) ==> r == Err(BadDn)
    ensures r.Ok? ==> ',' !in r.value
  {
    LeafId("cn=", suffix, dn)
  }

  /** `_user_id(_user_dn(u)) == u`, and `_user_dn` inverts `_user_id` on
      every DN it accepts. */
  lemma UserDnRoundTrip(suffix: string, userId: string, dn: string)
    ensures ',' !in userId ==> UserIdOf(suffix, UserDnOf(suffix, userId).value) == Ok(userId)
    ensures UserIdOf(suffix, dn).Ok? ==> UserDnOf(suffix, UserIdOf(suffix, dn).value) == Ok(dn)
  {
    if ',' !in userId {
      LeafIdOfLeafDn("uid=", suffix, userId);
    }
    if UserIdOf(suffix, dn).Ok? {
      LeafDnOfLeafId("uid=", suffix, dn);
    }
  }

  /** `_org_id(_org_dn(o)) == o`, and `_org_dn` inverts `_org_id` on every
      DN it accepts. */
  lemma OrgDnRoundTrip(suffix: string, orgId: string, dn: string)
    ensures ',' !in orgId ==> OrgIdOf(suffix, OrgDnOf(suffix, orgId).value) == Ok(orgId)
    ensures OrgIdOf(suffix, dn).Ok? ==> OrgDnOf(suffix, OrgIdOf(suffix, dn).value) == Ok(dn)
  {
    if ',' !in orgId {
      LeafIdOfLeafDn("cn=", suffix, orgId);
    }
    if OrgIdOf(suffix, dn).Ok? {
      LeafDnOfLeafId("cn=", suffix, dn);
    }
  }

  /** `_member_dn`: the DN of a user or an organisation. */
  function MemberDnOf(userSuffix: string, orgSuffix: string, kind: string, id: string): (r: Result<string, Failure>)
    ensures kind != "user" && kind != "org" ==> r == Err(UnknownMemberType(kind))
    ensures kind == "user" ==> r == UserDnOf(userSuffix, id)
    ensures kind == "org" ==> r == OrgDnOf(orgSuffix, id)
  {
    if kind == "user" then UserDnOf(userSuffix, id)
    else if kind == "org" then OrgDnOf(orgSuffix, id)
    else Err(UnknownMemberType(kind))
  }
}
