/** The directory the agent talks to, as the agent sees it: a map from DN to
    entry, with the Add, Delete and Modify operations of LDAP (sections 4.7,
    4.8 and 4.6 of RFC 4511) and the result codes of section 4.1.9 that the
    agent reacts to. Only the schema rule the agent depends on is modelled:
    a `groupOfUniqueNames` entry must keep a `uniqueMember` value (section
    3.6 of RFC 4519). */
module Directory {
  import opened Wrappers
  import opened Text

  /** LDAP result codes (section 4.1.9 of RFC 4511). */
  datatype ResultCode =
    | Success
    | NoSuchAttribute          // 16
    | AttributeOrValueExists   // 20
    | NoSuchObject             // 32
    | InvalidCredentials       // 49
    | ObjectClassViolation     // 65
    | NotAllowedOnNonLeaf      // 66
    | EntryAlreadyExists       // 68

  const GroupClass := "groupOfUniqueNames"
  const MemberAttr := "uniqueMember"

  /** A directory entry: its object classes, the values of its
      `uniqueMember` attribute, and its other (single-valued) text
      attributes. An entry without `uniqueMember` has `members == {}`. */
  datatype Entry = Entry(objectClass: seq<string>, members: set<string>, text: map<string, string>)
  {
    predicate IsGroup() {
      GroupClass in objectClass
    }
  }

  datatype ModOp = ModAdd | ModDelete | ModReplace

  /** One modification of a Modify request, carrying one value, as every
      request the agent builds does. */
  datatype Change = Change(op: ModOp, attr: string, value: string)

  type Entries = map<string, Entry>

  /** An Add of a `uniqueMember` value that is already present is refused
      with one of two codes, and which one is not specified; the model
      fixes one code per server. */
  datatype Flavour = ReportsValueExists | ReportsClassViolation
  {
    function DuplicateCode(): (code: ResultCode)
      ensures code == AttributeOrValueExists || code == ObjectClassViolation
    {
      if ReportsValueExists? then AttributeOrValueExists else ObjectClassViolation
    }
  }

  /** The DN of the entry immediately above `dn`; None for a top-level DN. */
  function ParentDn(dn: string): Option<string> {
    if ',' in dn then Some(AfterFirst(dn, ',')) else None
  }

  /** `dn` is `base` or lies below it. */
  predicate InSubtree(dn: string, base: string) {
    dn == base || EndsWith(dn, "," + base)
  }

  /** An entry's parent DN is the text after its first comma, so the entry
      lies directly below it. */
  lemma ParentInSubtree(c: string, p: string)
    requires ParentDn(c) == Some(p)
    ensures InSubtree(c, p) && c != p
  {
    var i := FirstIndex(c, ',');
    assert c[|c| - |p| - 1..] == "," + p;
  }

  /** Walking one level up from a proper descendant of `p` stays in the
      subtree of `p`. */
  lemma {:induction false} InSubtreeParent(c: string, p: string)
    requires InSubtree(c, p) && c != p
    ensures ',' in c && InSubtree(AfterFirst(c, ','), p)
  {
    var k := |c| - |p| - 1;
    assert c[k..] == "," + p;
    assert c[k] == ',';
    var i := FirstIndex(c, ',');
    var q := AfterFirst(c, ',');
    if i < k {
      assert q[|q| - |p| - 1..] == c[k..];
    } else {
      assert q == c[k + 1..];
    }
  }

  lemma {:induction false} InSubtreeTransitive(a: string, b: string, c: string)
    requires InSubtree(a, b) && InSubtree(b, c)
    ensures InSubtree(a, c)
  {
    if a != b && b != c {
      assert a[|a| - |c| - 1..] == b[|b| - |c| - 1..];
    }
  }

  /** The DNs above an entry's parent are above the entry. */
  lemma ParentAncestors(c: string)
    requires ',' in c
    ensures forall d :: InSubtree(AfterFirst(c, ','), d) ==> InSubtree(c, d)
  {
    var p := AfterFirst(c, ',');
    forall d | InSubtree(p, d)
      ensures InSubtree(c, d)
    {
      ParentInSubtree(c, p);
      InSubtreeTransitive(c, p, d);
    }
  }

  /** A suffix of an ancestor's DN is a suffix of the descendant's. */
  lemma EndsWithAncestor(c: string, d: string, s: string)
    requires InSubtree(c, d) && EndsWith(d, s)
    ensures EndsWith(c, s)
  {
    if c != d {
      assert c[|c| - |s|..] == d[|d| - |s|..];
    }
  }

  /** One modification applied to one entry. */
  function ApplyChange(e: Entry, ch: Change, flavour: Flavour): (r: Result<Entry, ResultCode>)
    ensures r.Ok? ==> r.value.objectClass == e.objectClass
    ensures r.Err? ==> r.error != Success
    ensures r.Ok? && e.IsGroup() && e.members != {} ==> r.value.members != {}
    ensures r.Ok? && ch.attr != MemberAttr ==> r.value.members == e.members
    ensures r.Ok? && ch.attr == MemberAttr ==> r.value.text == e.text
  {
    if ch.attr == MemberAttr then
      match ch.op
      case ModAdd =>
        if !e.IsGroup() then Err(ObjectClassViolation)
        else if ch.value in e.members then Err(flavour.DuplicateCode())
        else Ok(e.(members := e.members + {ch.value}))
      case ModDelete =>
        if ch.value !in e.members then Err(NoSuchAttribute)
        else if e.IsGroup() && e.members == {ch.value} then Err(ObjectClassViolation)
        else Ok(e.(members := e.members - {ch.value}))
      case ModReplace =>
        if !e.IsGroup() then Err(ObjectClassViolation)
        else Ok(e.(members := {ch.value}))
    else
      match ch.op
      case ModAdd =>
        if ch.attr in e.text then Err(AttributeOrValueExists)
        else Ok(e.(text := e.text[ch.attr := ch.value]))
      case ModDelete =>
        if ch.attr !in e.text || e.text[ch.attr] != ch.value then Err(NoSuchAttribute)
        else Ok(e.(text := e.text - {ch.attr}))
      case ModReplace =>
        Ok(e.(text := e.text[ch.attr := ch.value]))
  }

  /** The modifications of one request, in order; the first failure aborts
      the whole request (a Modify is atomic, section 4.6 of RFC 4511). */
  function ApplyChanges(e: Entry, changes: seq<Change>, flavour: Flavour): (r: Result<Entry, ResultCode>)
    ensures r.Ok? ==> r.value.objectClass == e.objectClass
    ensures r.Err? ==> r.error != Success
    ensures r.Ok? && e.IsGroup() && e.members != {} ==> r.value.members != {}
    decreases |changes|
  {
    if changes == [] then Ok(e)
    else
      match ApplyChange(e, changes[0], flavour)
      case Err(code) => Err(code)
      case Ok(e1) => ApplyChanges(e1, changes[1..], flavour)
  }

  lemma {:induction false} ApplyChangesConcat(e: Entry, a: seq<Change>, b: seq<Change>, flavour: Flavour)
    ensures ApplyChanges(e, a + b, flavour) ==
      match ApplyChanges(e, a, flavour)
      case Err(code) => Err(code)
      case Ok(e1) => ApplyChanges(e1, b, flavour)
    decreases |a|
  {
    if a == [] {
      assert a + b == b;
    } else {
      assert (a + b)[1..] == a[1..] + b;
      match ApplyChange(e, a[0], flavour)
      case Err(code) =>
      case Ok(e1) => ApplyChangesConcat(e1, a[1..], b, flavour);
    }
  }

  /** A Modify request on `dn`: the result code and the entries afterwards.
      Only `dn` can change, and only when the request succeeds. */
  function ModifySpec(ents: Entries, dn: string, changes: seq<Change>, flavour: Flavour): (r: (ResultCode, Entries))
    ensures r.1.Keys == ents.Keys
    ensures forall d :: d in ents && d != dn ==> r.1[d] == ents[d]
    ensures r.0 != Success ==> r.1 == ents
    ensures r.0 == Success ==> dn in ents && r.1[dn].objectClass == ents[dn].objectClass
    ensures r.0 == Success && ents[dn].IsGroup() && ents[dn].members != {} ==> r.1[dn].members != {}
  {
    if dn !in ents then (NoSuchObject, ents)
    else
      match ApplyChanges(ents[dn], changes, flavour)
      case Err(code) => (code, ents)
      case Ok(e) => (Success, ents[dn := e])
  }

  /** A Modify request carrying one modification. */
  lemma ModifyOne(ents: Entries, dn: string, ch: Change, flavour: Flavour)
    ensures ModifySpec(ents, dn, [ch], flavour) ==
      if dn !in ents then (NoSuchObject, ents)
      else match ApplyChange(ents[dn], ch, flavour)
        case Err(code) => (code, ents)
        case Ok(e) => (Success, ents[dn := e])
  {
    if dn in ents {
      assert [ch][1..] == [];
      match ApplyChange(ents[dn], ch, flavour)
      case Err(code) =>
      case Ok(e) =>
        assert ApplyChanges(e, [], flavour) == Ok(e);
    }
  }

  /** An Add request: refused when the DN is taken or its parent is missing. */
  function AddSpec(ents: Entries, dn: string, e: Entry): (r: (ResultCode, Entries))
    ensures r.0 == Success <==> dn !in ents && (ParentDn(dn).Some? ==> ParentDn(dn).value in ents)
    ensures r.0 == Success ==> r.1 == ents[dn := e]
    ensures r.0 != Success ==> r.1 == ents
  {
    if dn in ents then (EntryAlreadyExists, ents)
    else if ParentDn(dn).Some? && ParentDn(dn).value !in ents then (NoSuchObject, ents)
    else (Success, ents[dn := e])
  }

  /** `dn` has an entry immediately below it. */
  predicate HasChildren(ents: Entries, dn: string) {
    exists child :: child in ents && ParentDn(child) == Some(dn)
  }

  /** A Delete request: only a leaf entry can be deleted (section 4.8 of RFC 4511). */
  function DeleteSpec(ents: Entries, dn: string): (r: (ResultCode, Entries))
    ensures r.0 == Success <==> dn in ents && !HasChildren(ents, dn)
    ensures r.0 == Success ==> r.1 == ents - {dn}
    ensures r.0 != Success ==> r.1 == ents
  {
    if dn !in ents then (NoSuchObject, ents)
    else if HasChildren(ents, dn) then (NotAllowedOnNonLeaf, ents)
    else (Success, ents - {dn})
  }

  /** Subtree search for `(objectClass=groupOfUniqueNames)`. */
  function SubtreeGroups(ents: Entries, base: string): (r: set<string>)
    ensures forall dn :: dn in r <==> dn in ents && InSubtree(dn, base) && ents[dn].IsGroup()
  {
    set dn | dn in ents && InSubtree(dn, base) && ents[dn].IsGroup()
  }

  /** One-level search for `(objectClass=groupOfUniqueNames)`. */
  function ChildGroups(ents: Entries, base: string): (r: set<string>)
    ensures forall dn :: dn in r <==> dn in ents && ParentDn(dn) == Some(base) && ents[dn].IsGroup()
  {
    set dn | dn in ents && ParentDn(dn) == Some(base) && ents[dn].IsGroup()
  }

  /** Subtree search for groups holding `member` in `uniqueMember`. */
  function SubtreeGroupsWithMember(ents: Entries, base: string, member: string): (r: set<string>)
    ensures forall dn :: dn in r <==> dn in SubtreeGroups(ents, base) && member in ents[dn].members
  {
    set dn | dn in SubtreeGroups(ents, base) && member in ents[dn].members
  }

  /** The directory server: its entries, the code it answers a duplicate
      `uniqueMember` Add with, and the credentials it accepts for Bind. */
  class DirectoryServer {
    var entries: Entries
    const flavour: Flavour
    const passwords: map<string, string>

    constructor (initial: Entries, flavour: Flavour, passwords: map<string, string>)
      ensures entries == initial && this.flavour == flavour && this.passwords == passwords
    {
      entries := initial;
      this.flavour := flavour;
      this.passwords := passwords;
    }

    /** A base-scope search finds the entry. */
    function Has(dn: string): bool
      reads this
    {
      dn in entries
    }

    /** Simple Bind: succeeds only with the password registered for `dn`. */
    method Bind(dn: string, password: string) returns (code: ResultCode)
      ensures code == Success <==> dn in passwords && passwords[dn] == password
      ensures code != Success ==> code == InvalidCredentials
    {
      if dn in passwords && passwords[dn] == password {
        code := Success;
      } else {
        code := InvalidCredentials;
      }
    }

    method Modify(dn: string, changes: seq<Change>) returns (code: ResultCode)
      modifies this
      ensures (code, entries) == ModifySpec(old(entries), dn, changes, flavour)
    {
      var r := ModifySpec(entries, dn, changes, flavour);
      code, entries := r.0, r.1;
    }

    method Add(dn: string, e: Entry) returns (code: ResultCode)
      modifies this
      ensures (code, entries) == AddSpec(old(entries), dn, e)
    {
      var r := AddSpec(entries, dn, e);
      code, entries := r.0, r.1;
    }

    method Delete(dn: string) returns (code: ResultCode)
      modifies this
      ensures (code, entries) == DeleteSpec(old(entries), dn)
    {
      var r := DeleteSpec(entries, dn);
      code, entries := r.0, r.1;
    }
  }
}
