/** Organisation and user records: the field maps `org_attr_map` and
    `user_attr_map`, `_unpack_org_info`/`_unpack_user_info`, the per-field
    diff of `_org_info_diff`, and the attributes `create_org` writes. Field
    values are abstract strings (their UTF-8 coding is not modelled). */
module OrgRecords {
  import opened Wrappers
  import opened Text
  import opened Directory
  import opened Errors
  import opened DnCodec

  /** A field name and the LDAP attribute holding it. */
  type FieldMap = seq<(string, string)>

  /** `org_attr_map` */
  const OrgAttrs: FieldMap := [
    ("name", "o"), ("phone", "telephoneNumber"), ("fax", "facsimileTelephoneNumber"),
    ("url", "labeledURI"), ("address", "postalAddress"), ("street", "street"),
    ("po_box", "postOfficeBox"), ("postal_code", "postalCode"), ("country", "st"),
    ("locality", "l")]

  /** `user_attr_map` */
  const UserAttrs: FieldMap := [
    ("name", "cn"), ("email", "mail"), ("phone", "telephoneNumber"), ("organisation", "o"),
    ("address", "postalAddress"), ("fax", "facsimileTelephoneNumber"), ("url", "labeledURI")]

  /** Field names and attribute names are each listed once, and no field
      lives in `uniqueMember`. */
  predicate WellFormedMap(attrs: FieldMap) {
    (forall i, j :: 0 <= i < j < |attrs| ==> attrs[i].0 != attrs[j].0 && attrs[i].1 != attrs[j].1) &&
    (forall i :: 0 <= i < |attrs| ==> attrs[i].1 != MemberAttr)
  }

  lemma FieldMapsWellFormed()
    ensures WellFormedMap(OrgAttrs) && WellFormedMap(UserAttrs)
  {
    OrgAttrsWellFormed();
    UserAttrsWellFormed();
  }

  lemma OrgAttrsWellFormed()
    ensures WellFormedMap(OrgAttrs)
  {
  }

  lemma UserAttrsWellFormed()
    ensures WellFormedMap(UserAttrs)
  {
  }

  /** A record as the agent passes it around: field name to value. */
  type Info = map<string, string>

  /** `info.get(name, u"")` */
  function Get(info: Info, name: string): string {
    if name in info then info[name] else ""
  }

  /** The loop of `_unpack_*_info`: every field of the map, taken from its
      attribute, or "" when the entry lacks it. */
  function UnpackFields(attrs: FieldMap, text: map<string, string>): (out: Info)
    ensures forall k :: 0 <= k < |attrs| ==> attrs[k].0 in out
    ensures forall name :: name in out ==> exists k :: 0 <= k < |attrs| && attrs[k].0 == name
    decreases |attrs|
  {
    if attrs == [] then map[]
    else
      var rest := UnpackFields(attrs[1..], text);
      var l := attrs[0].1;
      assert forall k :: 1 <= k < |attrs| ==> attrs[k] == attrs[1..][k - 1];
      rest[attrs[0].0 := if l in text then text[l] else ""]
  }

  lemma {:induction false} UnpackFieldsValue(attrs: FieldMap, text: map<string, string>, k: nat)
    requires WellFormedMap(attrs) && k < |attrs|
    ensures UnpackFields(attrs, text)[attrs[k].0] == if attrs[k].1 in text then text[attrs[k].1] else ""
    decreases |attrs|
  {
    if k > 0 {
      assert WellFormedMap(attrs[1..]) by {
        assert forall i :: 0 <= i < |attrs| - 1 ==> attrs[1..][i] == attrs[i + 1];
      }
      assert attrs[1..][k - 1] == attrs[k];
      UnpackFieldsValue(attrs[1..], text, k - 1);
    }
  }

  /** The dictionary `_unpack_org_info` and `_unpack_user_info` return. */
  datatype Record = Record(dn: string, id: string, fields: Info)

  /** `_unpack_org_info` */
  function UnpackOrgInfo(orgSuffix: string, dn: string, text: map<string, string>): (r: Result<Record, Failure>)
    ensures r.Ok? ==> OrgDnOf(orgSuffix, r.value.id) == Ok(dn) && r.value.dn == dn
    ensures r.Ok? ==> r.value.fields == UnpackFields(OrgAttrs, text)
  {
    match OrgIdOf(orgSuffix, dn)
    case Err(e) => Err(e)
    case Ok(id) =>
      OrgDnRoundTrip(orgSuffix, id, dn);
      Ok(Record(dn, id, UnpackFields(OrgAttrs, text)))
  }

  /** `_unpack_user_info` */
  function UnpackUserInfo(userSuffix: string, dn: string, text: map<string, string>): (r: Result<Record, Failure>)
    ensures r.Ok? ==> UserDnOf(userSuffix, r.value.id) == Ok(dn) && r.value.dn == dn
    ensures r.Ok? ==> r.value.fields == UnpackFields(UserAttrs, text)
  {
    match UserIdOf(userSuffix, dn)
    case Err(e) => Err(e)
    case Ok(id) =>
      UserDnRoundTrip(userSuffix, id, dn);
      Ok(Record(dn, id, UnpackFields(UserAttrs, text)))
  }

  // ----- _org_info_diff -----

  /** The change for one field: nothing when both sides are empty or equal,
      an Add when only the new side has a value, a Delete of the old value
      when only the old side has one, a Replace otherwise. */
  function FieldChange(ldap: string, oldValue: string, newValue: string): (r: seq<Change>)
    ensures r == [] <==> oldValue == newValue
    ensures |r| <= 1
    ensures forall c :: c in r ==> c.attr == ldap
  {
    if oldValue == newValue && newValue == "" then []
    else if oldValue == "" then [Change(ModAdd, ldap, newValue)]
    else if newValue == "" then [Change(ModDelete, ldap, oldValue)]
    else if oldValue != newValue then [Change(ModReplace, ldap, newValue)]
    else []
  }

  /** `_org_info_diff` over a field map, in the map's order. */
  function Diff(attrs: FieldMap, oldInfo: Info, newInfo: Info): (r: seq<Change>)
    ensures |r| <= |attrs|
    ensures forall c :: c in r ==> exists k :: 0 <= k < |attrs| && c.attr == attrs[k].1
    decreases |attrs|
  {
    if attrs == [] then []
    else
      FieldChange(attrs[0].1, Get(oldInfo, attrs[0].0), Get(newInfo, attrs[0].0))
        + Diff(attrs[1..], oldInfo, newInfo)
  }

  /** The diff is empty exactly when no field changes. */
  lemma {:induction false} DiffEmpty(attrs: FieldMap, oldInfo: Info, newInfo: Info)
    ensures Diff(attrs, oldInfo, newInfo) == [] <==>
      forall k :: 0 <= k < |attrs| ==> Get(oldInfo, attrs[k].0) == Get(newInfo, attrs[k].0)
    decreases |attrs|
  {
    if attrs != [] {
      DiffEmpty(attrs[1..], oldInfo, newInfo);
      assert forall k :: 1 <= k < |attrs| ==> attrs[k] == attrs[1..][k - 1];
    }
  }

  /** An entry's text holds a record: each field with a value is stored in
      its attribute, and a field without one has no attribute. */
  predicate Holds(text: map<string, string>, attrs: FieldMap, info: Info) {
    forall k :: 0 <= k < |attrs| ==>
      if Get(info, attrs[k].0) == "" then attrs[k].1 !in text
      else attrs[k].1 in text && text[attrs[k].1] == Get(info, attrs[k].0)
  }

  /** One field written into an entry's text. */
  function Store(text: map<string, string>, ldap: string, value: string): map<string, string> {
    if value == "" then text - {ldap} else text[ldap := value]
  }

  /** Every field of the map written into an entry's text, in order. */
  function StoreAll(text: map<string, string>, attrs: FieldMap, info: Info): map<string, string>
    decreases |attrs|
  {
    if attrs == [] then text
    else StoreAll(Store(text, attrs[0].1, Get(info, attrs[0].0)), attrs[1..], info)
  }

  lemma {:induction false} StoreAllHolds(text: map<string, string>, attrs: FieldMap, info: Info)
    requires WellFormedMap(attrs)
    ensures Holds(StoreAll(text, attrs, info), attrs, info)
    ensures forall l :: (forall k :: 0 <= k < |attrs| ==> attrs[k].1 != l) ==>
      (l in StoreAll(text, attrs, info) <==> l in text) &&
      (l in text ==> StoreAll(text, attrs, info)[l] == text[l])
    decreases |attrs|
  {
    if attrs != [] {
      var rest := attrs[1..];
      assert forall i :: 0 <= i < |rest| ==> rest[i] == attrs[i + 1];
      assert WellFormedMap(rest);
      var t1 := Store(text, attrs[0].1, Get(info, attrs[0].0));
      StoreAllHolds(t1, rest, info);
    }
  }

  /** Applying the diff from `oldInfo` to `newInfo` to an entry holding
      `oldInfo` succeeds and leaves it holding `newInfo`; attributes outside
      the map are untouched. */
  lemma {:induction false} ApplyDiff(e: Entry, attrs: FieldMap, oldInfo: Info, newInfo: Info, flavour: Flavour)
    requires WellFormedMap(attrs) && Holds(e.text, attrs, oldInfo)
    ensures ApplyChanges(e, Diff(attrs, oldInfo, newInfo), flavour) ==
      Ok(e.(text := StoreAll(e.text, attrs, newInfo)))
    decreases |attrs|
  {
    if attrs != [] {
      var rest := attrs[1..];
      assert forall i :: 0 <= i < |rest| ==> rest[i] == attrs[i + 1];
      assert WellFormedMap(rest);
      var (name, l) := attrs[0];
      var o, n := Get(oldInfo, name), Get(newInfo, name);
      var head := FieldChange(l, o, n);
      var e1 := e.(text := Store(e.text, l, n));
      assert ApplyChanges(e, head, flavour) == Ok(e1) by {
        if head != [] {
          assert head[1..] == [];
        } else if o == "" {
          assert e.text - {l} == e.text;
        } else {
          assert e.text[l := n] == e.text;
        }
      }
      assert Holds(e1.text, rest, oldInfo) by {
        forall k | 0 <= k < |rest|
          ensures if Get(oldInfo, rest[k].0) == "" then rest[k].1 !in e1.text
                  else rest[k].1 in e1.text && e1.text[rest[k].1] == Get(oldInfo, rest[k].0)
        {
          assert rest[k] == attrs[k + 1];
          assert rest[k].1 != l;
        }
      }
      ApplyDiff(e1, rest, oldInfo, newInfo, flavour);
      ApplyChangesConcat(e, head, Diff(rest, oldInfo, newInfo), flavour);
    }
  }

  /** The text holds no blank value in any attribute of the map. */
  predicate NoBlankFields(text: map<string, string>, attrs: FieldMap) {
    forall k :: 0 <= k < |attrs| && attrs[k].1 in text ==> text[attrs[k].1] != ""
  }

  /** Unpacking an entry's text gives back a record that the text holds. */
  lemma UnpackHolds(text: map<string, string>, attrs: FieldMap)
    requires WellFormedMap(attrs) && NoBlankFields(text, attrs)
    ensures Holds(text, attrs, UnpackFields(attrs, text))
  {
    forall k | 0 <= k < |attrs|
      ensures var v := Get(UnpackFields(attrs, text), attrs[k].0);
        if v == "" then attrs[k].1 !in text else attrs[k].1 in text && text[attrs[k].1] == v
    {
      UnpackFieldsValue(attrs, text, k);
    }
  }

  /** Unpacking a text that holds a record gives back its fields. */
  lemma UnpackOfHolds(text: map<string, string>, attrs: FieldMap, info: Info)
    requires WellFormedMap(attrs) && Holds(text, attrs, info)
    ensures forall k :: 0 <= k < |attrs| ==> Get(UnpackFields(attrs, text), attrs[k].0) == Get(info, attrs[k].0)
  {
    forall k | 0 <= k < |attrs|
      ensures Get(UnpackFields(attrs, text), attrs[k].0) == Get(info, attrs[k].0)
    {
      UnpackFieldsValue(attrs, text, k);
    }
  }

  lemma StoreAllNoBlank(text: map<string, string>, attrs: FieldMap, info: Info)
    requires WellFormedMap(attrs)
    ensures NoBlankFields(StoreAll(text, attrs, info), attrs)
  {
    StoreAllHolds(text, attrs, info);
  }

  // ----- org_info and set_org_info -----

  /** `org_info`: the base search of the organisation's DN, unpacked; a
      missing entry fails the source's `len(result) == 1` assertion. */
  function OrgInfo(ents: Entries, orgSuffix: string, orgId: string): (r: Result<Record, Failure>)
    ensures r.Ok? <==> ',' !in orgId && OrgDnOf(orgSuffix, orgId).value in ents
    ensures r.Ok? ==> r.value.id == orgId && Ok(r.value.dn) == OrgDnOf(orgSuffix, orgId)
    ensures r.Ok? ==> r.value.fields == UnpackFields(OrgAttrs, ents[r.value.dn].text)
  {
    match OrgDnOf(orgSuffix, orgId)
    case Err(e) => Err(e)
    case Ok(dn) =>
      if dn !in ents then Err(NotFound(dn))
      else
        OrgDnRoundTrip(orgSuffix, orgId, dn);
        UnpackOrgInfo(orgSuffix, dn, ents[dn].text)
  }

  /** `set_org_info`: read the record, compute the diff, and send one
      Modify with it, or nothing at all when the diff is empty. */
  function SetOrgInfoSpec(ents: Entries, orgSuffix: string, orgId: string, newInfo: Info, flavour: Flavour)
    : (r: (Result<(), Failure>, Entries))
    ensures OrgInfo(ents, orgSuffix, orgId).Err? ==> r == (Err(OrgInfo(ents, orgSuffix, orgId).error), ents)
    ensures r.1.Keys == ents.Keys
    ensures r.0.Err? ==> r.1 == ents
  {
    match OrgInfo(ents, orgSuffix, orgId)
    case Err(e) => (Err(e), ents)
    case Ok(rec) =>
      var changes := Diff(OrgAttrs, rec.fields, newInfo);
      if changes == [] then (Ok(()), ents)
      else
        var (code, e1) := ModifySpec(ents, rec.dn, changes, flavour);
        if code != Success then (Err(Ldap(code)), e1) else (Ok(()), e1)
  }

  /** When the diff is not empty, `set_org_info` is one Modify carrying it. */
  lemma {:induction false} SetOrgInfoSends(ents: Entries, orgSuffix: string, orgId: string, newInfo: Info, flavour: Flavour)
    requires OrgInfo(ents, orgSuffix, orgId).Ok?
    requires Diff(OrgAttrs, OrgInfo(ents, orgSuffix, orgId).value.fields, newInfo) != []
    ensures var rec := OrgInfo(ents, orgSuffix, orgId).value;
      var m := ModifySpec(ents, rec.dn, Diff(OrgAttrs, rec.fields, newInfo), flavour);
      SetOrgInfoSpec(ents, orgSuffix, orgId, newInfo, flavour) ==
        (if m.0 == Success then Ok(()) else Err(Ldap(m.0)), m.1)
  {
  }

  /** The diff from what an entry holds to `newInfo`, sent as one Modify
      (or not at all when it is empty), leaves the entry holding `newInfo`. */
  lemma {:induction false} DiffModify(ents: Entries, dn: string, attrs: FieldMap, newInfo: Info, flavour: Flavour)
    requires WellFormedMap(attrs) && dn in ents && NoBlankFields(ents[dn].text, attrs)
    ensures var changes := Diff(attrs, UnpackFields(attrs, ents[dn].text), newInfo);
      var after := ents[dn := ents[dn].(text := StoreAll(ents[dn].text, attrs, newInfo))];
      (changes == [] ==> after == ents) &&
      (changes != [] ==> ModifySpec(ents, dn, changes, flavour) == (Success, after))
  {
    var e := ents[dn];
    var was := UnpackFields(attrs, e.text);
    UnpackHolds(e.text, attrs);
    ApplyDiff(e, attrs, was, newInfo, flavour);
    if Diff(attrs, was, newInfo) == [] {
      assert e.(text := StoreAll(e.text, attrs, newInfo)) == e;
      assert ents[dn := e] == ents;
    }
  }

  /** On an organisation whose attributes hold no blank value, `set_org_info`
      succeeds and rewrites exactly the mapped attributes of that entry. */
  lemma {:induction false} SetOrgInfoStores(ents: Entries, orgSuffix: string, orgId: string, newInfo: Info, flavour: Flavour)
    requires OrgInfo(ents, orgSuffix, orgId).Ok?
    requires NoBlankFields(ents[OrgInfo(ents, orgSuffix, orgId).value.dn].text, OrgAttrs)
    ensures var dn := OrgInfo(ents, orgSuffix, orgId).value.dn;
      SetOrgInfoSpec(ents, orgSuffix, orgId, newInfo, flavour) ==
        (Ok(()), ents[dn := ents[dn].(text := StoreAll(ents[dn].text, OrgAttrs, newInfo))])
  {
    var rec := OrgInfo(ents, orgSuffix, orgId).value;
    FieldMapsWellFormed();
    DiffModify(ents, rec.dn, OrgAttrs, newInfo, flavour);
  }

  /** After `set_org_info`, `org_info` reads back the new value of every
      field ("" for a field the new record leaves out). */
  lemma {:induction false} SetOrgInfoReadBack(ents: Entries, orgSuffix: string, orgId: string, newInfo: Info, flavour: Flavour)
    requires OrgInfo(ents, orgSuffix, orgId).Ok?
    requires NoBlankFields(ents[OrgInfo(ents, orgSuffix, orgId).value.dn].text, OrgAttrs)
    ensures var after := SetOrgInfoSpec(ents, orgSuffix, orgId, newInfo, flavour).1;
      OrgInfo(after, orgSuffix, orgId).Ok? &&
      NoBlankFields(after[OrgInfo(after, orgSuffix, orgId).value.dn].text, OrgAttrs) &&
      forall k :: 0 <= k < |OrgAttrs| ==>
        Get(OrgInfo(after, orgSuffix, orgId).value.fields, OrgAttrs[k].0) == Get(newInfo, OrgAttrs[k].0)
  {
    var dn := OrgInfo(ents, orgSuffix, orgId).value.dn;
    SetOrgInfoStores(ents, orgSuffix, orgId, newInfo, flavour);
    var t := StoreAll(ents[dn].text, OrgAttrs, newInfo);
    FieldMapsWellFormed();
    StoreAllHolds(ents[dn].text, OrgAttrs, newInfo);
    StoreAllNoBlank(ents[dn].text, OrgAttrs, newInfo);
    UnpackOfHolds(t, OrgAttrs, newInfo);
  }

  /** Setting the same record twice: the second call sends nothing and
      changes nothing. */
  lemma {:induction false} SetOrgInfoIdempotent(ents: Entries, orgSuffix: string, orgId: string, newInfo: Info, flavour: Flavour)
    requires OrgInfo(ents, orgSuffix, orgId).Ok?
    requires NoBlankFields(ents[OrgInfo(ents, orgSuffix, orgId).value.dn].text, OrgAttrs)
    ensures var once := SetOrgInfoSpec(ents, orgSuffix, orgId, newInfo, flavour).1;
      Diff(OrgAttrs, OrgInfo(once, orgSuffix, orgId).value.fields, newInfo) == [] &&
      SetOrgInfoSpec(once, orgSuffix, orgId, newInfo, flavour) == (Ok(()), once)
  {
    var once := SetOrgInfoSpec(ents, orgSuffix, orgId, newInfo, flavour).1;
    SetOrgInfoReadBack(ents, orgSuffix, orgId, newInfo, flavour);
    DiffEmpty(OrgAttrs, OrgInfo(once, orgSuffix, orgId).value.fields, newInfo);
  }

  // ----- create_org -----

  /** The attribute of field `name`, if the map has it. */
  function AttrOf(attrs: FieldMap, name: string): (r: Option<string>)
    ensures r.Some? <==> exists k :: 0 <= k < |attrs| && attrs[k].0 == name
    ensures r.Some? ==> exists k :: 0 <= k < |attrs| && attrs[k] == (name, r.value)
    decreases |attrs|
  {
    if attrs == [] then None
    else if attrs[0].0 == name then Some(attrs[0].1)
    else
      var r := AttrOf(attrs[1..], name);
      assert forall k :: 1 <= k < |attrs| ==> attrs[k] == attrs[1..][k - 1];
      r
  }

  /** The text `create_org` writes: every given field, empty values
      included, in its attribute. */
  function CreateText(attrs: FieldMap, info: Info): (t: map<string, string>)
    decreases |attrs|
  {
    if attrs == [] then map[]
    else
      var rest := CreateText(attrs[1..], info);
      if attrs[0].0 in info then rest[attrs[0].1 := info[attrs[0].0]] else rest
  }

  lemma {:induction false} CreateTextKeys(attrs: FieldMap, info: Info, l: string)
    requires forall k :: 0 <= k < |attrs| ==> attrs[k].1 != l
    ensures l !in CreateText(attrs, info)
    decreases |attrs|
  {
    if attrs != [] {
      assert forall k :: 0 <= k < |attrs| - 1 ==> attrs[1..][k] == attrs[k + 1];
      CreateTextKeys(attrs[1..], info, l);
    }
  }

  lemma {:induction false} CreateTextValue(attrs: FieldMap, info: Info, k: nat)
    requires WellFormedMap(attrs) && k < |attrs|
    ensures attrs[k].1 in CreateText(attrs, info) <==> attrs[k].0 in info
    ensures attrs[k].0 in info ==> CreateText(attrs, info)[attrs[k].1] == info[attrs[k].0]
    decreases |attrs|
  {
    if k == 0 {
      assert forall i :: 0 <= i < |attrs| - 1 ==> attrs[1..][i] == attrs[i + 1];
      CreateTextKeys(attrs[1..], info, attrs[0].1);
    } else {
      assert WellFormedMap(attrs[1..]) by {
        assert forall i :: 0 <= i < |attrs| - 1 ==> attrs[1..][i] == attrs[i + 1];
      }
      assert attrs[1..][k - 1] == attrs[k];
      CreateTextValue(attrs[1..], info, k - 1);
    }
  }

  /** Reading back an organisation created from `info` gives every field
      of `info`, and "" for the fields it leaves out. */
  lemma CreateThenUnpack(info: Info)
    ensures forall k :: 0 <= k < |OrgAttrs| ==>
      Get(UnpackFields(OrgAttrs, CreateText(OrgAttrs, info)), OrgAttrs[k].0) == Get(info, OrgAttrs[k].0)
  {
    FieldMapsWellFormed();
    forall k | 0 <= k < |OrgAttrs|
      ensures Get(UnpackFields(OrgAttrs, CreateText(OrgAttrs, info)), OrgAttrs[k].0) == Get(info, OrgAttrs[k].0)
    {
      CreateTextValue(OrgAttrs, info, k);
      UnpackFieldsValue(OrgAttrs, CreateText(OrgAttrs, info), k);
    }
  }

  /** The characters `create_org` accepts in an organisation id. */
  const OrgIdChars: set<char> := set c | 'a' <= c <= 'z' || c == '_'

  /** An id that passes the charset check has no comma, so its DN is built. */
  lemma CharsetOrgDn(orgSuffix: string, orgId: string)
    requires forall i :: 0 <= i < |orgId| ==> orgId[i] in OrgIdChars
    ensures OrgDnOf(orgSuffix, orgId) == Ok("cn=" + orgId + "," + orgSuffix)
  {
    assert ',' !in OrgIdChars;
  }

  /** The field map has the field. */
  predicate Known(attrs: FieldMap, name: string) {
    AttrOf(attrs, name).Some?
  }

  /** The entry `create_org` adds: the given fields and nothing else (the
      source sends no object class). */
  function NewOrgEntry(info: Info): (e: Entry)
    ensures e.members == {} && !e.IsGroup()
  {
    Entry([], {}, CreateText(OrgAttrs, info))
  }

  /** The `org_attr_map[name]` lookups of `create_org`, in the sorted order
      of the names: the least unknown name, or None when all are known. */
  method FirstUnknownField(attrs: FieldMap, info: Info) returns (unknown: Option<string>)
    ensures unknown.None? <==> forall name :: name in info ==> Known(attrs, name)
    ensures unknown.Some? ==> unknown.value in info && !Known(attrs, unknown.value)
    ensures unknown.Some? ==> forall name :: name in info && Less(name, unknown.value) ==> Known(attrs, name)
  {
    var names := SortDescending(info.Keys);
    var i := |names|;
    while i > 0
      invariant 0 <= i <= |names|
      invariant forall j :: i <= j < |names| ==> Known(attrs, names[j])
    {
      var n := names[i - 1];
      if !Known(attrs, n) {
        forall name | name in info && Less(name, n)
          ensures Known(attrs, name)
        {
          var j :| 0 <= j < |names| && names[j] == name;
          if j < i - 1 {
            LessAsymmetric(name, n);
          } else if j == i - 1 {
            LessIrreflexive(n);
          }
        }
        return Some(n);
      }
      i := i - 1;
    }
    return None;
  }
}
