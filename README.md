# LDAP agent of eea.ldapadmin, modelled in Dafny

This project models `LdapAgent`, the object through which the EIONET user
and role administration tools read and write their LDAP directory. It also
models three small role-id helpers of the roles editor.

The agent keeps users, organisations and roles under three DN suffixes
(`ou=Users,…`, `ou=Organisations,…`, `ou=Roles,…`). A role id such as
`eionet-nfp-mc` names a chain of nested `groupOfUniqueNames` entries:
`cn=eionet-nfp-mc,cn=eionet-nfp,cn=eionet,ou=Roles,…`. A member is a
`uniqueMember` value on the role entry and on every entry above it. An entry
left with no member keeps the blank value `''` instead, because the object
class requires at least one `uniqueMember` (section 3.6 of RFC 4519).

The modules follow the structure of the program:

- **`Text`** holds Python's `split`, `join`, `rsplit`, `startswith`,
  `endswith` and byte-wise string order over `seq<char>`. It also holds
  `sorted()` + `reverse()` and the character-check loop as methods.
- **`Directory`** is the server. `DirectoryServer` is a class whose
  `entries` map is changed by `Modify`, `Add` and `Delete`. These follow
  sections 4.6–4.8 of RFC 4511 and return the result codes of section
  4.1.9:
  - a Modify is atomic;
  - a Delete works only on a leaf;
  - an Add needs the parent entry.

  Which code refuses a duplicate `uniqueMember` value is unspecified: the
  agent's own comment says only that sometimes one code comes back and
  sometimes the other. The model fixes one code per server, as the
  parameter `Flavour`.
- **`Errors`** maps each exception the agent raises to one constructor.
- **`DnCodec`** holds `_role_dn`/`_role_id` (methods with the source's
  loops, proved equal to functions), `_user_dn`/`_user_id`,
  `_org_dn`/`_org_id` and `_member_dn`.
- **`RoleTree`** holds `filter_roles`, `members_in_role`, and the ordering
  facts behind `_sub_roles` and `delete_role`.
- **`Membership`** holds the add climb, the three-step removal dance and the
  removal loop, as functions of the directory's entries.
- **`OrgRecords`** holds the field maps, `_unpack_*_info`, `org_info`,
  `_org_info_diff`/`set_org_info` and the entry `create_org` writes.
- **`Agent`** holds the class `LdapAgent`:
  - the `bound` flag and its constant suffixes;
  - one method per operation, run against a `DirectoryServer`;
  - for each method, a proof that it equals the pure description above.
- **`RolesEditor`** holds `_role_parents`, the id check and composition of
  `do_create_role`, and the parent id `delete_role` redirects to.

The transport is replaced by the `DirectoryServer` class. Searches are
functions of its entries:

- a base search is membership in the map;
- a subtree search is `SubtreeGroups`;
- a one-level search is `ChildGroups`;
- the `uniqueMember=…` filter of `_sub_roles_with_member` is
  `SubtreeGroupsWithMember`.

Python exceptions become `Err(Failure)` results. An LDAP error the agent
does not catch becomes `Ldap(code)`.

## Model

| member | source | states |
|---|---|---|
| DnCodec.RoleDnOf | eea/ldapadmin/ldap_agent.py:44-53 | the DN of the root is the roles suffix itself, and no role's DN is |
| DnCodec.RoleDn | eea/ldapadmin/ldap_agent.py:44-53 | the `dn_start +=` loop builds exactly `RoleDnOf`: one `cn=` component per prefix of the id, longest first, then the suffix |
| DnCodec.RoleId | eea/ldapadmin/ldap_agent.py:55-74 | the decoding loop returns exactly `RoleIdOf`, including every assertion failure as `BadDn` |
| DnCodec.RoleIdOf | eea/ldapadmin/ldap_agent.py:55-58 | the bare roles suffix, and only it, decodes to None; any accepted DN is the suffix or ends in `,`+suffix |
| DnCodec.RoleIdOfRoleDn | eea/ldapadmin/ldap_agent.py:44-74 | `_role_id(_role_dn(x)) == x` for every comma-free id and for None |
| DnCodec.RoleDnOfRoleIdOf | eea/ldapadmin/ldap_agent.py:44-74 | every DN `_role_id` accepts is `_role_dn` of the decoded id, and that id is comma-free |
| DnCodec.RoleIdAccepts | eea/ldapadmin/ldap_agent.py:55-74 | `_role_id` accepts a DN if and only if it is `_role_dn` of some comma-free id or of None |
| DnCodec.RoleIdRejectsSkippedLevel | eea/ldapadmin/ldap_agent.py:64-71 | a single component whose name contains `-` (such as `cn=aaa-bbb,<suffix>`) is refused: the chain must start at a one-segment id |
| DnCodec.DecodeNonEmpty | eea/ldapadmin/ldap_agent.py:63-74 | a DN with at least one component never decodes to the root |
| DnCodec.DecodeChainShape | eea/ldapadmin/ldap_agent.py:63-72 | the components of an accepted chain are exactly the prefixes of the decoded id, each one segment longer than the last |
| DnCodec.RoleDnParent | eea/ldapadmin/ldap_agent.py:44-53 | a role's DN is its own `cn=` component followed by its parent role's DN |
| DnCodec.ParentOfRoleDn | eea/ldapadmin/ldap_agent.py:44-53 | the directory parent of a role's entry is the entry of its parent role |
| DnCodec.DescendantDnSortsAfter | eea/ldapadmin/ldap_agent.py:321-333 | the DN of a role with one more segment sorts after its parent's DN in byte order, because `-` sorts after `,` |
| DnCodec.ChildDnSortsAfter | eea/ldapadmin/ldap_agent.py:321-333 | any decodable entry directly below a role sorts after that role |
| DnCodec.RoleDnInjective | eea/ldapadmin/ldap_agent.py:44-53 | two comma-free role ids with the same DN are the same id |
| DnCodec.LeafDn | eea/ldapadmin/ldap_agent.py:76-78 | the user or organisation DN is built exactly when the id has no comma |
| DnCodec.UserDnOf | eea/ldapadmin/ldap_agent.py:76-78 | `_user_dn` accepts an id exactly when it has no comma |
| DnCodec.OrgDnOf | eea/ldapadmin/ldap_agent.py:87-89 | `_org_dn` accepts an id exactly when it has no comma |
| DnCodec.UserIdOf | eea/ldapadmin/ldap_agent.py:80-85 | a DN not starting with `uid=` or not ending with `,` plus the users suffix is refused, and an accepted id has no comma |
| DnCodec.OrgIdOf | eea/ldapadmin/ldap_agent.py:91-96 | a DN not starting with `cn=` or not ending with `,` plus the organisations suffix is refused, and an accepted id has no comma |
| DnCodec.LeafIdOfLeafDn | eea/ldapadmin/ldap_agent.py:76-96 | decoding a built leaf DN gives back the id |
| DnCodec.LeafDnOfLeafId | eea/ldapadmin/ldap_agent.py:76-96 | every DN the leaf decoder accepts is rebuilt exactly from the decoded id |
| DnCodec.UserDnRoundTrip | eea/ldapadmin/ldap_agent.py:76-85 | `_user_id(_user_dn(u)) == u`; `_user_dn` inverts `_user_id` on every DN it accepts |
| DnCodec.OrgDnRoundTrip | eea/ldapadmin/ldap_agent.py:87-96 | `_org_id(_org_dn(o)) == o`; `_org_dn` inverts `_org_id` on every DN it accepts |
| DnCodec.MemberDnOf | eea/ldapadmin/ldap_agent.py:351-357 | `user` gives the user DN, `org` the organisation DN, any other type the unknown-member-type error |
| RoleTree.NoMismatchFromMeans | eea/ldapadmin/ldap_agent.py:149-154 | the `for … else` scan finds no mismatch exactly when every non-`*` token equals the role's segment at that position |
| RoleTree.RoleMatchesMeans | eea/ldapadmin/ldap_agent.py:139-154 | a role matches exactly when the pattern has no more tokens than the role has segments and every non-`*` token agrees with its segment |
| RoleTree.SingleTokenPattern | eea/ldapadmin/ldap_agent.py:139-154 | a one-token pattern matches a role exactly when it is `*` or equals the role's first segment (so `''` and `**` match only roles whose first segment is literally that) |
| RoleTree.FilterRoles | eea/ldapadmin/ldap_agent.py:133-155 | the call fails exactly when some group under the roles suffix has a DN `_role_id` refuses |
| RoleTree.FilterRolesExact | eea/ldapadmin/ldap_agent.py:133-155 | an id is returned if and only if its role entry is a group under the suffix (never the root) and the pattern matches it position by position |
| RoleTree.Classify | eea/ldapadmin/ldap_agent.py:168-180 | blank values and DNs under neither suffix are skipped; the organisation suffix is tried first; each reported member's DN is rebuilt from its id |
| RoleTree.MemberSet | eea/ldapadmin/ldap_agent.py:168-180 | fails exactly when some value is refused by a decoder; otherwise holds exactly the classified members |
| RoleTree.ClassifyOrg | eea/ldapadmin/ldap_agent.py:175-176 | an organisation DN is read back as that organisation |
| RoleTree.ClassifyUser | eea/ldapadmin/ldap_agent.py:177-178 | a user DN outside the organisations suffix is read back as that user |
| RoleTree.MembersInRole | eea/ldapadmin/ldap_agent.py:160-198 | fails exactly when some value on the role's entry or on an immediate sub-role is refused by `_org_id` or `_user_id` |
| RoleTree.MembersInRoleOrgs | eea/ldapadmin/ldap_agent.py:160-198 | an organisation is a direct member if and only if its DN is on the role's own entry and on no immediate sub-role |
| RoleTree.MembersInRoleUsers | eea/ldapadmin/ldap_agent.py:160-198 | the same for a user whose DN is not also under the organisations suffix |
| RoleTree.DescendantSortsAfter | eea/ldapadmin/ldap_agent.py:321-339 | every decodable entry strictly below a role sorts after the role |
| RoleTree.DeleteEach | eea/ldapadmin/ldap_agent.py:337-339 | when the loop finishes, exactly the listed DNs are gone |
| RoleTree.DeleteEachChildrenFirst | eea/ldapadmin/ldap_agent.py:337-339 | deleting present, distinct DNs listed children-first succeeds and removes exactly those DNs |
| RoleTree.ReverseSortedIsChildrenFirst | eea/ldapadmin/ldap_agent.py:321-333 | in the reverse-sorted listing of a role subtree, every child comes before its parent |
| RoleTree.DeleteSubtree | eea/ldapadmin/ldap_agent.py:321-339 | deleting the reverse-sorted subtree of a role succeeds and removes exactly the groups of that subtree |
| Membership.AddWalk | eea/ldapadmin/ldap_agent.py:368-388 | the climb changes no entry outside the chain from the role up, and adds or removes no entry |
| Membership.AddMember | eea/ldapadmin/ldap_agent.py:359-366 | a missing member DN, then a missing role DN, is reported before any modification, with nothing changed |
| Membership.AddLevel | eea/ldapadmin/ldap_agent.py:370-386 | on a group lacking the member, the first Modify succeeds, the second succeeds or is the tolerated noSuchAttribute, and together they add the member and drop `''` |
| Membership.AddWalkStops | eea/ldapadmin/ldap_agent.py:370-375 | at a level that already holds the member the climb stops there, successfully, changing nothing |
| Membership.AddWalkReachesEveryLevel | eea/ldapadmin/ldap_agent.py:368-388 | when every level up to the roles root is a group and membership is closed upwards, the climb succeeds and leaves the member on the role and every ancestor up to and including the root |
| Membership.AddWalkKeepsPlaceholders | eea/ldapadmin/ldap_agent.py:368-388 | every group keeps at least one value, and holds `''` only when that is its only value |
| Membership.RemoveSingle | eea/ldapadmin/ldap_agent.py:405-434 | only the role's entry can change, and no entry is added or removed |
| Membership.Remaining | eea/ldapadmin/ldap_agent.py:408-434 | what a role keeps is never empty, and holds `''` only as its sole value or when `''` was already there |
| Membership.RemoveSingleFromGroup | eea/ldapadmin/ldap_agent.py:405-434 | on a group keeping the placeholder rule, the dance succeeds, removes the member, leaves `''` only when no member is left, and keeps the rule |
| Membership.RemoveAndRestore | eea/ldapadmin/ldap_agent.py:416-434 | the `try`/`finally` of steps 2 and 3 changes only the role's entry and adds or removes no entry |
| Membership.RemoveAndRestoreFromGroup | eea/ldapadmin/ldap_agent.py:416-434 | on a group holding `''`, steps 2 and 3 succeed and leave the other members, or `''` alone when none is left |
| Membership.RemoveSingleFromMembers | eea/ldapadmin/ldap_agent.py:405-434 | on a group with real members and no `''`, the dance succeeds and leaves the other members, or `''` alone when none is left |
| Membership.RemoveSingleFromEmptyRole | eea/ldapadmin/ldap_agent.py:409-414 | on a role holding only `''`, a server that reports duplicates as attributeOrValueExists makes step 1 raise and nothing changes |
| Membership.RemoveSingleFromNonGroup | eea/ldapadmin/ldap_agent.py:405-434 | run on a user or organisation entry, the dance fails with noSuchAttribute and changes nothing |
| Membership.RemoveEach | eea/ldapadmin/ldap_agent.py:451-452 | the corrected loop changes only the listed roles and adds or removes no entry |
| Membership.RemoveEachAsWritten | eea/ldapadmin/ldap_agent.py:451-452 | the loop as written can change only the member's own entry, never a role, and adds or removes no entry |
| Membership.SwappedRemovalFails | eea/ldapadmin/ldap_agent.py:452 | as written, removing a user or organisation from any non-empty list of roles fails with noSuchAttribute and changes nothing |
| Membership.RemoveEachClears | eea/ldapadmin/ldap_agent.py:451-452 | with the arguments in the declared order, removing a member from distinct groups that hold it succeeds, and afterwards none of them holds it |
| Membership.RemoveEachClearsSubtree | eea/ldapadmin/ldap_agent.py:436-452 | on the reverse-sorted groups holding the member, the corrected removal succeeds, no group at or below the role holds the member, and every group keeps the placeholder rule |
| Directory.ApplyChanges | eea/ldapadmin/ldap_agent.py:370-372 | a Modify keeps the object classes, a refusal always carries an error code, and a group that had a value is never left without one |
| Directory.ModifySpec | eea/ldapadmin/ldap_agent.py:370-372 | a Modify changes only its own entry, only on success, and keeps the entry's object classes |
| Directory.AddSpec | eea/ldapadmin/ldap_agent.py:310-317 | an Add succeeds exactly when the DN is free and its parent exists, and then adds exactly that entry |
| Directory.DeleteSpec | eea/ldapadmin/ldap_agent.py:335-339 | a Delete succeeds exactly on a present leaf, and then removes exactly that entry |
| Directory.DirectoryServer.Bind | eea/ldapadmin/ldap_agent.py:241-242 | a Bind succeeds exactly with the registered password, and otherwise reports invalidCredentials |
| OrgRecords.FieldMapsWellFormed | eea/ldapadmin/ldap_agent.py:4-25 | both field maps name each field and each attribute once, and none uses `uniqueMember` |
| OrgRecords.UnpackFields | eea/ldapadmin/ldap_agent.py:100-104 | the result has every field of the map and no other key |
| OrgRecords.UnpackFieldsValue | eea/ldapadmin/ldap_agent.py:100-104 | each field holds its attribute's value, or `""` when the entry lacks the attribute |
| OrgRecords.UnpackOrgInfo | eea/ldapadmin/ldap_agent.py:107-114 | a record is built only for a DN `_org_id` accepts; its `id` rebuilds its `dn` |
| OrgRecords.UnpackUserInfo | eea/ldapadmin/ldap_agent.py:98-105 | a record is built only for a DN `_user_id` accepts; its `id` rebuilds its `dn` |
| OrgRecords.OrgInfo | eea/ldapadmin/ldap_agent.py:214-225 | succeeds exactly for a comma-free id whose entry exists, and then unpacks that entry |
| OrgRecords.FieldChange | eea/ldapadmin/ldap_agent.py:251-265 | one field yields no change exactly when its old and new values are equal, and never more than one |
| OrgRecords.Diff | eea/ldapadmin/ldap_agent.py:246-265 | at most one change per mapped field, each on one of the mapped attributes |
| OrgRecords.DiffEmpty | eea/ldapadmin/ldap_agent.py:250-265 | the diff is empty if and only if every mapped field has the same old and new value (a missing key counting as `""`) |
| OrgRecords.ApplyDiff | eea/ldapadmin/ldap_agent.py:246-285 | applying the diff to an entry that holds the old record succeeds and leaves it holding the new one, with other attributes untouched |
| OrgRecords.StoreAllHolds | eea/ldapadmin/ldap_agent.py:250-265 | the text written for a record holds that record, and leaves unmapped attributes as they were |
| OrgRecords.UnpackHolds | eea/ldapadmin/ldap_agent.py:107-114 | with no blank values stored, unpacking gives a record the entry holds |
| OrgRecords.UnpackOfHolds | eea/ldapadmin/ldap_agent.py:107-114 | unpacking text that holds a record gives back every field of that record |
| OrgRecords.DiffModify | eea/ldapadmin/ldap_agent.py:279-285 | when no mapped attribute of the entry holds a blank value, the diff from the entry's record, sent as one Modify or not at all, leaves the entry holding the new record |
| OrgRecords.SetOrgInfoSpec | eea/ldapadmin/ldap_agent.py:278-285 | a failed read is passed on with no change; no entry is added or removed; a failure changes nothing |
| OrgRecords.SetOrgInfoStores | eea/ldapadmin/ldap_agent.py:278-285 | with no blank values stored, `set_org_info` succeeds and rewrites exactly the mapped attributes of that entry |
| OrgRecords.SetOrgInfoReadBack | eea/ldapadmin/ldap_agent.py:214-285 | after `set_org_info`, `org_info` returns the new value of every field |
| OrgRecords.SetOrgInfoIdempotent | eea/ldapadmin/ldap_agent.py:281-282 | a second `set_org_info` with the same record computes an empty diff, sends nothing and changes nothing |
| OrgRecords.AttrOf | eea/ldapadmin/ldap_agent.py:273 | `org_attr_map[name]` is found exactly for the mapped fields, and gives that field's attribute |
| OrgRecords.CreateTextValue | eea/ldapadmin/ldap_agent.py:273-274 | `create_org` writes a mapped attribute exactly when its field is given, with the given value |
| OrgRecords.CreateThenUnpack | eea/ldapadmin/ldap_agent.py:267-276 | reading back a created organisation gives every given field, and `""` for the others |
| OrgRecords.NewOrgEntry | eea/ldapadmin/ldap_agent.py:273-275 | the organisation entry has no members and is not a group |
| OrgRecords.CharsetOrgDn | eea/ldapadmin/ldap_agent.py:271-275 | an id that passes the charset check has no comma, so `_org_dn` builds its DN |
| OrgRecords.FirstUnknownField | eea/ldapadmin/ldap_agent.py:273-274 | None exactly when every given field is mapped; otherwise the least unmapped name in sorted order, the one whose lookup raises first |
| Agent.Outcome | eea/ldapadmin/ldap_agent.py:287-291 | a directory answer is passed on as success exactly when it is success |
| Agent.AddOutcome | eea/ldapadmin/ldap_agent.py:310-319 | noSuchObject becomes a missing-parent error and entryAlreadyExists a taken-DN error, both naming the DN; other errors pass through |
| Agent.LastSegment | eea/ldapadmin/ldap_agent.py:302 | the last segment of the id: the text after its last `-`, or the whole id |
| Agent.RoleEntry | eea/ldapadmin/ldap_agent.py:300-306 | the new role is a group whose only value is `''` |
| Agent.NewRoleHasNoMembers | eea/ldapadmin/ldap_agent.py:300-306 | a freshly created role reports no members |
| Agent.AddToRoleSpec | eea/ldapadmin/ldap_agent.py:390-395 | a bad member type or id is reported with nothing changed; otherwise the add climb runs from the role's DN |
| Agent.RemoveFromRoleSpec | eea/ldapadmin/ldap_agent.py:454-470 | a bad member type or id is reported with nothing changed; otherwise only the single-role dance runs on the role's DN |
| Agent.RemoveFromRoleKeepsSubRoles | eea/ldapadmin/ldap_agent.py:454-470 | as written, `remove_from_role` leaves the entry of every child role exactly as it was, so a member held by a sub-role stays there |
| Agent.LdapAgent.constructor | eea/ldapadmin/ldap_agent.py:28-37 | a new agent keeps its suffixes and is not bound |
| Agent.LdapAgent.PerformBind | eea/ldapadmin/ldap_agent.py:240-244 | the flag is set exactly by a successful bind; a refused bind raises invalidCredentials and leaves the flag as it was |
| Agent.LdapAgent.CreateOrg | eea/ldapadmin/ldap_agent.py:267-276 | unbound, a bad character, or an unmapped field each fail with nothing changed; otherwise exactly one Add of the organisation entry runs |
| Agent.LdapAgent.SetOrgInfo | eea/ldapadmin/ldap_agent.py:278-285 | the directory calls make exactly the change `SetOrgInfoSpec` describes |
| Agent.LdapAgent.DeleteOrg | eea/ldapadmin/ldap_agent.py:287-291 | unbound or a comma in the id fails with nothing changed; otherwise exactly one Delete runs |
| Agent.LdapAgent.CreateRole | eea/ldapadmin/ldap_agent.py:293-319 | unbound fails with nothing changed; otherwise exactly one Add of `RoleEntry` at the role's DN runs, with errors mapped by `AddOutcome` |
| Agent.LdapAgent.SubRoles | eea/ldapadmin/ldap_agent.py:321-333 | a missing role entry makes the subtree search fail with noSuchObject; otherwise the result is strictly descending and lists exactly the groups at or below the role |
| Agent.LdapAgent.DeleteRole | eea/ldapadmin/ldap_agent.py:335-339 | unbound fails with nothing changed; a missing role fails with noSuchObject and nothing changed; otherwise deletes in `_sub_roles` order, and on a subtree made only of roles it succeeds and removes exactly that subtree |
| Agent.LdapAgent.DeleteAll | eea/ldapadmin/ldap_agent.py:337-339 | the loop makes exactly the deletions `DeleteEach` describes, stopping at the first refusal |
| Agent.LdapAgent.AddMemberDnToRoleDn | eea/ldapadmin/ldap_agent.py:359-388 | the while loop makes exactly the changes `AddMember` describes |
| Agent.LdapAgent.AddToRole | eea/ldapadmin/ldap_agent.py:390-395 | unbound fails with nothing changed; otherwise `AddToRoleSpec` |
| Agent.LdapAgent.RemoveMemberDnFromSingleRoleDn | eea/ldapadmin/ldap_agent.py:405-434 | the three Modify calls make exactly the changes and report exactly the error `RemoveSingle` describes |
| Agent.LdapAgent.RemoveMemberDnFromRoleDn | eea/ldapadmin/ldap_agent.py:436-452 | as written: a missing member, a missing role or no matching group each fail with nothing changed; otherwise the loop runs as `RemoveEachAsWritten`, and for a user or organisation it fails with noSuchAttribute and nothing changed |
| Agent.LdapAgent.RemoveFromEachAsWritten | eea/ldapadmin/ldap_agent.py:451-452 | the loop as written, with `(member_dn, sub_role_dn)`, makes exactly the changes `RemoveEachAsWritten` describes |
| Agent.LdapAgent.RemoveMemberDnFromRoleDnCorrected | eea/ldapadmin/ldap_agent.py:436-452 | the evidently intended version: the same three failures; otherwise the member leaves each matching group, deepest first, and on placeholder-correct groups it ends up in no group at or below the role |
| Agent.LdapAgent.RemoveFromEach | eea/ldapadmin/ldap_agent.py:451-452 | the corrected loop, role first, makes exactly the changes `RemoveEach` describes |
| Agent.LdapAgent.RemoveFromRole | eea/ldapadmin/ldap_agent.py:454-470 | unbound fails with nothing changed; otherwise `RemoveFromRoleSpec` |
| Text.SortDescending | eea/ldapadmin/ldap_agent.py:330-331 | `sort()` then `reverse()`: strictly descending, with exactly the elements of the set |
| Text.FirstOutside | eea/ldapadmin/ldap_agent.py:271-272 | None exactly when every character is allowed; otherwise the first position holding a character that is not |
| RolesEditor.RoleParents | eea/ldapadmin/roles_editor.py:40-47 | None gives `[]`; an id gives `Parents(id)` |
| RolesEditor.Parents | eea/ldapadmin/roles_editor.py:43-47 | the chain is never empty and ends with the id itself |
| RolesEditor.ParentsArePrefixes | eea/ldapadmin/roles_editor.py:43-47 | one element per segment; the k-th is the first k+1 segments joined by `-` |
| RolesEditor.ParentsStepUp | eea/ldapadmin/roles_editor.py:44-46 | the first element has one segment; each element is the next with its last segment removed (`rsplit('-', 1)[0]`) |
| RolesEditor.NewRoleId | eea/ldapadmin/roles_editor.py:170-177 | succeeds exactly when every character of the fragment is `a`–`z`, and otherwise reports the first bad character; the id is the fragment, or the parent plus `-` plus the fragment |
| RolesEditor.ComposeRoleId | eea/ldapadmin/roles_editor.py:174-177 | without a parent the id is the fragment; with one it is one character longer than parent and fragment together |
| RolesEditor.ComposedParent | eea/ldapadmin/roles_editor.py:174-177 | the new id's parent is the role it was created under, or none for a top-level role |
| RolesEditor.ComposedParents | eea/ldapadmin/roles_editor.py:174-177 | the new role's breadcrumbs are its parent's plus itself |
| RolesEditor.ComposedDn | eea/ldapadmin/roles_editor.py:174-177 | the new role's entry sits directly below its parent role's entry |
| RolesEditor.RedirectParentId | eea/ldapadmin/roles_editor.py:193 | the redirect goes to the parent id for a nested role, and to `""` for a top-level one |

## Left out

- The transport and its setup are left out: `connect`, `ldap.initialize`, the protocol version and the real calls. They are replaced by `DirectoryServer`.
- Text encoding is left out. The UTF-8 `encode`/`decode` of values and the `encoding` setting are not modelled: values are abstract strings.
- Operations outside this model: `role_names_in_role`, `role_info`, `user_info`, `search_by_name`, `list_member_roles` and `_query`.
  - `_sub_roles_with_member` is modelled only as the query `SubtreeGroupsWithMember`.
  - The filter escaping of `ldap.filter.filter_format` is a foreign library call.
- The `isinstance`/`type(…) is str` assertions are not modelled, because the model has a single string type.
- A search whose base DN is missing is modelled as an empty result, except in `_sub_roles`. A real server answers noSuchObject instead, which the agent would pass on. This covers:
  - the base searches of `_add_member_dn_to_role_dn` and `_remove_member_dn_from_role_dn`, so that their "DN not found" branches are reached;
  - the base search of `org_info`, so that a missing organisation fails its `assert len(result) == 1` (line 222), which the model reports as `NotFound`;
  - RoleTree.MembersInRole: its base and one-level searches of a missing role give no members instead of noSuchObject;
  - RoleTree.FilterRoles: its subtree search of a missing roles suffix gives no ids instead of noSuchObject.
  - `_sub_roles` (Agent.LdapAgent.SubRoles, and so `delete_role`) is the exception: it models the noSuchObject answer.
- Text attributes are single-valued: each attribute holds one value. Only `uniqueMember` is a set.
- Search results and Python dictionaries are sets and maps in the model: their iteration order is not modelled.
  - `_org_info_diff` walks `org_attr_map` in an unspecified order. The model uses the order of the source listing. Each change touches a different attribute, so the order does not change the result.
  - `members_in_role` returns lists built from a set. The model returns the set.
- Schema rules are modelled only where the agent depends on them (a group must keep a `uniqueMember`). No attribute syntax is checked, and `create_org` entries get no object class, as the source sends none.
- OrgRecords.SetOrgInfoStores: requires that no mapped attribute of the entry holds a blank value. OrgRecords.SetOrgInfoReadBack and OrgRecords.SetOrgInfoIdempotent require the same.
- OrgRecords.DiffModify: requires the same, for the same reason. `create_org` can store one, because it writes empty values too. Diffing against such an entry then sends a MOD_ADD for an attribute that exists. The model then fails with attributeOrValueExists; the lemma does not cover this case.
- Concurrency is not modelled. The tolerated errors stay as outcomes of a sequential `Modify`, and several branches are reachable only with a concurrent writer.
- The `roles_editor.py` code other than the three helpers is not modelled: templates, security declarations, redirects and session messages.

## Findings

| source | as written | input that shows it | evidently intended | confidence | as-written member | corrected member |
|---|---|---|---|---|---|---|
| eea/ldapadmin/ldap_agent.py:452 | `self._remove_member_dn_from_single_role_dn(member_dn, sub_role_dn)` passes the member DN as the role and the role as the member | removing `uid=jsmith,ou=Users,…` from any role that holds it: the first inner Modify targets the user entry, which is not a group, so the dance fails with noSuchAttribute and no role changes | `(sub_role_dn, member_dn)`, as the method is declared, so that the member leaves every matching sub-role | high (not executed) | Membership.SwappedRemovalFails | Membership.RemoveEachClears |
| eea/ldapadmin/ldap_agent.py:470 | `remove_from_role` runs only `_remove_member_dn_from_single_role_dn(role_dn, member_dn)` on the role itself, although its docstring (line 456) says the member must leave every sub-role too | `uid=jsmith,ou=Users,…` on both `K-N` and `K-N-O`; `remove_from_role('K-N', 'user', 'jsmith')` leaves the entry of `K-N-O` unchanged, so jsmith stays on `K-N-O` while no longer on `K-N` | clear the member from every group at or below the role, deepest first, as `_remove_member_dn_from_role_dn` does with its arguments in the declared order | medium (not executed) | Agent.RemoveFromRoleKeepsSubRoles | Membership.RemoveEachClearsSubtree |

The agent's `RemoveMemberDnFromRoleDn` models the code as written (`RemoveEachAsWritten`). `RemoveMemberDnFromRoleDnCorrected` is the intended version, built on `RemoveEach`, and it carries the clearing property.

The agent's `RemoveFromRole` models line 470 as written (`RemoveFromRoleSpec`). The only caller in the roles editor (roles_editor.py:229) uses it, so the subtree removal is reached by no caller outside the tests. The intended removal through every sub-role is `RemoveMemberDnFromRoleDnCorrected`, whose clearing property is `RemoveEachClearsSubtree`.

Two further points where the code differs from the description of the system follow the code. The larger difference, `remove_from_role` not reaching sub-roles, is the second Findings row above.

- `filter_roles` compares segments case-sensitively (line 151).
- `create_org` writes every given field, including empty ones (lines 273-274).

`RemoveSingleFromEmptyRole` records a consequence of the error handling on line 413. The handler catches only objectClassViolation, so on a role holding only `''`, a server that answers a duplicate value with attributeOrValueExists makes `remove_from_role` raise at step 1.
