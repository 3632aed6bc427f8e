/** What the agent raises, one constructor per cause. The comment on each
    names the Python exception the source raises for it. */
module Errors {
  import opened Directory

  datatype Failure =
    | NotBound                        // AssertionError: a mutator called before perform_bind
    | BadDn                           // AssertionError: a DN or id the codecs refuse
    | NotFound(dn: string)            // ValueError / AssertionError: the entry is absent
    | NotAMember(member: string, role: string)  // ValueError
    | ParentMissing(dn: string)       // ValueError from create_role (noSuchObject)
    | AlreadyExists(dn: string)       // ValueError from create_role (entryAlreadyExists)
    | UnknownMemberType(kind: string) // ValueError from _member_dn
    | UnknownField(name: string)      // KeyError from create_org
    | BadCharacter(ch: char)          // AssertionError from an id charset check
    | NoParentDn(dn: string)          // IndexError: `split(',', 1)[1]` on a DN without ','
    | Ldap(code: ResultCode)          // a directory error the agent does not catch
}
