/**
 * User privilege facts (`check_user_privileges`). The identifiers, the exit
 * status of the `groups | grep sudo` pipeline and the text printed by
 * `sudo -l` are inputs; the only decision the source makes is the
 * "In Sudo Group" answer.
 */
module Privileges {

  /** A value of the privilege dictionary: an identifier or a text. */
  datatype Value = Int(n: int) | Text(s: string)

  /** Python truthiness of a dictionary value: non-zero numbers and non-empty strings. */
  predicate Truthy(v: Value)
  {
    match v
    case Int(n) => n != 0
    case Text(s) => s != ""
  }

  datatype UserPrivileges = UserPrivileges(
    userId: int,
    groupId: int,
    inSudoGroup: string,
    sudoPermissions: string)

  /** "In Sudo Group": `Yes` exactly when the shell pipeline exits with status 0, otherwise `No`. */
  function SudoGroupAnswer(grepStatus: int): (answer: string)
    ensures answer == "Yes" <==> grepStatus == 0
    ensures answer == "No" <==> grepStatus != 0
  {
    if grepStatus == 0 then "Yes" else "No"
  }

  function CheckUserPrivileges(userId: int, groupId: int, grepStatus: int, sudoOutput: string): (p: UserPrivileges)
    ensures p.inSudoGroup == "Yes" <==> grepStatus == 0
    ensures p.inSudoGroup == "No" <==> grepStatus != 0
    ensures p.userId == userId && p.groupId == groupId && p.sudoPermissions == sudoOutput
  {
    UserPrivileges(userId, groupId, SudoGroupAnswer(grepStatus), sudoOutput)
  }

  /** The dictionary's values in insertion order, as the printer visits them. */
  function Values(p: UserPrivileges): seq<Value>
  {
    [Int(p.userId), Int(p.groupId), Text(p.inSudoGroup), Text(p.sudoPermissions)]
  }
}
