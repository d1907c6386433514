/** `hasPrivilege` of forumApi/utils/privilegeCheck.js: the owner-or-role test used before
    deleting a post. */
module Privilege {

  import opened Base

  /** `privilegedRoles`. */
  const PrivilegedRoles: set<Value> := {Str("admin"), Str("moderator")}

  /** `hasPrivilege(ownerId, userId, userRole)`: false exactly when the user neither owns the
      resource (`===`) nor holds a privileged role (`Set.has`). */
  function HasPrivilege(ownerId: Value, userId: Value, userRole: Value): (r: bool)
  {
    var isOwner := ownerId == userId;
    var isPrivileged := userRole in PrivilegedRoles;
    if !isOwner && !isPrivileged then false else true
  }

  /** The decision is exactly "owner, or admin, or moderator". */
  lemma PrivilegeCharacterized(ownerId: Value, userId: Value, userRole: Value)
    ensures HasPrivilege(ownerId, userId, userRole)
      <==> ownerId == userId || userRole == Str("admin") || userRole == Str("moderator")
  {
  }

  /** The owner is allowed whatever the role, `undefined` included. */
  lemma OwnerAllowed(id: Value, userRole: Value)
    ensures HasPrivilege(id, id, userRole)
  {
  }

  /** An administrator or a moderator is allowed on what they do not own. */
  lemma PrivilegedAllowed(ownerId: Value, userId: Value, userRole: Value)
    requires userRole in PrivilegedRoles
    ensures HasPrivilege(ownerId, userId, userRole)
  {
  }

  /** A non-owner with any other role ('user', undefined, a number) is refused. */
  lemma OthersDenied(ownerId: Value, userId: Value, userRole: Value)
    requires ownerId != userId
    requires userRole != Str("admin") && userRole != Str("moderator")
    ensures !HasPrivilege(ownerId, userId, userRole)
  {
  }

  /** Ownership is strict equality: the number 5 does not own what the string "5" owns. */
  lemma StrictOwnership()
    ensures !HasPrivilege(Num(5), Str("5"), Str("user"))
  {
  }
}
