/** The two permission classes the views use.

    A request carries an HTTP method and a viewer. An anonymous viewer is
    never staff, as in the framework's anonymous-user object. */
module Permissions {
  import opened Models

  datatype Method = Get | Head | Options | Post | Put | Patch | Delete

  /** The framework's read-only methods. */
  predicate IsSafe(m: Method) {
    m == Get || m == Head || m == Options
  }

  datatype Viewer = Anonymous | Member(id: UserId, isStaff: bool)

  predicate IsAuthenticated(v: Viewer) {
    v.Member?
  }

  predicate IsStaff(v: Viewer) {
    v.Member? && v.isStaff
  }

  predicate IsAuthor(v: Viewer, author: UserId) {
    v.Member? && v.id == author
  }

  /** The viewer is a stored user, with that user's staff flag. */
  ghost predicate ViewerKnown(s: Store, v: Viewer) {
    v.Member? ==> v.id in s.users && s.users[v.id].isStaff == v.isStaff
  }

  /** `AuthorOrAdminOrReadOnly.has_permission`: the view-level check. */
  function AuthorOrAdminOrReadOnly(m: Method, v: Viewer): (ok: bool)
    ensures IsSafe(m) ==> ok
    ensures IsAuthenticated(v) || IsStaff(v) ==> ok
    ensures !ok <==> !IsSafe(m) && v.Anonymous?
  {
    IsSafe(m) || IsAuthenticated(v) || IsStaff(v)
  }

  /** `AuthorOrAdminOrReadOnly.has_object_permission`: the check on one
      recipe, given its author. */
  function AuthorOrAdminOrReadOnlyObject(m: Method, v: Viewer, author: UserId): (ok: bool)
    ensures IsAuthor(v, author) ==> ok
    ensures IsSafe(m) || IsStaff(v) ==> ok
    ensures !IsSafe(m) && !IsAuthor(v, author) && !IsStaff(v) ==> !ok
  {
    IsAuthor(v, author) || IsSafe(m) || IsStaff(v)
  }

  /** `IsAuthenticatedOrAdmin.has_permission`. Since an anonymous viewer is
      never staff, it lets exactly the signed-in viewers through. */
  function IsAuthenticatedOrAdmin(v: Viewer): (ok: bool)
    ensures !ok <==> !IsAuthenticated(v) && !IsStaff(v)
    ensures ok <==> v.Member?
  {
    IsAuthenticated(v) || IsStaff(v)
  }

  /** A request that changes a recipe gets past both checks only when the
      viewer is the recipe's author or staff. */
  lemma WritesNeedAuthorOrStaff(m: Method, v: Viewer, author: UserId)
    requires !IsSafe(m)
    requires AuthorOrAdminOrReadOnly(m, v) && AuthorOrAdminOrReadOnlyObject(m, v, author)
    ensures v.Member? && (v.id == author || v.isStaff)
  {
  }
}
