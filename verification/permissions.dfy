/** The three permission classes of api/permissions.py. */
module Permissions {
  import opened Users

  /** `request.user`: an anonymous visitor or a signed-in account. */
  datatype Principal = Anonymous | Authenticated(user: User)

  datatype Request = Request(verb: string, principal: Principal)

  /** `permissions.SAFE_METHODS`. */
  const SafeMethods: seq<string> := ["GET", "HEAD", "OPTIONS"]

  predicate IsSafe(verb: string) {
    verb in SafeMethods
  }

  predicate IsAuthenticatedAdmin(p: Principal) {
    p.Authenticated? && IsAdmin(p.user)
  }

  /** IsAdminOrReadOnly.has_permission. */
  function AdminOrReadOnly(req: Request): (r: bool)
    ensures IsSafe(req.verb) ==> r
    ensures req.principal.Anonymous? ==> (r <==> IsSafe(req.verb))
  {
    IsSafe(req.verb) || IsAuthenticatedAdmin(req.principal)
  }

  /** IsAdmin.has_permission: whatever it grants IsAdminOrReadOnly grants
      too, and on unsafe verbs the two agree. */
  function AdminOnly(req: Request): (r: bool)
    ensures !IsSafe(req.verb) ==> (r <==> AdminOrReadOnly(req))
    ensures r ==> req.principal.Authenticated? && AdminOrReadOnly(req)
  {
    IsAuthenticatedAdmin(req.principal)
  }

  /** `obj.author == request.user`: model instances compare by primary key,
      and the anonymous user equals no account. */
  predicate IsAuthor(p: Principal, authorId: nat) {
    p.Authenticated? && p.user.id == authorId
  }

  /** IsAuthorOrReadOnly.has_object_permission for an object whose author
      has primary key `authorId`. */
  function AuthorOrReadOnly(req: Request, authorId: nat): (r: bool)
    ensures IsSafe(req.verb) ==> r
    ensures req.principal.Anonymous? ==> (r <==> IsSafe(req.verb))
    ensures !IsSafe(req.verb) && req.principal.Authenticated? ==> (r <==> req.principal.user.id == authorId)
  {
    IsSafe(req.verb) || IsAuthor(req.principal, authorId)
  }

  /** IsAdmin: an authenticated administrator (by role or as superuser),
      whatever the verb. */
  lemma AdminOnlyIff(req: Request)
    ensures AdminOnly(req) <==>
      req.principal.Authenticated? && (req.principal.user.isSuperuser || req.principal.user.role == Admin)
  {
  }

  /** Safe methods are open to everyone, anonymous visitors included. */
  lemma SafeMethodsOpen(verb: string, p: Principal, authorId: nat)
    requires verb in {"GET", "HEAD", "OPTIONS"}
    ensures AdminOrReadOnly(Request(verb, p))
    ensures AuthorOrReadOnly(Request(verb, p), authorId)
  {
  }

  /** Any other verb needs an authenticated administrator. */
  lemma UnsafeNeedsAdmin(req: Request)
    requires !IsSafe(req.verb)
    ensures AdminOrReadOnly(req) <==> req.principal.Authenticated? && IsAdmin(req.principal.user)
    ensures req.principal.Anonymous? ==> !AdminOrReadOnly(req)
  {
  }

  /** Whenever IsAdmin grants a request, so does IsAdminOrReadOnly. */
  lemma AdminOnlyImpliesAdminOrReadOnly(req: Request)
    ensures AdminOnly(req) ==> AdminOrReadOnly(req)
  {
  }

  /** An unsafe verb on an object is granted only to its author; neither
      the role nor superuser status plays a part. */
  lemma AuthorOrReadOnlyIgnoresRole(verb: string, u: User, role: Role, superuser: bool, authorId: nat)
    requires !IsSafe(verb)
    ensures AuthorOrReadOnly(Request(verb, Authenticated(u)), authorId) <==> u.id == authorId
    ensures AuthorOrReadOnly(Request(verb, Authenticated(u)), authorId)
      == AuthorOrReadOnly(Request(verb, Authenticated(u.(role := role, isSuperuser := superuser))), authorId)
    ensures !AuthorOrReadOnly(Request(verb, Anonymous), authorId)
  {
  }
}
