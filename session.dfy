/** The session token's claims and the request principal the JWT strategy derives from them. Signature
    checking is not part of this model: a token is represented by the claims it carries. */
module Session {
  import opened Wrappers

  /** The claims `AuthService.login` signs; `permissions` is absent from tokens issued before it existed. */
  datatype Payload = Payload(email: string, sub: nat, role: Option<string>, permissions: Option<seq<string>>)

  /** `req.user`: the principal snapshot attached to an authenticated request. */
  datatype RequestUser = RequestUser(userId: int, email: string, role: Option<string>, permissions: seq<string>)

  /** `JwtStrategy.validate` as its tests describe it: the claims renamed, `permissions` defaulting to `[]`. */
  function Validate(p: Payload): (r: RequestUser)
    ensures r.userId == p.sub && r.email == p.email && r.role == p.role
    ensures p.permissions.Some? ==> r.permissions == p.permissions.value
    ensures p.permissions.None? ==> r.permissions == []
  {
    RequestUser(p.sub, p.email, p.role, p.permissions.GetOr([]))
  }

  /** An older token without a `permissions` claim yields a principal holding no permissions, and the
      other claims pass through. */
  lemma OlderTokenHoldsNothing(p: Payload)
    requires p.permissions.None?
    ensures Validate(p) == RequestUser(p.sub, p.email, p.role, [])
  {
  }
}
