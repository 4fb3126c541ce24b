/** The role guards (src/middlewares/roles.middleware.ts): loadRoles puts
    the caller's role names in `res.locals.roles`, requireRoles lets the
    request on when one of the allowed roles is among them. */
module RolesMw {
  import opened Common
  import opened Store
  import opened RoleModel

  /** `rows.map((r) => r.name)`. */
  function Names(rs: seq<Role>): (r: seq<string>)
    ensures |r| == |rs| && forall i :: 0 <= i < |rs| ==> r[i] == rs[i].name
  {
    seq(|rs|, i requires 0 <= i < |rs| => rs[i].name)
  }

  /** `user?.id ?? userSecurity?.user_id ?? null`: the user's id when
      there is a user, else the security row's user id. */
  function CallerId(userId: Option<int>, securityUserId: Option<int>): Option<int>
  {
    if userId.Some? then userId else securityUserId
  }

  /** loadRoles: 401 when the caller id is missing or 0, else the names of
      the caller's roles. */
  function LoadRoles(roles: seq<Role>, userRoles: set<(int, int)>, userId: Option<int>, securityUserId: Option<int>)
    : (r: Result<seq<string>, Outcome>)
    ensures var id := CallerId(userId, securityUserId);
      (r.Err? <==> id.None? || id.value == 0)
      && (r.Err? ==> r.error == Respond(401, "Not Authorized"))
      && (r.Ok? ==> forall n :: n in r.value <==>
            exists x :: x in roles && (id.value, x.id) in userRoles && x.name == n)
  {
    var id := CallerId(userId, securityUserId);
    if id.None? || id.value == 0 then Err(Respond(401, "Not Authorized"))
    else
      var rs := GetRolesByUserId(roles, userRoles, id.value);
      var names := Names(rs);
      assert forall n :: n in names ==> exists k :: 0 <= k < |rs| && rs[k].name == n;
      assert forall x :: x in rs ==> x.name in names by {
        forall x | x in rs ensures x.name in names {
          var k :| 0 <= k < |rs| && rs[k] == x;
          assert names[k] == x.name;
        }
      }
      Ok(names)
  }

  /** A user id of 0 is not replaced by the security row's: `??` only
      skips a missing value, and 0 is then refused. */
  lemma ZeroUserIdRefused(roles: seq<Role>, userRoles: set<(int, int)>, securityUserId: Option<int>)
    ensures LoadRoles(roles, userRoles, Some(0), securityUserId) == Err(Respond(401, "Not Authorized"))
    ensures securityUserId.Some? && securityUserId.value != 0 ==>
      LoadRoles(roles, userRoles, None, securityUserId).Ok?
  {
  }

  /** requireRoles(...allowed): on when some allowed role is held; missing
      roles count as none. */
  function RequireRoles(allowed: seq<string>, held: Option<seq<string>>): (o: Outcome)
    ensures o == Next <==> held.Some? && exists a :: a in allowed && a in held.value
    ensures o != Next ==> o == Respond(403, "Forbidden: missing role")
    ensures allowed == [] ==> o == Respond(403, "Forbidden: missing role")
  {
    var roles := if held.Some? then held.value else [];
    if exists a :: a in allowed && a in roles then Next else Respond(403, "Forbidden: missing role")
  }

  /** loadRoles then requireRoles lets a caller on exactly when the caller
      is linked to a role whose name is allowed. */
  lemma GuardedByLinks(roles: seq<Role>, userRoles: set<(int, int)>, userId: int, allowed: seq<string>)
    requires userId != 0
    ensures var loaded := LoadRoles(roles, userRoles, Some(userId), None);
      loaded.Ok?
      && (RequireRoles(allowed, Some(loaded.value)) == Next <==>
            exists x :: x in roles && (userId, x.id) in userRoles && x.name in allowed)
  {
    var loaded := LoadRoles(roles, userRoles, Some(userId), None);
    if exists x :: x in roles && (userId, x.id) in userRoles && x.name in allowed {
      var x :| x in roles && (userId, x.id) in userRoles && x.name in allowed;
      assert x.name in loaded.value;
    }
  }
}
