/** Roles (src/models/role.ts): the role lookup by name, the INSERT IGNORE
    that links a user to a role, and the join that lists a user's roles. */
module RoleModel {
  import opened Common
  import opened Store

  /** getRoleByName: the first role with that name, or null (None). */
  function GetRoleByName(roles: seq<Role>, name: string): (r: Option<Role>)
    ensures r.None? <==> forall j :: 0 <= j < |roles| ==> roles[j].name != name
    ensures r.Some? ==> r.value.name == name
                        && exists i :: 0 <= i < |roles| && roles[i] == r.value
                                       && forall j :: 0 <= j < i ==> roles[j].name != name
  {
    if roles == [] then None
    else if roles[0].name == name then Some(roles[0])
    else
      var r := GetRoleByName(roles[1..], name);
      assert forall j :: 1 <= j < |roles| ==> roles[j] == roles[1..][j - 1];
      if r.Some? then
        var i :| 0 <= i < |roles[1..]| && roles[1..][i] == r.value
                 && forall j :: 0 <= j < i ==> roles[1..][j].name != name;
        assert roles[i + 1] == r.value;
        r
      else r
  }

  /** assignRoleToUserByName: an unknown role name throws "Role not found"
      and links nothing; otherwise the (user, role id) pair joins the set. */
  method AssignRoleToUserByName(db: Db, userId: int, roleName: string) returns (r: Result<(), string>)
    modifies db`userRoles
    ensures GetRoleByName(db.roles, roleName).None? ==>
      r == Err("Role not found: " + roleName) && db.userRoles == old(db.userRoles)
    ensures GetRoleByName(db.roles, roleName).Some? ==>
      r == Ok(()) && db.userRoles == old(db.userRoles) + {(userId, GetRoleByName(db.roles, roleName).value.id)}
  {
    var role := GetRoleByName(db.roles, roleName);
    if role.None? {
      return Err("Role not found: " + roleName);
    }
    db.userRoles := db.userRoles + {(userId, role.value.id)};
    return Ok(());
  }

  /** getRolesByUserId: the roles joined to the user through user_roles, in
      table order. */
  function GetRolesByUserId(roles: seq<Role>, userRoles: set<(int, int)>, userId: int): (r: seq<Role>)
    ensures forall x :: x in r <==> x in roles && (userId, x.id) in userRoles
    ensures |r| <= |roles|
  {
    if roles == [] then []
    else
      var rest := GetRolesByUserId(roles[1..], userRoles, userId);
      assert forall x :: x in roles <==> x == roles[0] || x in roles[1..];
      if (userId, roles[0].id) in userRoles then [roles[0]] + rest else rest
  }

  /** Linking a role makes it listed for the user, linking it again
      changes nothing, and other users' roles are untouched. */
  lemma AssignThenListed(roles: seq<Role>, userRoles: set<(int, int)>, userId: int, other: int, role: Role)
    requires role in roles
    ensures var after := userRoles + {(userId, role.id)};
      role in GetRolesByUserId(roles, after, userId)
      && after + {(userId, role.id)} == after
      && (other != userId ==> GetRolesByUserId(roles, after, other) == GetRolesByUserId(roles, userRoles, other))
  {
    var after := userRoles + {(userId, role.id)};
    if other != userId {
      SameLinks(roles, after, userRoles, other);
    }
  }

  /** The listing of a user depends only on that user's links. */
  lemma {:induction false} SameLinks(roles: seq<Role>, a: set<(int, int)>, b: set<(int, int)>, userId: int)
    requires forall x :: x in roles ==> ((userId, x.id) in a <==> (userId, x.id) in b)
    ensures GetRolesByUserId(roles, a, userId) == GetRolesByUserId(roles, b, userId)
  {
    if roles != [] {
      assert forall x :: x in roles[1..] ==> x in roles;
      SameLinks(roles[1..], a, b, userId);
    }
  }
}
