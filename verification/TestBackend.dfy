/** The in-memory backend of the crate's tests: users, groups and their permissions. */
module TestBackends {
  import opened Access
  import opened SessionValues
  import opened Sessions
  import opened Wrappers

  type Group = string

  class TestBackend {
    var users: map<UserId, User>
    var userPermissions: map<UserId, set<Permission>>
    var groups: map<Group, set<UserId>>
    var groupPermissions: map<Group, set<Permission>>

    /** Every group has members and permissions recorded, every user permissions. */
    ghost predicate Valid()
      reads this
    {
      && groups.Keys == groupPermissions.Keys && users.Keys == userPermissions.Keys
      && forall id | id in users :: users[id].id == id
    }

    constructor ()
      ensures Valid() && users == map[] && groups == map[]
    {
      users, userPermissions, groups, groupPermissions := map[], map[], map[], map[];
    }

    function OwnPermissions(id: UserId): set<Permission>
      reads this
    {
      if id in userPermissions then userPermissions[id] else {}
    }

    function BelongsTo(id: UserId): set<Group>
      reads this
    {
      set group | group in groups && id in groups[group]
    }

    function PermissionsOfGroups(id: UserId): (permissions: set<Permission>)
      reads this
      ensures forall p :: p in permissions <==>
                exists group :: group in groups && group in groupPermissions
                                && id in groups[group] && p in groupPermissions[group]
    {
      var belongsTo := BelongsTo(id);
      set group, p | group in groupPermissions && group in belongsTo && p in groupPermissions[group] :: p
    }

    function GrantsOf(id: UserId): Grants
      reads this
    {
      Grants(Ok(OwnPermissions(id)), Ok(PermissionsOfGroups(id)))
    }

    method AddUser(user: User, permissions: seq<Permission>)
      requires Valid()
      modifies this
      ensures Valid() && users == old(users)[user.id := user]
      ensures OwnPermissions(user.id) == set p | p in permissions
      ensures forall id | id != user.id :: OwnPermissions(id) == old(OwnPermissions(id))
      ensures forall id :: PermissionsOfGroups(id) == old(PermissionsOfGroups(id))
    {
      users := users[user.id := user];
      userPermissions := userPermissions[user.id := set p | p in permissions];
    }

    /** A new group starts without members; adding a group anew empties it. */
    method AddGroup(group: Group, permissions: seq<Permission>)
      requires Valid()
      modifies this
      ensures Valid() && groups == old(groups)[group := {}]
      ensures groupPermissions == old(groupPermissions)[group := set p | p in permissions]
      ensures users == old(users) && userPermissions == old(userPermissions)
      ensures group !in old(groups) ==> forall id :: PermissionsOfGroups(id) == old(PermissionsOfGroups(id))
    {
      groups := groups[group := {}];
      groupPermissions := groupPermissions[group := set p | p in permissions];
      if group !in old(groups) {
        forall id, p | p in old(PermissionsOfGroups(id)) ensures p in PermissionsOfGroups(id) {
          var g :| g in old(groups) && g in old(groupPermissions)
                   && id in old(groups)[g] && p in old(groupPermissions)[g];
          assert g in groups && id in groups[g] && p in groupPermissions[g];
        }
        assert forall id :: PermissionsOfGroups(id) == old(PermissionsOfGroups(id));
      }
    }

    /** Joining a known group adds its permissions; joining an unknown one does nothing. */
    method AddUserToGroup(user: User, group: Group)
      requires Valid()
      modifies this
      ensures Valid() && users == old(users) && userPermissions == old(userPermissions)
      ensures groupPermissions == old(groupPermissions)
      ensures groups == if group in old(groups) then old(groups)[group := old(groups)[group] + {user.id}]
                        else old(groups)
      ensures PermissionsOfGroups(user.id) ==
                old(PermissionsOfGroups(user.id)) + (if group in groups then groupPermissions[group] else {})
      ensures forall id | id != user.id :: PermissionsOfGroups(id) == old(PermissionsOfGroups(id))
    {
      if group in groups {
        groups := groups[group := groups[group] + {user.id}];
      }
    }
  }

  /** A predicate for one permission allows exactly the users that have it themselves or through some group. */
  lemma SingleGrant(backend: TestBackend, user: User, permission: Permission, order: seq<Permission>)
    requires Iterates(order, {permission})
    ensures var policy := NEW_PREDICATE.WithPermissions([permission]);
            Decide(policy, Some(user), backend.GrantsOf(user.id), order) == Allow <==>
              || (user.id in backend.userPermissions && permission in backend.userPermissions[user.id])
              || exists group :: group in backend.groups && group in backend.groupPermissions
                   && user.id in backend.groups[group] && permission in backend.groupPermissions[group]
  {
    SinglePermission(permission, order, user, backend.GrantsOf(user.id));
  }
}
