/**
 The administrator API and the startup step as they run over the stored tables (app/api/users.py,
 app/services/access_control_service.py): the rows are updated in place, one statement after another.
 */
module AccessControl {
  import opened Options
  import opened PyText
  import opened AccessTables
  import opened ConfiguredNames
  import opened AccessRules

  class AccessStore {
    const bootstrap: string
    var users: map<nat, User>
    var entries: map<nat, Entry>
    var nextUser: nat
    var nextEntry: nat

    function State(): Tables
      reads this
    {
      Tables(users, entries, nextUser, nextEntry)
    }

    constructor (bootstrap: string)
      ensures Valid(State()) && users == map[] && entries == map[] && this.bootstrap == bootstrap
    {
      this.bootstrap := bootstrap;
      users, entries, nextUser, nextEntry := map[], map[], 0, 0;
    }

    /** `ensure` of the allowlist. */
    method Ensure(username: string, role: Role, addedBy: Option<nat>, reactivate: bool, updateRole: bool)
      requires Valid(State()) && Normalize(username) != []
      modifies this
      ensures Valid(State()) && State() == Ensured(old(State()), username, role, addedBy, reactivate, updateRole)
    {
      EnsureTouchesOneName(State(), username, role, addedBy, reactivate, updateRole);
      var found := EntryNamed(State(), username);
      if found.Some? {
        var e := entries[found.value];
        if reactivate && !e.active {
          e := e.(active := true);
        }
        if updateRole && e.role != role {
          e := e.(role := role);
        }
        entries := entries[found.value := e];
      } else {
        entries := entries[nextEntry := Entry(Normalize(username), role, true, addedBy)];
        nextEntry := nextEntry + 1;
      }
    }

    method EnsureAllowlistAccess(username: string, role: Role, admin: nat)
      requires Valid(State()) && Normalize(username) != []
      modifies this
      ensures Valid(State()) && State() == WithAccess(old(State()), username, role, admin)
    {
      AccessTouchesOneName(State(), username, role, admin);
      Ensure(username, role, Some(admin), true, true);
      var existing := UserNamed(State(), username);
      if existing.Some? {
        if users[existing.value].role != role {
          users := users[existing.value := users[existing.value].(role := role)];
        } else {
          SameRole(State(), existing.value);
        }
      }
    }

    method CreateUser(username: string, role: Role, admin: nat) returns (reply: Reply)
      requires Valid(State())
      modifies this
      ensures Valid(State()) && (State(), reply) == AfterCreateUser(old(State()), username, role, admin)
    {
      CreationKeeps(State(), username, role, admin);
      var name := Normalize(username);
      if !UsableLength(name) {
        return Invalid;
      }
      if UserNamed(State(), name).Some? {
        return Conflict(UserExists);
      }
      NormalizeIdempotent(username);
      Ensure(name, role, Some(admin), true, true);
      users := users[nextUser := User(name, role)];
      nextUser := nextUser + 1;
      return Done;
    }

    method AddToAllowlist(username: string, role: Role, admin: nat) returns (reply: Reply)
      requires Valid(State())
      modifies this
      ensures Valid(State()) && (State(), reply) == AfterAdd(old(State()), username, role, admin)
    {
      var name := Normalize(username);
      if !UsableLength(name) {
        return Invalid;
      }
      if IsAllowlisted(State(), name) {
        return Conflict(AlreadyAllowlisted);
      }
      NormalizeIdempotent(username);
      EnsureAllowlistAccess(name, role, admin);
      return Done;
    }

    method AddBulkToAllowlist(usernames: seq<string>, role: Role, admin: nat) returns (reply: Reply)
      requires Valid(State())
      modifies this
      ensures Valid(State()) && (State(), reply) == AfterBulkRequest(old(State()), usernames, role, admin)
    {
      if BulkNames(usernames).None? {
        return Invalid;
      }
      var names := Cleaned(usernames);
      CleanedIsNormalAndDistinct(usernames);
      var added, already: seq<string> := [], [];
      for i := 0 to |names|
        invariant Valid(State())
        invariant (State(), added, already) == AfterBulk(old(State()), names[..i], role, admin)
      {
        BulkOneMore(old(State()), names, i, role, admin);
        var listed := AllowUnlessListed(names[i], role, admin);
        if listed {
          already := already + [names[i]];
        } else {
          added := added + [names[i]];
        }
      }
      assert names[..|names|] == names;
      return Added(added, already);
    }

    /** One turn of the loop: an active entry is left alone, any other name is given access. */
    method AllowUnlessListed(name: string, role: Role, admin: nat) returns (listed: bool)
      requires Valid(State()) && name != [] && Normalize(name) == name
      modifies this
      ensures listed == IsAllowlisted(old(State()), name) && Valid(State())
      ensures State() == if listed then old(State()) else WithAccess(old(State()), name, role, admin)
    {
      listed := IsAllowlisted(State(), name);
      if !listed {
        EnsureAllowlistAccess(name, role, admin);
      }
    }

    method RemoveFromAllowlist(entryId: nat, admin: nat) returns (reply: Reply)
      requires Valid(State())
      modifies this
      ensures Valid(State()) && (State(), reply) == AfterRemove(old(State()), entryId, admin, bootstrap)
    {
      if entryId !in entries {
        return NotFound;
      }
      var username := entries[entryId].username;
      if Normalize(username) == Normalize(bootstrap) {
        return Conflict(BootstrapProtected);
      }
      var target := UserNamed(State(), username);
      if target == Some(admin) {
        return Conflict(OwnAccess);
      }
      if target.Some? && IsEffectiveAdmin(State(), target.value) && CountEffectiveAdmins(State()) <= 1 {
        return Conflict(LastAdministrator);
      }
      DeletingTouchesOneName(State(), entryId);
      entries := entries - {entryId};
      return Done;
    }

    method UpdateUser(userId: nat, newRole: Option<Role>, admin: nat) returns (reply: Reply)
      requires Valid(State())
      modifies this
      ensures Valid(State()) && (State(), reply) == AfterUpdate(old(State()), userId, newRole, admin, bootstrap)
    {
      UpdateStaysValid(State(), userId, newRole, admin, bootstrap);
      if userId !in users {
        return NotFound;
      }
      if newRole.None? {
        return Invalid;
      }
      var username, role := users[userId].username, newRole.value;
      if Normalize(username) == Normalize(bootstrap) && !role.Admin? {
        return Conflict(BootstrapProtected);
      }
      if userId == admin && !role.Admin? {
        return Conflict(OwnAccess);
      }
      var losesAdmin := IsEffectiveAdmin(State(), userId) && !role.Admin?;
      if losesAdmin && CountEffectiveAdmins(State()) <= 1 {
        return Conflict(LastAdministrator);
      }
      var entry := EntryNamed(State(), username);
      users := users[userId := users[userId].(role := role)];
      if entry.Some? {
        entries := entries[entry.value := entries[entry.value].(role := role)];
      }
      return Done;
    }

    method RevokeUserAccess(userId: nat, admin: nat) returns (reply: Reply)
      requires Valid(State())
      modifies this
      ensures Valid(State()) && (State(), reply) == AfterRevoke(old(State()), userId, admin, bootstrap)
    {
      if userId !in users {
        return NotFound;
      }
      var entry := EntryNamed(State(), users[userId].username);
      if entry.None? || !entries[entry.value].active {
        return NotFound;
      }
      reply := RemoveFromAllowlist(entry.value, admin);
    }

    /**
     `provision_external_user`. `winner` is the role of the account that somebody else inserts under the very name between
     this handler's lookup and its insert, if anybody does: the insert is then rolled back and the lookup repeated.
     */
    method ProvisionExternalUser(username: string, winner: Option<Role>) returns (user: Option<nat>, created: bool)
      requires Valid(State())
      requires winner.Some? ==> Normalize(username) != [] && UserNamed(State(), Normalize(username)).None?
      modifies this
      ensures Valid(State())
      ensures State() == if winner.Some? then WithNewUser(old(State()), Normalize(username), winner.value) else AfterSignIn(old(State()), username)
      ensures user == if Normalize(username) == [] then None else UserNamed(State(), Normalize(username))
      ensures Normalize(username) != [] ==> user.Some?
      ensures created <==> winner.None? && Normalize(username) != [] && UserNamed(old(State()), Normalize(username)).None?
    {
      var name := Normalize(username);
      if name == [] {
        return None, false;
      }
      NormalizeIdempotent(username);
      NormalNameIsUsable(username);
      user := UserNamed(State(), name);
      if user.Some? {
        return user, false;
      }
      NameIsFree(State(), name);
      var role := SignInRole(State(), name);
      NewUserTouchesNoEntry(State(), name, if winner.Some? then winner.value else role);
      if winner.Some? {
        users := users[nextUser := User(name, winner.value)];
        nextUser := nextUser + 1;
        assert users[nextUser - 1].username == name;
      }
      created := InsertUnlessTaken(name, role);
      user := UserNamed(State(), name);
    }

    /** The insert: on a taken name it is rolled back. Afterwards there is an account of that name. */
    method InsertUnlessTaken(name: string, role: Role) returns (inserted: bool)
      requires Valid(State()) && name != [] && Normalize(name) == name
      requires UserNamed(State(), name).Some? ==> NameTaken(State(), name)
      modifies this
      ensures Valid(State()) && UserNamed(State(), name).Some? && inserted == !NameTaken(old(State()), name)
      ensures State() == if inserted then WithNewUser(old(State()), name, role) else old(State())
    {
      NormalNameIsUsable(name);
      inserted := !NameTaken(State(), name);
      if inserted {
        NewUserTouchesNoEntry(State(), name, role);
        users := users[nextUser := User(name, role)];
        nextUser := nextUser + 1;
      }
      assert NameTaken(State(), name) by {
        assert inserted ==> users[nextUser - 1].username == name;
      }
      TakenNameIsFound(State(), name);
    }

    /** `ensure_configured_access`, run at startup; returns the bootstrap administrator's id, or None. */
    method EnsureConfiguredAccess(configured: string, hasPassword: bool) returns (admin: Option<nat>)
      requires Valid(State())
      modifies this
      ensures Valid(State()) && (State(), admin) == AfterStartup(old(State()), configured, bootstrap, hasPassword)
    {
      var names := ConfiguredAllowlistUsernames(configured);
      CleanedIsNormalAndDistinct(Split(configured));
      for i := 0 to |names|
        invariant Valid(State())
        invariant State() == WithConfigured(old(State()), names[..i])
      {
        assert names[..i + 1][..i] == names[..i] && names[..i + 1][i] == names[i];
        Ensure(names[i], Member, None, true, false);
      }
      assert names[..|names|] == names;
      admin := EnsureBootstrapAdministrator(hasPassword);
    }

    /** The part of `ensure_configured_access` about the bootstrap administrator. */
    method EnsureBootstrapAdministrator(hasPassword: bool) returns (admin: Option<nat>)
      requires Valid(State())
      modifies this
      ensures Valid(State()) && (State(), admin) == WithBootstrap(old(State()), bootstrap, hasPassword)
    {
      var name := Normalize(bootstrap);
      if name == [] {
        return None;
      }
      NormalizeIdempotent(bootstrap);
      admin := UserNamed(State(), name);
      if admin.None? && !hasPassword {
        return;
      }
      if admin.None? {
        NewUserTouchesNoEntry(State(), name, Admin);
        admin := Some(nextUser);
        users := users[nextUser := User(name, Admin)];
        nextUser := nextUser + 1;
      } else if !users[admin.value].role.Admin? {
        if !hasPassword {
          return None;
        }
        RoleTouchesNoEntry(State(), admin.value, Admin);
        users := users[admin.value := users[admin.value].(role := Admin)];
      } else {
        SameRole(State(), admin.value);
      }
      Ensure(name, Admin, None, true, true);
    }
  }
}
