/**
 What each administrator request, sign-in and startup does to the two tables (app/api/users.py,
 app/services/access_control_service.py, app/services/external_login_service.py), and what every run keeps.
 */
module AccessRules {
  import opened Options
  import opened PyText
  import opened AccessTables
  import opened ConfiguredNames

  datatype Reason = UserExists | AlreadyAllowlisted | BootstrapProtected | OwnAccess | LastAdministrator

  datatype Reply = Done | Added(added: seq<string>, already: seq<string>) | Invalid | NotFound | Conflict(why: Reason)

  datatype Request =
    | CreateUser(username: string, role: Role)
    | AddToAllowlist(username: string, role: Role)
    | AddBulk(usernames: seq<string>, role: Role)
    | RemoveEntry(entryId: nat)
    | UpdateUser(userId: nat, newRole: Option<Role>)
    | RevokeUser(userId: nat)

  // ----- Requests

  /** `_ensure_allowlist_access`. */
  function WithAccess(s: Tables, username: string, role: Role, admin: nat): Tables
    requires Valid(s) && Normalize(username) != []
  {
    EnsureTouchesOneName(s, username, role, Some(admin), true, true);
    var t := Ensured(s, username, role, Some(admin), true, true);
    if UserNamed(t, username).Some? then WithRole(t, UserNamed(t, username).value, role) else t
  }

  function IsAllowlisted(s: Tables, username: string): bool
    requires Valid(s)
  {
    EntryNamed(s, username).Some? && s.entries[EntryNamed(s, username).value].active
  }

  function AfterCreateUser(s: Tables, username: string, role: Role, admin: nat): (Tables, Reply)
    requires Valid(s)
  {
    var name := Normalize(username);
    if !UsableLength(name) then (s, Invalid)
    else if UserNamed(s, name).Some? then (s, Conflict(UserExists))
    else (WithNewUser(Ensured(s, name, role, Some(admin), true, true), name, role), Done)
  }

  function AfterAdd(s: Tables, username: string, role: Role, admin: nat): (Tables, Reply)
    requires Valid(s)
  {
    var name := Normalize(username);
    if !UsableLength(name) then (s, Invalid)
    else if IsAllowlisted(s, name) then (s, Conflict(AlreadyAllowlisted))
    else
      NormalizeIdempotent(username);
      (WithAccess(s, name, role, admin), Done)
  }

  /** The tables and the two lists after the loop over `names`. */
  function AfterBulk(s: Tables, names: seq<string>, role: Role, admin: nat): (r: (Tables, seq<string>, seq<string>))
    requires Valid(s) && AllNormal(names)
    ensures Valid(r.0)
    decreases |names|
  {
    if names == [] then (s, [], []) else
      AfterBulkStep(AfterBulk(s, names[..|names| - 1], role, admin), names[|names| - 1], role, admin)
  }

  function AfterBulkRequest(s: Tables, usernames: seq<string>, role: Role, admin: nat): (Tables, Reply)
    requires Valid(s)
  {
    if BulkNames(usernames).None? then (s, Invalid)
    else
      CleanedIsNormalAndDistinct(usernames);
      var (t, added, already) := AfterBulk(s, Cleaned(usernames), role, admin);
      (t, Added(added, already))
  }

  lemma {:induction false} BulkOneMore(s: Tables, names: seq<string>, i: nat, role: Role, admin: nat)
    requires Valid(s) && AllNormal(names) && i < |names|
    ensures AfterBulk(s, names[..i + 1], role, admin) == AfterBulkStep(AfterBulk(s, names[..i], role, admin), names[i], role, admin)
  {
    assert names[..i + 1][..i] == names[..i] && names[..i + 1][i] == names[i];
  }

  function AfterRemove(s: Tables, entryId: nat, admin: nat, bootstrap: string): (Tables, Reply)
    requires Valid(s)
  {
    if entryId !in s.entries then (s, NotFound)
    else
      var username := s.entries[entryId].username;
      var target := UserNamed(s, username);
      if Normalize(username) == Normalize(bootstrap) then (s, Conflict(BootstrapProtected))
      else if target == Some(admin) then (s, Conflict(OwnAccess))
      else if target.Some? && IsEffectiveAdmin(s, target.value) && CountEffectiveAdmins(s) <= 1 then (s, Conflict(LastAdministrator))
      else (WithoutEntry(s, entryId), Done)
  }

  function AfterUpdate(s: Tables, userId: nat, newRole: Option<Role>, admin: nat, bootstrap: string): (Tables, Reply)
    requires Valid(s)
  {
    if userId !in s.users then (s, NotFound)
    else if newRole.None? then (s, Invalid)
    else
      var username, role := s.users[userId].username, newRole.value;
      if Normalize(username) == Normalize(bootstrap) && !role.Admin? then (s, Conflict(BootstrapProtected))
      else if userId == admin && !role.Admin? then (s, Conflict(OwnAccess))
      else if IsEffectiveAdmin(s, userId) && !role.Admin? && CountEffectiveAdmins(s) <= 1 then (s, Conflict(LastAdministrator))
      else
        var t := WithRole(s, userId, role);
        var e := EntryNamed(s, username);
        (if e.Some? then WithEntry(t, e.value, s.entries[e.value].(role := role)) else t, Done)
  }

  function AfterRevoke(s: Tables, userId: nat, admin: nat, bootstrap: string): (Tables, Reply)
    requires Valid(s)
  {
    if userId !in s.users || !IsAllowlisted(s, s.users[userId].username) then (s, NotFound)
    else AfterRemove(s, EntryNamed(s, s.users[userId].username).value, admin, bootstrap)
  }

  function Handled(s: Tables, admin: nat, bootstrap: string, request: Request): (Tables, Reply)
    requires Valid(s)
  {
    match request
    case CreateUser(username, role) => AfterCreateUser(s, username, role, admin)
    case AddToAllowlist(username, role) => AfterAdd(s, username, role, admin)
    case AddBulk(usernames, role) => AfterBulkRequest(s, usernames, role, admin)
    case RemoveEntry(entryId) => AfterRemove(s, entryId, admin, bootstrap)
    case UpdateUser(userId, newRole) => AfterUpdate(s, userId, newRole, admin, bootstrap)
    case RevokeUser(userId) => AfterRevoke(s, userId, admin, bootstrap)
  }

  // ----- What each request is answered, on names and rows

  /** The entry under the name lets it in. */
  predicate LetIn(s: Tables, name: string)
    requires Valid(s)
  {
    Granted(s, name).Some? && Granted(s, name).value.active
  }

  /** A name as the requests take it: trimmed, lower-cased, 3 to 64 characters. */
  predicate Acceptable(username: string) {
    3 <= |Lower(Strip(username))| <= 64
  }

  lemma {:induction false} NormalNames(s: Tables, username: string)
    requires Valid(s)
    ensures var name := Lower(Strip(username));
            Normalize(username) == name && Normalize(name) == name && (IsAllowlisted(s, name) <==> LetIn(s, name))
  {
    NormalizeIdempotent(username);
    AllowlistedIsGranted(s, Normalize(username));
  }

  /** Creating a user: a bad name is invalid, a taken one a conflict, and otherwise it is done; a refusal changes nothing. */
  lemma {:induction false} CreationAnswers(s: Tables, username: string, role: Role, admin: nat)
    requires Valid(s)
    ensures var (t, reply) := AfterCreateUser(s, username, role, admin);
            var taken := exists id :: id in s.users && Lower(s.users[id].username) == Lower(Strip(username));
            && (!Acceptable(username) ==> reply == Invalid)
            && (Acceptable(username) && taken ==> reply == Conflict(UserExists))
            && (Acceptable(username) && !taken ==> reply == Done)
            && (reply != Done ==> t == s)
  {
    NormalNames(s, username);
  }

  /**
   Adding a name: a bad one is invalid, one that is let in already a conflict. Otherwise the name is let in with the role
   asked for, the account of that name has that role too, and a new entry says who added it.
   */
  lemma {:induction false} AddingAnswers(s: Tables, username: string, role: Role, admin: nat)
    requires Valid(s)
    ensures var (t, reply) := AfterAdd(s, username, role, admin);
            var name := Lower(Strip(username));
            && (!Acceptable(username) ==> reply == Invalid)
            && (Acceptable(username) && LetIn(s, name) ==> reply == Conflict(AlreadyAllowlisted))
            && (Acceptable(username) && !LetIn(s, name) ==> reply == Done)
            && (reply != Done ==> t == s)
            && (reply == Done ==>
                  && Valid(t) && LetIn(t, name) && Granted(t, name).value.role == role
                  && Granted(t, name).value.addedBy == (if Granted(s, name).Some? then Granted(s, name).value.addedBy else Some(admin))
                  && t.users.Keys == s.users.Keys
                  && forall id :: id in s.users ==>
                       t.users[id] == if Lower(s.users[id].username) == name then User(s.users[id].username, role) else s.users[id])
  {
    NormalNames(s, username);
    var name := Lower(Strip(username));
    if AfterAdd(s, username, role, admin).1.Done? {
      AccessTouchesOneName(s, name, role, admin);
      AccessNotesWhoAdded(s, name, role, admin);
    }
  }

  lemma {:induction false} AccessNotesWhoAdded(s: Tables, name: string, role: Role, admin: nat)
    requires Valid(s) && name != [] && Normalize(name) == name
    ensures Valid(WithAccess(s, name, role, admin)) && Granted(WithAccess(s, name, role, admin), name).Some?
    ensures Granted(WithAccess(s, name, role, admin), name).value.addedBy
         == if Granted(s, name).Some? then Granted(s, name).value.addedBy else Some(admin)
  {
    var e := Ensured(s, name, role, Some(admin), true, true);
    AccessTouchesOneName(s, name, role, admin);
    if EntryNamed(s, name).Some? {
      EnsureUpdatesTheEntry(s, name, role, Some(admin), true, true);
    } else {
      EnsureAddsAnEntry(s, name, role, Some(admin), true, true);
    }
    if UserNamed(e, name).Some? {
      RoleTouchesNoEntry(e, UserNamed(e, name).value, role);
    }
  }

  /** The account of the name this is, if there is one, would be the last effective administrator to go. */
  predicate LastAdmin(s: Tables, id: nat)
    requires Valid(s)
  {
    IsEffectiveAdmin(s, id) && forall other :: other in s.users && IsEffectiveAdmin(s, other) ==> other == id
  }

  lemma {:induction false} LastAdminIsCounted(s: Tables, id: nat)
    requires Valid(s) && IsEffectiveAdmin(s, id)
    ensures CountEffectiveAdmins(s) <= 1 <==> LastAdmin(s, id)
  {
    if LastAdmin(s, id) {
      assert EffectiveAdmins(s) == {id};
    } else {
      var other :| other in s.users && IsEffectiveAdmin(s, other) && other != id;
      TwoCountAsTwo(s, other, id);
    }
  }

  /** Changing a role: which of the refusals it is, or that it is done. Only taking administration away is ever a conflict. */
  lemma {:induction false} UpdateAnswers(s: Tables, userId: nat, newRole: Option<Role>, admin: nat, bootstrap: string)
    requires Valid(s)
    ensures var (t, reply) := AfterUpdate(s, userId, newRole, admin, bootstrap);
            && (userId !in s.users ==> reply == NotFound)
            && (userId in s.users && newRole == None ==> reply == Invalid)
            && (userId in s.users && newRole == Some(Admin) ==> reply == Done)
            && (userId in s.users && newRole == Some(Member) ==>
                  if Lower(s.users[userId].username) == Lower(Strip(bootstrap)) then reply == Conflict(BootstrapProtected)
                  else if userId == admin then reply == Conflict(OwnAccess)
                  else if LastAdmin(s, userId) then reply == Conflict(LastAdministrator)
                  else reply == Done)
            && (reply != Done ==> t == s)
  {
    if userId in s.users {
      EntryOfUser(s, userId);
      if IsEffectiveAdmin(s, userId) {
        LastAdminIsCounted(s, userId);
      }
    }
  }

  /** Removing an entry: it must exist, and neither be the bootstrap name's, nor one's own, nor the last administrator's. */
  lemma {:induction false} RemovalAnswers(s: Tables, entryId: nat, admin: nat, bootstrap: string)
    requires Valid(s)
    ensures var (t, reply) := AfterRemove(s, entryId, admin, bootstrap);
            && (entryId !in s.entries ==> reply == NotFound)
            && (entryId in s.entries ==>
                  var name := Lower(s.entries[entryId].username);
                  && (reply == Conflict(BootstrapProtected) <==> name == Lower(Strip(bootstrap)))
                  && (reply == Conflict(OwnAccess) <==> name != Lower(Strip(bootstrap)) && Owns(s, admin, name))
                  && (reply == Conflict(LastAdministrator) <==>
                        && name != Lower(Strip(bootstrap)) && !Owns(s, admin, name)
                        && exists id :: Owns(s, id, name) && LastAdmin(s, id))
                  && (reply == Done || reply.Conflict?))
            && (reply == Done ==> t == s.(entries := s.entries - {entryId}))
            && (reply != Done ==> t == s)
  {
    if entryId in s.entries {
      var username := s.entries[entryId].username;
      StripTrimmed(username);
      var target := UserNamed(s, username);
      assert forall id: nat :: Owns(s, id, Lower(username)) <==> target == Some(id);
      if target.Some? && IsEffectiveAdmin(s, target.value) {
        LastAdminIsCounted(s, target.value);
      }
    }
  }

  /** The account has this name, ignoring case. */
  predicate Owns(s: Tables, id: nat, name: string) {
    id in s.users && Lower(s.users[id].username) == name
  }

  /** Revoking somebody's access is removing the active entry of the account's name; without one there is nothing to revoke. */
  lemma {:induction false} RevocationAnswers(s: Tables, userId: nat, admin: nat, bootstrap: string)
    requires Valid(s)
    ensures var (t, reply) := AfterRevoke(s, userId, admin, bootstrap);
            if userId !in s.users || !LetIn(s, Lower(s.users[userId].username)) then reply == NotFound && t == s
            else exists entryId :: entryId in s.entries && Lower(s.entries[entryId].username) == Lower(s.users[userId].username)
                   && (t, reply) == AfterRemove(s, entryId, admin, bootstrap)
  {
    if userId in s.users {
      EntryOfUser(s, userId);
    }
  }

  /**
   A sign-in under a name that has no account creates one, with the role of the name's entry, active or not, or as a member
   when there is no entry; a blank name and a name that has an account change nothing.
   */
  lemma {:induction false} SignInAnswers(s: Tables, username: string)
    requires Valid(s)
    ensures var t, name := AfterSignIn(s, username), Lower(Strip(username));
            if name == "" || (exists id :: Owns(s, id, name)) then t == s
            else
              var role := if Granted(s, name).Some? then Granted(s, name).value.role else Member;
              t == s.(users := s.users[s.nextUser := User(name, role)], nextUser := s.nextUser + 1)
  {
    NormalNames(s, username);
    AccountIsFoundIff(s, Lower(Strip(username)));
    RoleOfTheEntry(s, Lower(Strip(username)));
  }

  lemma {:induction false} AccountIsFoundIff(s: Tables, name: string)
    requires Valid(s) && Normalize(name) == name
    ensures UserNamed(s, name).Some? <==> exists id :: Owns(s, id, name)
  {
    assert forall id :: id in s.users && Lower(s.users[id].username) == name ==> Owns(s, id, name);
  }

  lemma {:induction false} RoleOfTheEntry(s: Tables, name: string)
    requires Valid(s) && Normalize(name) == name
    ensures SignInRole(s, name) == if Granted(s, name).Some? then Granted(s, name).value.role else Member
  {
  }

  // ----- What a change keeps

  /**
   From `s` to `t`: no account is renamed or lost; every effective administrator but `except` is still one;
   whoever agreed with its allowlist entry still does, and so does every new account.
   */
  ghost predicate Keeps(s: Tables, t: Tables, except: Option<nat>)
    requires Valid(s) && Valid(t)
  {
    && (forall id :: id in s.users ==> id in t.users && t.users[id].username == s.users[id].username)
    && (forall id :: id in s.users && Some(id) != except && IsEffectiveAdmin(s, id) ==> IsEffectiveAdmin(t, id))
    && (forall id :: id in t.users && (id !in s.users || Agrees(s, id)) ==> Agrees(t, id))
  }

  lemma {:induction false} KeepingChains(a: Tables, b: Tables, c: Tables)
    requires Valid(a) && Valid(b) && Valid(c) && Keeps(a, b, None) && Keeps(b, c, None)
    ensures Keeps(a, c, None)
  {
    forall id | id in c.users && (id !in a.users || Agrees(a, id))
      ensures Agrees(c, id)
    {
      assert id in b.users ==> Agrees(b, id);
    }
    forall id | id in a.users && IsEffectiveAdmin(a, id)
      ensures IsEffectiveAdmin(c, id)
    {
      assert IsEffectiveAdmin(b, id);
    }
  }

  /** The user whose name a change touches, seen from both sides; everyone else is untouched. */
  lemma {:induction false} OthersAreUntouched(s: Tables, t: Tables, id: nat)
    requires Valid(s) && Valid(t) && id in s.users && id in t.users && s.users[id] == t.users[id]
    requires Granted(s, Lower(s.users[id].username)) == Granted(t, Lower(s.users[id].username))
    ensures IsEffectiveAdmin(s, id) <==> IsEffectiveAdmin(t, id)
    ensures Agrees(s, id) <==> Agrees(t, id)
  {
    EntryOfUser(s, id);
    EntryOfUser(t, id);
  }

  /** A change under one name keeps everything if it keeps what that name's account had. */
  lemma {:induction false} OneNameChanged(s: Tables, t: Tables, key: string, except: Option<nat>)
    requires Valid(s) && Valid(t)
    requires forall id :: id in s.users ==> id in t.users && t.users[id].username == s.users[id].username
    requires forall id :: id in s.users && Lower(s.users[id].username) != key ==> t.users[id] == s.users[id]
    requires forall k :: k != key ==> Granted(t, k) == Granted(s, k)
    requires forall id :: id in s.users && Lower(s.users[id].username) == key && Agrees(s, id) ==> Agrees(t, id)
    requires forall id :: id in s.users && Lower(s.users[id].username) == key && Some(id) != except && IsEffectiveAdmin(s, id)
               ==> IsEffectiveAdmin(t, id)
    requires forall id :: id in t.users && id !in s.users ==> Agrees(t, id)
    ensures Keeps(s, t, except)
  {
    forall id | id in s.users && Lower(s.users[id].username) != key
      ensures IsEffectiveAdmin(s, id) <==> IsEffectiveAdmin(t, id)
      ensures Agrees(s, id) <==> Agrees(t, id)
    {
      OthersAreUntouched(s, t, id);
    }
  }

  /** Giving access grants the one name, with the role asked for, to the entry and to the account of that name. */
  lemma {:induction false} AccessTouchesOneName(s: Tables, username: string, role: Role, admin: nat)
    requires Valid(s) && Normalize(username) != []
    ensures var t := WithAccess(s, username, role, admin);
            && Valid(t)
            && (var g := Granted(t, Normalize(username)); g.Some? && g.value.role == role && g.value.active)
            && (forall key :: key != Normalize(username) ==> Granted(t, key) == Granted(s, key))
            && t.users.Keys == s.users.Keys
            && forall id :: id in s.users ==>
                 t.users[id] == if Lower(s.users[id].username) == Normalize(username) then s.users[id].(role := role) else s.users[id]
  {
    EnsureTouchesOneName(s, username, role, Some(admin), true, true);
    var e := Ensured(s, username, role, Some(admin), true, true);
    var u := UserNamed(e, username);
    if u.Some? {
      RoleTouchesNoEntry(e, u.value, role);
      assert forall id :: id in s.users && Lower(s.users[id].username) == Normalize(username) ==> id == u.value;
    }
  }

  lemma {:induction false} AccessKeeps(s: Tables, username: string, role: Role, admin: nat)
    requires Valid(s) && Normalize(username) != [] && !IsAllowlisted(s, username)
    ensures Valid(WithAccess(s, username, role, admin)) && Keeps(s, WithAccess(s, username, role, admin), None)
  {
    AccessTouchesOneName(s, username, role, admin);
    var t := WithAccess(s, username, role, admin);
    forall id | id in s.users && Lower(s.users[id].username) == Normalize(username)
      ensures !IsEffectiveAdmin(s, id) && Agrees(t, id)
    {
      EntryOfUser(s, id);
      EntryOfUser(t, id);
    }
    OneNameChanged(s, t, Normalize(username), None);
  }

  /** A created account has the role asked for and an active entry with the same role; nothing else changes. */
  lemma {:induction false} CreationGivesAccess(s: Tables, username: string, role: Role, admin: nat)
    requires Valid(s) && AfterCreateUser(s, username, role, admin).1.Done?
    ensures var t := AfterCreateUser(s, username, role, admin).0;
            && Valid(t) && s.nextUser !in s.users && t.users == s.users[s.nextUser := User(Normalize(username), role)]
            && (var g := Granted(t, Normalize(username)); g.Some? && g.value.role == role && g.value.active)
            && Agrees(t, s.nextUser)
            && forall key :: key != Normalize(username) ==> Granted(t, key) == Granted(s, key)
  {
    var name := Normalize(username);
    NormalizeIdempotent(username);
    EnsureTouchesOneName(s, name, role, Some(admin), true, true);
    var e := Ensured(s, name, role, Some(admin), true, true);
    NewUserTouchesNoEntry(e, name, role);
    NewAccountAgrees(e, WithNewUser(e, name, role), name, role);
  }

  lemma {:induction false} CreationKeeps(s: Tables, username: string, role: Role, admin: nat)
    requires Valid(s)
    ensures var t := AfterCreateUser(s, username, role, admin).0; Valid(t) && Keeps(s, t, None)
  {
    if AfterCreateUser(s, username, role, admin).1.Done? {
      var name := Normalize(username);
      NormalizeIdempotent(username);
      EnsuringAFreeNameKeeps(s, name, role, admin);
      var e := Ensured(s, name, role, Some(admin), true, true);
      NewUserKeeps(e, name, role);
      KeepingChains(s, e, WithNewUser(e, name, role));
    }
  }

  lemma {:induction false} EnsuringAFreeNameKeeps(s: Tables, name: string, role: Role, admin: nat)
    requires Valid(s) && name != [] && Normalize(name) == name && UserNamed(s, name).None?
    ensures var e := Ensured(s, name, role, Some(admin), true, true);
            && Valid(e) && Keeps(s, e, None) && UserNamed(e, name).None? && e.users == s.users
            && Granted(e, name).Some? && Granted(e, name).value.role == role
  {
    EnsureTouchesOneName(s, name, role, Some(admin), true, true);
    OneNameChanged(s, Ensured(s, name, role, Some(admin), true, true), name, None);
  }

  /** A new account with the role of its entry, if there is one, keeps everything. */
  lemma {:induction false} NewUserKeeps(s: Tables, name: string, role: Role)
    requires Valid(s) && Normalize(name) == name && name != [] && UserNamed(s, name).None?
    requires Granted(s, name).Some? ==> Granted(s, name).value.role == role
    ensures Valid(WithNewUser(s, name, role)) && Keeps(s, WithNewUser(s, name, role), None)
  {
    NewUserTouchesNoEntry(s, name, role);
    NewAccountAgrees(s, WithNewUser(s, name, role), name, role);
    OneNameChanged(s, WithNewUser(s, name, role), name, None);
  }

  lemma {:induction false} NewAccountAgrees(e: Tables, t: Tables, name: string, role: Role)
    requires Valid(e) && Valid(t) && Normalize(name) == name && name != []
    requires t == WithNewUser(e, name, role) && Granted(t, name) == Granted(e, name)
    requires Granted(e, name).Some? ==> Granted(e, name).value.role == role
    ensures Agrees(t, e.nextUser)
  {
    EntryOfUser(t, e.nextUser);
  }

  lemma {:induction false} BulkKeeps(s: Tables, names: seq<string>, role: Role, admin: nat)
    requires Valid(s) && AllNormal(names)
    ensures Keeps(s, AfterBulk(s, names, role, admin).0, None)
    decreases |names|
  {
    if names != [] {
      var last := names[|names| - 1];
      var front := names[..|names| - 1];
      BulkKeeps(s, front, role, admin);
      var t := AfterBulk(s, front, role, admin).0;
      if !IsAllowlisted(t, last) {
        AccessKeeps(t, last, role, admin);
        KeepingChains(s, t, WithAccess(t, last, role, admin));
      }
    }
  }

  /** What a bulk request has done about one name: its entry, and which of the two lists it is on. */
  datatype NameState = NameState(granted: Option<Entry>, added: bool, already: bool)

  function StateOf(r: (Tables, seq<string>, seq<string>), name: string): NameState
    requires Valid(r.0)
  {
    NameState(Granted(r.0, name), name in r.1, name in r.2)
  }

  function AfterBulkStep(r: (Tables, seq<string>, seq<string>), name: string, role: Role, admin: nat): (q: (Tables, seq<string>, seq<string>))
    requires Valid(r.0) && name != [] && Normalize(name) == name
    ensures Valid(q.0)
  {
    if IsAllowlisted(r.0, name) then (r.0, r.1, r.2 + [name])
    else
      AccessTouchesOneName(r.0, name, role, admin);
      (WithAccess(r.0, name, role, admin), r.1 + [name], r.2)
  }

  /** A name with an active entry is only listed as such; any other is added and granted the role. */
  predicate Settled(before: Option<Entry>, after: NameState, role: Role) {
    if before.Some? && before.value.active then after == NameState(before, false, true)
    else after.added && !after.already && after.granted.Some? && after.granted.value.active && after.granted.value.role == role
  }

  lemma {:induction false} AllowlistedIsGranted(s: Tables, name: string)
    requires Valid(s)
    ensures IsAllowlisted(s, name) <==> Granted(s, Normalize(name)).Some? && Granted(s, Normalize(name)).value.active
  {
  }

  lemma {:induction false} BulkStepSettles(r: (Tables, seq<string>, seq<string>), name: string, role: Role, admin: nat)
    requires Valid(r.0) && name != [] && Normalize(name) == name && name !in r.1 && name !in r.2
    ensures Settled(Granted(r.0, name), StateOf(AfterBulkStep(r, name, role, admin), name), role)
  {
    AllowlistedIsGranted(r.0, name);
    AccessTouchesOneName(r.0, name, role, admin);
  }

  lemma {:induction false} BulkStepElsewhere(r: (Tables, seq<string>, seq<string>), name: string, other: string, role: Role, admin: nat)
    requires Valid(r.0) && name != [] && Normalize(name) == name && name != other
    ensures StateOf(AfterBulkStep(r, name, role, admin), other) == StateOf(r, other)
  {
    AccessTouchesOneName(r.0, name, role, admin);
  }

  lemma {:induction false} BulkBeforeTheLast(s: Tables, names: seq<string>, role: Role, admin: nat) returns (r: (Tables, seq<string>, seq<string>))
    requires Valid(s) && AllNormal(names) && names != []
    ensures r == AfterBulk(s, names[..|names| - 1], role, admin)
    ensures AfterBulk(s, names, role, admin) == AfterBulkStep(r, names[|names| - 1], role, admin)
  {
    r := AfterBulk(s, names[..|names| - 1], role, admin);
  }

  /** A name the request does not contain is left alone. */
  lemma {:induction false} BulkLeavesOtherNames(s: Tables, names: seq<string>, role: Role, admin: nat, key: string)
    requires Valid(s) && AllNormal(names) && key !in names
    ensures StateOf(AfterBulk(s, names, role, admin), key) == NameState(Granted(s, key), false, false)
    decreases |names|
  {
    if names != [] {
      var front, last := FrontOfNames(names);
      BulkLeavesOtherNames(s, front, role, admin, key);
      var r := BulkBeforeTheLast(s, names, role, admin);
      BulkStepElsewhere(r, last, key, role, admin);
    }
  }

  lemma {:induction false} FrontOfNames(names: seq<string>) returns (front: seq<string>, last: string)
    requires AllNormal(names) && names != []
    ensures front == names[..|names| - 1] && last == names[|names| - 1] && AllNormal(front)
    ensures last in names && last != [] && Normalize(last) == last && forall k :: 0 <= k < |front| ==> front[k] == names[k]
  {
    front, last := names[..|names| - 1], names[|names| - 1];
  }

  /** After a bulk request every name is allowlisted: those that were stay as they were, the others have the role asked for. */
  lemma {:induction false} BulkAllowlistsEveryName(s: Tables, names: seq<string>, role: Role, admin: nat, k: nat)
    requires Valid(s) && AllNormal(names) && Distinct(names) && k < |names|
    ensures Settled(Granted(s, names[k]), StateOf(AfterBulk(s, names, role, admin), names[k]), role)
    decreases |names|
  {
    var front, last := FrontOfNames(names);
    DistinctFront(names);
    var r := BulkBeforeTheLast(s, names, role, admin);
    if k < |front| {
      BulkAllowlistsEveryName(s, front, role, admin, k);
      BulkStepElsewhere(r, last, names[k], role, admin);
    } else {
      BulkSettlesTheLast(s, front, r, last, role, admin);
    }
  }

  lemma {:induction false} DistinctFront(names: seq<string>)
    requires Distinct(names) && names != []
    ensures Distinct(names[..|names| - 1]) && names[|names| - 1] !in names[..|names| - 1]
    ensures forall k :: 0 <= k < |names| - 1 ==> names[k] != names[|names| - 1]
  {
  }

  lemma {:induction false} BulkSettlesTheLast(s: Tables, front: seq<string>, r: (Tables, seq<string>, seq<string>), last: string, role: Role, admin: nat)
    requires Valid(s) && AllNormal(front) && last !in front && last != [] && Normalize(last) == last
    requires r == AfterBulk(s, front, role, admin)
    ensures Settled(Granted(s, last), StateOf(AfterBulkStep(r, last, role, admin), last), role)
  {
    BulkLeavesOtherNames(s, front, role, admin, last);
    assert StateOf(r, last) == NameState(Granted(s, last), false, false);
    BulkStepSettles(r, last, role, admin);
  }

  /** The names that are let in already, or those that are not, in the order of the request. */
  function NamesLetIn(s: Tables, names: seq<string>, letIn: bool): seq<string>
    requires Valid(s)
  {
    if names == [] then [] else
      var last := names[|names| - 1];
      NamesLetIn(s, names[..|names| - 1], letIn) + if LetIn(s, last) == letIn then [last] else []
  }

  /** The two lists a bulk request answers with: the names it added and those it found, each in the order of the request. */
  lemma {:induction false} BulkListsTheNames(s: Tables, names: seq<string>, role: Role, admin: nat)
    requires Valid(s) && AllNormal(names) && Distinct(names)
    ensures AfterBulk(s, names, role, admin).1 == NamesLetIn(s, names, false)
    ensures AfterBulk(s, names, role, admin).2 == NamesLetIn(s, names, true)
    decreases |names|
  {
    if names != [] {
      var front, last := FrontOfNames(names);
      DistinctFront(names);
      BulkListsTheNames(s, front, role, admin);
      BulkLeavesOtherNames(s, front, role, admin, last);
      var r := BulkBeforeTheLast(s, names, role, admin);
      SameNameSameAnswer(s, r, last);
    }
  }

  lemma {:induction false} SameNameSameAnswer(s: Tables, r: (Tables, seq<string>, seq<string>), name: string)
    requires Valid(s) && Valid(r.0) && Normalize(name) == name && StateOf(r, name) == NameState(Granted(s, name), false, false)
    ensures IsAllowlisted(r.0, name) <==> LetIn(s, name)
  {
    AllowlistedIsGranted(r.0, name);
  }

  /** A bulk request with no name, more than 200, or one that is too short or too long changes nothing; any other is carried out. */
  lemma {:induction false} BulkAnswers(s: Tables, usernames: seq<string>, role: Role, admin: nat)
    requires Valid(s)
    ensures AllNormal(Cleaned(usernames))
    ensures var names := Cleaned(usernames);
            var bad := |names| < 1 || |names| > 200 || exists i :: 0 <= i < |names| && (|names[i]| < 3 || |names[i]| > 64);
            && (bad ==> AfterBulkRequest(s, usernames, role, admin) == (s, Invalid))
            && (!bad ==> AfterBulkRequest(s, usernames, role, admin)
                         == (AfterBulk(s, names, role, admin).0, Added(NamesLetIn(s, names, false), NamesLetIn(s, names, true))))
  {
    CleanedIsNormalAndDistinct(usernames);
    BulkListsTheNames(s, Cleaned(usernames), role, admin);
    UsableLengths(Cleaned(usernames));
  }

  lemma {:induction false} UsableLengths(names: seq<string>)
    ensures (forall i :: 0 <= i < |names| ==> UsableLength(names[i])) <==> !exists i :: 0 <= i < |names| && (|names[i]| < 3 || |names[i]| > 64)
  {
  }

  /** Removing an entry leaves its name without access; nobody but the account of that name is affected. */
  lemma {:induction false} DeletionKeeps(s: Tables, entryId: nat)
    requires Valid(s) && entryId in s.entries
    ensures var t, name := WithoutEntry(s, entryId), s.entries[entryId].username;
            && Valid(t) && t.users == s.users && Granted(t, Lower(name)).None?
            && (forall key :: key != Lower(name) ==> Granted(t, key) == Granted(s, key))
            && Keeps(s, t, UserNamed(s, name))
  {
    var t, name := WithoutEntry(s, entryId), s.entries[entryId].username;
    DeletingTouchesOneName(s, entryId);
    TrimmedIsNormal(name);
    OneNameChanged(s, t, Lower(name), UserNamed(s, name));
  }

  lemma {:induction false} TrimmedIsNormal(name: string)
    requires UsableName(name)
    ensures Normalize(name) == Lower(name)
  {
    StripTrimmed(name);
  }

  /** A successful revocation leaves the account without access, and every other name as it was. */
  lemma {:induction false} RevocationRevokes(s: Tables, userId: nat, admin: nat, bootstrap: string)
    requires Valid(s) && AfterRevoke(s, userId, admin, bootstrap).1.Done?
    ensures userId in s.users
    ensures var t := AfterRevoke(s, userId, admin, bootstrap).0;
            && Valid(t) && t.users == s.users && !IsEffectiveAdmin(t, userId)
            && Granted(t, Lower(s.users[userId].username)).None?
            && forall key :: key != Lower(s.users[userId].username) ==> Granted(t, key) == Granted(s, key)
  {
    var entryId := EntryNamed(s, s.users[userId].username).value;
    RemovalDeletesOrRefuses(s, entryId, admin, bootstrap);
    DeletionKeeps(s, entryId);
    EntryOfUser(s, userId);
    EntryOfUser(WithoutEntry(s, entryId), userId);
  }

  /** A role change reaches the account and its entry together, and nothing else. */
  lemma {:induction false} UpdateReachesBothTables(s: Tables, userId: nat, newRole: Option<Role>, admin: nat, bootstrap: string)
    requires Valid(s) && AfterUpdate(s, userId, newRole, admin, bootstrap).1.Done?
    ensures userId in s.users && newRole.Some?
    ensures var t, name := AfterUpdate(s, userId, newRole, admin, bootstrap).0, Lower(s.users[userId].username);
            && Valid(t) && t.users == s.users[userId := s.users[userId].(role := newRole.value)] && Agrees(t, userId)
            && (forall key :: key != name ==> Granted(t, key) == Granted(s, key))
            && (Granted(t, name).Some? <==> Granted(s, name).Some?)
            && (Granted(t, name).Some? ==> Granted(t, name).value == Granted(s, name).value.(role := newRole.value))
  {
    var role := newRole.value;
    RoleTouchesNoEntry(s, userId, role);
    var r := WithRole(s, userId, role);
    EntryOfUser(s, userId);
    var e := EntryNamed(s, s.users[userId].username);
    if e.Some? {
      WritingTouchesOneName(r, e.value, s.entries[e.value].(role := role), r.nextEntry);
    }
  }

  lemma {:induction false} UpdateKeeps(s: Tables, userId: nat, newRole: Option<Role>, admin: nat, bootstrap: string)
    requires Valid(s) && AfterUpdate(s, userId, newRole, admin, bootstrap).1.Done?
    ensures var t := AfterUpdate(s, userId, newRole, admin, bootstrap).0;
            Valid(t) && Keeps(s, t, if newRole == Some(Member) then Some(userId) else None)
  {
    var t, name := AfterUpdate(s, userId, newRole, admin, bootstrap).0, Lower(s.users[userId].username);
    UpdateReachesBothTables(s, userId, newRole, admin, bootstrap);
    EntryOfUser(s, userId);
    EntryOfUser(t, userId);
    OneNameChanged(s, t, name, if newRole == Some(Member) then Some(userId) else None);
  }

  lemma {:induction false} UpdateStaysValid(s: Tables, userId: nat, newRole: Option<Role>, admin: nat, bootstrap: string)
    requires Valid(s)
    ensures Valid(AfterUpdate(s, userId, newRole, admin, bootstrap).0)
  {
    if AfterUpdate(s, userId, newRole, admin, bootstrap).1.Done? {
      UpdateReachesBothTables(s, userId, newRole, admin, bootstrap);
    }
  }

  // ----- Requests by an administrator

  /** The account a request takes administration from, if it does so at all. */
  function Target(s: Tables, admin: nat, bootstrap: string, request: Request): Option<nat>
    requires Valid(s)
  {
    match request
    case RemoveEntry(entryId) =>
      if AfterRemove(s, entryId, admin, bootstrap).1.Done? && entryId in s.entries then UserNamed(s, s.entries[entryId].username) else None
    case UpdateUser(userId, newRole) =>
      if AfterUpdate(s, userId, newRole, admin, bootstrap).1.Done? && newRole == Some(Member) then Some(userId) else None
    case RevokeUser(userId) =>
      if AfterRevoke(s, userId, admin, bootstrap).1.Done? then Some(userId) else None
    case _ => None
  }

  /** The target is never the administrator who asks, nor the account of the bootstrap name. */
  lemma {:induction false} TargetIsAnother(s: Tables, admin: nat, bootstrap: string, request: Request)
    requires Valid(s)
    ensures var target := Target(s, admin, bootstrap, request);
            target.Some? ==>
              target.value in s.users && target.value != admin && Lower(s.users[target.value].username) != Normalize(bootstrap)
  {
    match request
    case RemoveEntry(entryId) => RemovedIsAnother(s, entryId, admin, bootstrap);
    case UpdateUser(userId, newRole) =>
      if userId in s.users {
        EntryOfUser(s, userId);
      }
    case RevokeUser(userId) =>
      if userId in s.users && IsAllowlisted(s, s.users[userId].username) {
        EntryOfUser(s, userId);
        EntryAndUserShareTheName(s, userId);
        RemovedIsAnother(s, EntryNamed(s, s.users[userId].username).value, admin, bootstrap);
      }
    case _ =>
  }

  lemma {:induction false} RemovedIsAnother(s: Tables, entryId: nat, admin: nat, bootstrap: string)
    requires Valid(s)
    ensures AfterRemove(s, entryId, admin, bootstrap).1.Done? ==>
              entryId in s.entries
              && var target := UserNamed(s, s.entries[entryId].username);
                 target != Some(admin) && (target.Some? ==> Lower(s.users[target.value].username) != Normalize(bootstrap))
  {
  }

  /**
   Every request keeps the tables valid, keeps everybody's effective administration except its target's, and
   keeps accounts and entries in agreement where they agreed.
   */
  lemma {:induction false} RequestKeeps(s: Tables, admin: nat, bootstrap: string, request: Request)
    requires Valid(s)
    ensures var t := Handled(s, admin, bootstrap, request).0;
            Valid(t) && Keeps(s, t, Target(s, admin, bootstrap, request))
  {
    match request
    case CreateUser(username, role) => CreationKeeps(s, username, role, admin);
    case AddToAllowlist(username, role) => AddKeeps(s, username, role, admin);
    case AddBulk(usernames, role) => BulkRequestKeeps(s, usernames, role, admin);
    case RemoveEntry(entryId) => RemoveRequestKeeps(s, entryId, admin, bootstrap);
    case UpdateUser(userId, newRole) => UpdateRequestKeeps(s, userId, newRole, admin, bootstrap);
    case RevokeUser(userId) => RevokeRequestKeeps(s, userId, admin, bootstrap);
  }

  lemma {:induction false} UpdateRequestKeeps(s: Tables, userId: nat, newRole: Option<Role>, admin: nat, bootstrap: string)
    requires Valid(s)
    ensures var (t, reply) := AfterUpdate(s, userId, newRole, admin, bootstrap);
            Valid(t) && Keeps(s, t, if reply.Done? && newRole == Some(Member) then Some(userId) else None)
  {
    if AfterUpdate(s, userId, newRole, admin, bootstrap).1.Done? {
      UpdateKeeps(s, userId, newRole, admin, bootstrap);
    }
  }

  lemma {:induction false} BulkRequestKeeps(s: Tables, usernames: seq<string>, role: Role, admin: nat)
    requires Valid(s)
    ensures var t := AfterBulkRequest(s, usernames, role, admin).0; Valid(t) && Keeps(s, t, None)
  {
    CleanedIsNormalAndDistinct(usernames);
    BulkKeeps(s, Cleaned(usernames), role, admin);
  }

  lemma {:induction false} AddKeeps(s: Tables, username: string, role: Role, admin: nat)
    requires Valid(s)
    ensures var t := AfterAdd(s, username, role, admin).0; Valid(t) && Keeps(s, t, None)
  {
    NormalizeIdempotent(username);
    if AfterAdd(s, username, role, admin).1.Done? {
      AccessKeeps(s, Normalize(username), role, admin);
    }
  }

  lemma {:induction false} RemovalDeletesOrRefuses(s: Tables, entryId: nat, admin: nat, bootstrap: string)
    requires Valid(s)
    ensures var (t, reply) := AfterRemove(s, entryId, admin, bootstrap);
            (reply.Done? && entryId in s.entries && t == WithoutEntry(s, entryId)) || (!reply.Done? && t == s)
  {
  }

  lemma {:induction false} RemoveRequestKeeps(s: Tables, entryId: nat, admin: nat, bootstrap: string)
    requires Valid(s)
    ensures var (t, reply) := AfterRemove(s, entryId, admin, bootstrap);
            && Valid(t) && (!reply.Done? ==> t == s)
            && (reply.Done? ==> entryId in s.entries && Keeps(s, t, UserNamed(s, s.entries[entryId].username)))
  {
    RemovalDeletesOrRefuses(s, entryId, admin, bootstrap);
    var (t, reply) := AfterRemove(s, entryId, admin, bootstrap);
    if reply.Done? {
      DeletionKeeps(s, entryId);
    }
  }

  lemma {:induction false} RevokeRequestKeeps(s: Tables, userId: nat, admin: nat, bootstrap: string)
    requires Valid(s)
    ensures var (t, reply) := AfterRevoke(s, userId, admin, bootstrap);
            && Valid(t) && (!reply.Done? ==> t == s) && (reply.Done? ==> userId in s.users && Keeps(s, t, Some(userId)))
  {
    if userId in s.users && IsAllowlisted(s, s.users[userId].username) {
      EntryAndUserShareTheName(s, userId);
      RemoveRequestKeeps(s, EntryNamed(s, s.users[userId].username).value, admin, bootstrap);
    }
  }

  lemma {:induction false} EntryAndUserShareTheName(s: Tables, userId: nat)
    requires Valid(s) && userId in s.users && EntryNamed(s, s.users[userId].username).Some?
    ensures UserNamed(s, s.entries[EntryNamed(s, s.users[userId].username).value].username) == Some(userId)
  {
    EntryOfUser(s, userId);
    var name := s.entries[EntryNamed(s, s.users[userId].username).value].username;
    StripTrimmed(name);
    assert Lower(name) == Lower(s.users[userId].username);
  }

  /** For an effective administrator the "at least one administrator" guard never decides: the two guards before it do. */
  lemma {:induction false} LastAdministratorGuardIsNeverReached(s: Tables, admin: nat, bootstrap: string, request: Request)
    requires Valid(s) && IsEffectiveAdmin(s, admin)
    ensures Handled(s, admin, bootstrap, request).1 != Conflict(LastAdministrator)
  {
    match request
    case RemoveEntry(entryId) => RemovalGuardIsNeverReached(s, entryId, admin, bootstrap);
    case UpdateUser(userId, newRole) => UpdateGuardIsNeverReached(s, userId, newRole, admin, bootstrap);
    case RevokeUser(userId) =>
      if userId in s.users && IsAllowlisted(s, s.users[userId].username) {
        RemovalGuardIsNeverReached(s, EntryNamed(s, s.users[userId].username).value, admin, bootstrap);
      }
    case _ =>
  }

  lemma {:induction false} RemovalGuardIsNeverReached(s: Tables, entryId: nat, admin: nat, bootstrap: string)
    requires Valid(s) && IsEffectiveAdmin(s, admin)
    ensures AfterRemove(s, entryId, admin, bootstrap).1 != Conflict(LastAdministrator)
  {
    OthersMakeTwo(s, admin);
    RemovalGuardNeedsASoleOther(s, entryId, admin, bootstrap);
  }

  lemma {:induction false} RemovalGuardNeedsASoleOther(s: Tables, entryId: nat, admin: nat, bootstrap: string)
    requires Valid(s)
    ensures AfterRemove(s, entryId, admin, bootstrap).1 == Conflict(LastAdministrator)
            ==> CountEffectiveAdmins(s) <= 1 && exists other :: other != admin && IsEffectiveAdmin(s, other)
  {
  }

  lemma {:induction false} OthersMakeTwo(s: Tables, admin: nat)
    requires Valid(s) && IsEffectiveAdmin(s, admin)
    ensures forall other :: other != admin && IsEffectiveAdmin(s, other) ==> CountEffectiveAdmins(s) > 1
  {
    forall other | other != admin && IsEffectiveAdmin(s, other)
      ensures CountEffectiveAdmins(s) > 1
    {
      TwoCountAsTwo(s, other, admin);
    }
  }

  lemma {:induction false} UpdateGuardIsNeverReached(s: Tables, userId: nat, newRole: Option<Role>, admin: nat, bootstrap: string)
    requires Valid(s) && IsEffectiveAdmin(s, admin)
    ensures AfterUpdate(s, userId, newRole, admin, bootstrap).1 != Conflict(LastAdministrator)
  {
    OthersMakeTwo(s, admin);
  }

  /** The administrator who asks is an effective administrator afterwards; so is an effective bootstrap administrator. */
  lemma {:induction false} AdministrationSurvivesARequest(s: Tables, admin: nat, bootstrap: string, request: Request, boot: nat)
    requires Valid(s) && IsEffectiveAdmin(s, admin)
    ensures var t := Handled(s, admin, bootstrap, request).0;
            && Valid(t) && IsEffectiveAdmin(t, admin)
            && (IsEffectiveAdmin(s, boot) && Lower(s.users[boot].username) == Normalize(bootstrap) ==> IsEffectiveAdmin(t, boot))
  {
    RequestKeeps(s, admin, bootstrap, request);
    TargetIsAnother(s, admin, bootstrap, request);
  }

  // ----- Sign-in and startup

  /** `provision_external_user` for an identity with a name; a blank name raises. */
  function AfterSignIn(s: Tables, username: string): Tables
    requires Valid(s)
  {
    var name := Normalize(username);
    if name == [] || UserNamed(s, name).Some? then s
    else WithNewUser(s, name, SignInRole(s, name))
  }

  /** The role of the entry under the name, which an account created at sign-in takes. */
  function SignInRole(s: Tables, name: string): Role
    requires Valid(s)
  {
    if EntryNamed(s, name).Some? then s.entries[EntryNamed(s, name).value].role else Member
  }

  /** The unique column compares usernames exactly. */
  predicate NameTaken(s: Tables, name: string) {
    exists i :: i in s.users && s.users[i].username == name
  }

  /**
   A sign-in whose handler looked at the tables when they were `read` and whose insert meets them as `rows`. An insert
   that hits the unique name is rolled back, and the handler takes the account that is there.
   */
  function AfterLateSignIn(read: Tables, rows: Tables, username: string): Tables
    requires Valid(read)
  {
    var name := Normalize(username);
    if name == [] || UserNamed(read, name).Some? || NameTaken(rows, name) then rows
    else WithNewUser(rows, name, SignInRole(read, name))
  }

  /** Without anybody in between it is the plain sign-in. */
  lemma {:induction false} PromptSignIn(s: Tables, username: string)
    requires Valid(s)
    ensures AfterLateSignIn(s, s, username) == AfterSignIn(s, username)
  {
    NormalizeIdempotent(username);
    LowerIdempotent(Strip(username));
    var name := Normalize(username);
    if name != [] && NameTaken(s, name) {
      TakenNameIsFound(s, name);
    }
  }

  lemma {:induction false} TakenNameIsFound(s: Tables, name: string)
    requires Valid(s) && Normalize(name) == Lower(name) == name && NameTaken(s, name)
    ensures UserNamed(s, name).Some?
  {
    var i :| i in s.users && s.users[i].username == name;
    assert Lower(s.users[i].username) == Normalize(name);
  }

  /**
   A sign-in that finds its name taken when it inserts ends where signing in after the winner would, whoever the winner is
   and whatever else changed: the tables stay as the winner left them, and the account of the name is the winner's.
   */
  lemma {:induction false} LosingSignInTakesTheWinnersAccount(read: Tables, rows: Tables, username: string, winner: nat)
    requires Valid(read) && Valid(rows) && winner in rows.users && rows.users[winner].username == Normalize(username) != []
    ensures AfterLateSignIn(read, rows, username) == rows == AfterSignIn(rows, username)
    ensures UserNamed(rows, username) == Some(winner)
  {
    NormalizeIdempotent(username);
    LowerIdempotent(Strip(username));
    assert NameTaken(rows, Normalize(username));
    assert Lower(rows.users[winner].username) == Normalize(username);
  }

  /**
   A sign-in that does create its account takes the role its entry had when the handler read it: the account agrees with
   the entry that stands when it is inserted exactly when there is none or its role is still that one.
   */
  lemma {:induction false} LateSignInAgreesIff(read: Tables, rows: Tables, username: string)
    requires Valid(read) && Valid(rows) && Normalize(username) != []
    requires UserNamed(read, Normalize(username)).None? && UserNamed(rows, Normalize(username)).None?
    ensures var t, now := AfterLateSignIn(read, rows, username), Granted(rows, Normalize(username));
            && Valid(t) && rows.nextUser !in rows.users && rows.nextUser in t.users
            && (Agrees(t, rows.nextUser) <==> now.None? || now.value.role == SignInRole(read, Normalize(username)))
  {
    var name := Normalize(username);
    NormalizeIdempotent(username);
    LowerIdempotent(Strip(username));
    NameIsFree(rows, name);
    NewUserTouchesNoEntry(rows, name, SignInRole(read, name));
    NewAccountAgreesIff(rows, name, SignInRole(read, name));
  }

  lemma {:induction false} NameIsFree(s: Tables, name: string)
    requires Valid(s) && Normalize(name) == Lower(name) == name && UserNamed(s, name).None?
    ensures !NameTaken(s, name)
  {
  }

  lemma {:induction false} NewAccountAgreesIff(s: Tables, name: string, role: Role)
    requires Valid(s) && Normalize(name) == Lower(name) == name && name != [] && UserNamed(s, name).None?
    ensures var t, now := WithNewUser(s, name, role), Granted(s, name);
            Valid(t) && (Agrees(t, s.nextUser) <==> now.None? || now.value.role == role)
  {
    NewUserTouchesNoEntry(s, name, role);
  }

  lemma {:induction false} SignInKeeps(s: Tables, username: string)
    requires Valid(s)
    ensures Valid(AfterSignIn(s, username)) && Keeps(s, AfterSignIn(s, username), None)
  {
    if Normalize(username) != [] && UserNamed(s, Normalize(username)).None? {
      NormalizeIdempotent(username);
      NewUserKeeps(s, Normalize(username), AfterSignIn(s, username).users[s.nextUser].role);
    }
  }

  /** The startup loop over the configured names. */
  function WithConfigured(s: Tables, names: seq<string>): (t: Tables)
    requires Valid(s) && AllNormal(names)
    ensures Valid(t)
    decreases |names|
  {
    if names == [] then s else
      var t := WithConfigured(s, names[..|names| - 1]);
      EnsureTouchesOneName(t, names[|names| - 1], Member, None, true, false);
      Ensured(t, names[|names| - 1], Member, None, true, false)
  }

  /** The bootstrap part of `ensure_configured_access`, and the account it returns. */
  function WithBootstrap(s: Tables, bootstrap: string, hasPassword: bool): (Tables, Option<nat>)
    requires Valid(s)
  {
    var name := Normalize(bootstrap);
    if name == [] then (s, None)
    else
      NormalizeIdempotent(bootstrap);
      var user := UserNamed(s, name);
      if user.None? then
        if !hasPassword then (s, None)
        else
          NewUserTouchesNoEntry(s, name, Admin);
          (Ensured(WithNewUser(s, name, Admin), name, Admin, None, true, true), Some(s.nextUser))
      else if !s.users[user.value].role.Admin? && !hasPassword then (s, None)
      else
        RoleTouchesNoEntry(s, user.value, Admin);
        (Ensured(WithRole(s, user.value, Admin), name, Admin, None, true, true), user)
  }

  function AfterStartup(s: Tables, configured: string, bootstrap: string, hasPassword: bool): (Tables, Option<nat>)
    requires Valid(s)
  {
    CleanedIsNormalAndDistinct(Split(configured));
    WithBootstrap(WithConfigured(s, Cleaned(Split(configured))), bootstrap, hasPassword)
  }

  /** What the loop over the configured names does to the entry of one name. */
  predicate ConfiguredGrant(before: Option<Entry>, after: Option<Entry>, configured: bool) {
    if !configured then after == before
    else after.Some? && after.value.active && after.value.role == if before.Some? then before.value.role else Member
  }

  lemma {:induction false} ConfiguredNamesAreGranted(s: Tables, names: seq<string>, key: string)
    requires Valid(s) && AllNormal(names)
    ensures WithConfigured(s, names).users == s.users
    ensures ConfiguredGrant(Granted(s, key), Granted(WithConfigured(s, names), key), key in names)
  {
    var t, after := ConfiguredUpTo(s, names, key);
  }

  /** The same, with the tables and the entry as results. */
  lemma {:induction false} ConfiguredUpTo(s: Tables, names: seq<string>, key: string) returns (t: Tables, after: Option<Entry>)
    requires Valid(s) && AllNormal(names)
    ensures t == WithConfigured(s, names) && after == Granted(t, key) && t.users == s.users
    ensures ConfiguredGrant(Granted(s, key), after, key in names)
    decreases |names|
  {
    if names == [] {
      t, after := s, Granted(s, key);
    } else {
      var front, last := FrontAndLast(names);
      var before;
      t, before := ConfiguredUpTo(s, front, key);
      t, after := ConfiguringTheLast(s, names, t, key);
      GrantsCompose(Granted(s, key), before, after, key in front, key == last);
    }
  }

  lemma {:induction false} FrontAndLast(names: seq<string>) returns (front: seq<string>, last: string)
    requires AllNormal(names) && names != []
    ensures front == names[..|names| - 1] && last == names[|names| - 1] && names == front + [last] && AllNormal(front)
  {
    front, last := names[..|names| - 1], names[|names| - 1];
  }

  lemma {:induction false} GrantsCompose(a: Option<Entry>, b: Option<Entry>, c: Option<Entry>, first: bool, second: bool)
    requires ConfiguredGrant(a, b, first) && ConfiguredGrant(b, c, second)
    ensures ConfiguredGrant(a, c, first || second)
  {
  }

  lemma {:induction false} ConfiguringTheLast(s: Tables, names: seq<string>, t: Tables, key: string) returns (u: Tables, after: Option<Entry>)
    requires Valid(s) && AllNormal(names) && names != [] && t == WithConfigured(s, names[..|names| - 1])
    ensures u == WithConfigured(s, names) && u.users == t.users && after == Granted(u, key)
    ensures ConfiguredGrant(Granted(t, key), after, key == names[|names| - 1])
  {
    u, after := ConfiguringOneMore(t, names[|names| - 1], key);
  }

  lemma {:induction false} ConfiguringOneMore(t: Tables, name: string, key: string) returns (u: Tables, after: Option<Entry>)
    requires Valid(t) && name != [] && Normalize(name) == name
    ensures u == Ensured(t, name, Member, None, true, false) && Valid(u) && u.users == t.users && after == Granted(u, key)
    ensures ConfiguredGrant(Granted(t, key), after, key == name)
  {
    EnsureTouchesOneName(t, name, Member, None, true, false);
    u := Ensured(t, name, Member, None, true, false);
    after := Granted(u, key);
  }

  /** The bootstrap part in terms of names and accounts: `admin` is the account returned. */
  ghost predicate BootstrapOutcome(s: Tables, t: Tables, admin: nat, name: string)
    requires Valid(s) && Valid(t)
  {
    && admin in t.users && t.users[admin].role.Admin? && Lower(t.users[admin].username) == name
    && (admin in s.users ==> Lower(s.users[admin].username) == name)
    && t.users.Keys == s.users.Keys + {admin}
    && (forall id :: id in s.users ==> t.users[id] == if id == admin then s.users[id].(role := Admin) else s.users[id])
    && (forall key :: key != name ==> Granted(t, key) == Granted(s, key))
    && var g := Granted(t, name); g.Some? && g.value.active && g.value.role.Admin?
  }

  lemma {:induction false} BootstrapTouchesOneName(s: Tables, bootstrap: string, hasPassword: bool)
    requires Valid(s)
    ensures var (t, admin) := WithBootstrap(s, bootstrap, hasPassword);
            && Valid(t) && (admin.None? ==> t == s) && (admin.Some? ==> BootstrapOutcome(s, t, admin.value, Normalize(bootstrap)))
  {
    var name := Normalize(bootstrap);
    if name != [] {
      NormalizeIdempotent(bootstrap);
      LowerIdempotent(Strip(bootstrap));
      if UserNamed(s, name).None? {
        CreatingTheBootstrapAccount(s, name);
      } else {
        PromotingTheBootstrapAccount(s, name, UserNamed(s, name).value);
      }
    }
  }

  lemma {:induction false} CreatingTheBootstrapAccount(s: Tables, name: string)
    requires Valid(s) && name != [] && Normalize(name) == name && Lower(name) == name && UserNamed(s, name).None?
    ensures var m := WithNewUser(s, name, Admin);
            Valid(m)
            && var t := Ensured(m, name, Admin, None, true, true); Valid(t) && BootstrapOutcome(s, t, s.nextUser, name)
  {
    NewUserTouchesNoEntry(s, name, Admin);
    EnsureTouchesOneName(WithNewUser(s, name, Admin), name, Admin, None, true, true);
  }

  lemma {:induction false} PromotingTheBootstrapAccount(s: Tables, name: string, id: nat)
    requires Valid(s) && name != [] && Normalize(name) == name && id in s.users && Lower(s.users[id].username) == name
    ensures var m := WithRole(s, id, Admin);
            Valid(m)
            && var t := Ensured(m, name, Admin, None, true, true); Valid(t) && BootstrapOutcome(s, t, id, name)
  {
    RoleTouchesNoEntry(s, id, Admin);
    EnsureTouchesOneName(WithRole(s, id, Admin), name, Admin, None, true, true);
  }

  /** Startup returns an account exactly when it can, and the account it returns is an effective administrator. */
  lemma {:induction false} StartupReturnsAnEffectiveAdministrator(s: Tables, configured: string, bootstrap: string, hasPassword: bool)
    requires Valid(s)
    ensures var (t, admin) := AfterStartup(s, configured, bootstrap, hasPassword);
            && Valid(t)
            && (admin.Some? ==> IsEffectiveAdmin(t, admin.value) && Lower(t.users[admin.value].username) == Normalize(bootstrap))
            && (admin.Some? <==>
                  (Normalize(bootstrap) != []
                  && (hasPassword || exists id :: id in s.users && s.users[id].role.Admin? && Lower(s.users[id].username) == Normalize(bootstrap))))
  {
    CleanedIsNormalAndDistinct(Split(configured));
    var names := Cleaned(Split(configured));
    ConfiguredNamesAreGranted(s, names, []);
    BootstrapReturnsIff(WithConfigured(s, names), bootstrap, hasPassword);
  }

  lemma {:induction false} BootstrapReturnsIff(s: Tables, bootstrap: string, hasPassword: bool)
    requires Valid(s)
    ensures var (t, admin) := WithBootstrap(s, bootstrap, hasPassword);
            && Valid(t)
            && (admin.Some? ==> IsEffectiveAdmin(t, admin.value) && Lower(t.users[admin.value].username) == Normalize(bootstrap))
            && (admin.Some? <==>
                  (Normalize(bootstrap) != []
                  && (hasPassword || exists id :: id in s.users && s.users[id].role.Admin? && Lower(s.users[id].username) == Normalize(bootstrap))))
  {
    BootstrapTouchesOneName(s, bootstrap, hasPassword);
    BootstrapReturnsWhenItCan(s, bootstrap, hasPassword);
    var (t, admin) := WithBootstrap(s, bootstrap, hasPassword);
    if admin.Some? {
      BootstrapAccountIsEffective(s, t, admin.value, Normalize(bootstrap));
    }
  }

  lemma {:induction false} BootstrapAccountIsEffective(s: Tables, t: Tables, admin: nat, name: string)
    requires Valid(s) && Valid(t) && BootstrapOutcome(s, t, admin, name)
    ensures IsEffectiveAdmin(t, admin) && Lower(t.users[admin].username) == name
  {
    EntryOfUser(t, admin);
  }

  lemma {:induction false} BootstrapReturnsWhenItCan(s: Tables, bootstrap: string, hasPassword: bool)
    requires Valid(s)
    ensures WithBootstrap(s, bootstrap, hasPassword).1.Some? <==>
            (Normalize(bootstrap) != []
            && (hasPassword || exists id :: id in s.users && s.users[id].role.Admin? && Lower(s.users[id].username) == Normalize(bootstrap)))
  {
    NormalizeIdempotent(bootstrap);
  }

  /** Startup takes effective administration from nobody. */
  lemma {:induction false} StartupKeepsAdministrators(s: Tables, configured: string, bootstrap: string, hasPassword: bool, id: nat)
    requires Valid(s) && IsEffectiveAdmin(s, id)
    ensures var t := AfterStartup(s, configured, bootstrap, hasPassword).0;
            Valid(t) && IsEffectiveAdmin(t, id) && t.users[id].username == s.users[id].username
  {
    CleanedIsNormalAndDistinct(Split(configured));
    var names := Cleaned(Split(configured));
    EntryOfUser(s, id);
    ConfiguredNamesAreGranted(s, names, Lower(s.users[id].username));
    BootstrapTouchesOneName(WithConfigured(s, names), bootstrap, hasPassword);
    EntryOfUser(AfterStartup(s, configured, bootstrap, hasPassword).0, id);
  }

  /**
   When startup breaks agreement: exactly for an administrator without an entry whose name is configured,
   and who is not the bootstrap administrator. The entry it creates says `user`.
   */
  lemma {:induction false} StartupBreaksAgreementIff(s: Tables, configured: string, bootstrap: string, hasPassword: bool, id: nat)
    requires Valid(s) && id in s.users && Agrees(s, id)
    ensures Valid(AfterStartup(s, configured, bootstrap, hasPassword).0)
    ensures var name := Lower(s.users[id].username);
            !Agrees(AfterStartup(s, configured, bootstrap, hasPassword).0, id)
            <==> s.users[id].role.Admin? && Granted(s, name).None? && name in Cleaned(Split(configured)) && name != Normalize(bootstrap)
  {
    CleanedIsNormalAndDistinct(Split(configured));
    var names := Cleaned(Split(configured));
    var name := Lower(s.users[id].username);
    EntryOfUser(s, id);
    ConfiguredNamesAreGranted(s, names, name);
    var m := WithConfigured(s, names);
    BootstrapTouchesOneName(m, bootstrap, hasPassword);
    if name == Normalize(bootstrap) {
      BootstrapAccountIsFound(m, bootstrap, hasPassword, id);
    }
  }

  lemma {:induction false} BootstrapAccountIsFound(s: Tables, bootstrap: string, hasPassword: bool, id: nat)
    requires Valid(s) && id in s.users && Lower(s.users[id].username) == Normalize(bootstrap)
    ensures WithBootstrap(s, bootstrap, hasPassword).1 == if s.users[id].role.Admin? || hasPassword then Some(id) else None
  {
    NormalizeIdempotent(bootstrap);
  }

  // ----- Whole runs

  datatype Event = Asked(admin: nat, request: Request) | SignedIn(username: string) | Started(configured: string, hasPassword: bool)

  /** A request by anyone who is not an effective administrator is turned away by `require_admin`. */
  function Next(s: Tables, bootstrap: string, e: Event): (t: Tables)
    requires Valid(s)
  {
    match e
    case Asked(admin, request) => if IsEffectiveAdmin(s, admin) then Handled(s, admin, bootstrap, request).0 else s
    case SignedIn(username) => AfterSignIn(s, username)
    case Started(configured, hasPassword) => AfterStartup(s, configured, bootstrap, hasPassword).0
  }

  /** Only an administrator whom the allowlist lets in is heard; anybody else's request changes nothing. */
  lemma {:induction false} OnlyAdministratorsAreHeard(s: Tables, bootstrap: string, admin: nat, request: Request)
    requires Valid(s)
    ensures var heard := admin in s.users && s.users[admin].role == Admin && LetIn(s, Lower(s.users[admin].username));
            && (heard ==> Next(s, bootstrap, Asked(admin, request)) == Handled(s, admin, bootstrap, request).0)
            && (!heard ==> Next(s, bootstrap, Asked(admin, request)) == s)
  {
    if admin in s.users {
      EntryOfUser(s, admin);
    }
  }

  lemma {:induction false} NextKeepsSomeAdministrator(s: Tables, bootstrap: string, e: Event, id: nat) returns (other: nat)
    requires Valid(s) && IsEffectiveAdmin(s, id)
    ensures Valid(Next(s, bootstrap, e)) && IsEffectiveAdmin(Next(s, bootstrap, e), other)
    ensures Lower(s.users[id].username) == Normalize(bootstrap)
            ==> other == id && Next(s, bootstrap, e).users[id].username == s.users[id].username
  {
    other := id;
    match e
    case Asked(admin, request) =>
      if IsEffectiveAdmin(s, admin) {
        RequestKeeps(s, admin, bootstrap, request);
        AdministrationSurvivesARequest(s, admin, bootstrap, request, id);
        if Lower(s.users[id].username) != Normalize(bootstrap) {
          other := admin;
        }
      }
    case SignedIn(username) => SignInKeeps(s, username);
    case Started(configured, hasPassword) => StartupKeepsAdministrators(s, configured, bootstrap, hasPassword, id);
  }

  lemma {:induction false} NextIsValid(s: Tables, bootstrap: string, e: Event)
    requires Valid(s)
    ensures Valid(Next(s, bootstrap, e))
  {
    match e
    case Asked(admin, request) => RequestKeeps(s, admin, bootstrap, request);
    case SignedIn(username) => SignInKeeps(s, username);
    case Started(configured, hasPassword) => StartupReturnsAnEffectiveAdministrator(s, configured, bootstrap, hasPassword);
  }

  function Run(s: Tables, bootstrap: string, events: seq<Event>): (t: Tables)
    requires Valid(s)
    ensures Valid(t)
    decreases |events|
  {
    if events == [] then s else
      NextIsValid(s, bootstrap, events[0]);
      Run(Next(s, bootstrap, events[0]), bootstrap, events[1..])
  }

  /**
   An effective administrator always exists: after any run of requests (by anyone), sign-ins and startups from
   tables that have one. When it is the bootstrap administrator, it is that very account.
   */
  lemma {:induction false} AnAdministratorAlwaysExists(s: Tables, bootstrap: string, events: seq<Event>, id: nat) returns (other: nat)
    requires Valid(s) && IsEffectiveAdmin(s, id)
    ensures IsEffectiveAdmin(Run(s, bootstrap, events), other)
    ensures Lower(s.users[id].username) == Normalize(bootstrap) ==> other == id
    decreases |events|
  {
    other := id;
    if events != [] {
      other := NextKeepsSomeAdministrator(s, bootstrap, events[0], id);
      other := AnAdministratorAlwaysExists(Next(s, bootstrap, events[0]), bootstrap, events[1..], other);
    }
  }

  ghost predicate AllAgree(s: Tables)
    requires Valid(s)
  {
    forall id :: id in s.users ==> Agrees(s, id)
  }

  /** Without startups in between, roles and allowlist entries that agree everywhere agree everywhere after any run. */
  lemma {:induction false} AgreementSurvivesRuns(s: Tables, bootstrap: string, events: seq<Event>)
    requires Valid(s) && AllAgree(s) && forall i :: 0 <= i < |events| ==> !events[i].Started?
    ensures AllAgree(Run(s, bootstrap, events))
    decreases |events|
  {
    if events != [] {
      NextIsValid(s, bootstrap, events[0]);
      NextKeepsAgreement(s, bootstrap, events[0]);
      AgreementSurvivesRuns(Next(s, bootstrap, events[0]), bootstrap, events[1..]);
    }
  }

  lemma {:induction false} NextKeepsAgreement(s: Tables, bootstrap: string, e: Event)
    requires Valid(s) && AllAgree(s) && !e.Started?
    ensures Valid(Next(s, bootstrap, e)) && AllAgree(Next(s, bootstrap, e))
  {
    match e
    case Asked(admin, request) => RequestKeeps(s, admin, bootstrap, request);
    case SignedIn(username) => SignInKeeps(s, username);
  }
}
