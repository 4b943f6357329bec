/**
 The users table and the allowlist that says who may sign in (app/repositories/user_repo.py,
 app/repositories/user_allowlist_repo.py). The two are joined by username, compared ignoring case.
 */
module AccessTables {
  import opened Options
  import opened PyText

  datatype Role = Admin | Member

  datatype User = User(username: string, role: Role)

  datatype Entry = Entry(username: string, role: Role, active: bool, addedBy: Option<nat>)

  /** Rows by id, and the next id of each table. */
  datatype Tables = Tables(users: map<nat, User>, entries: map<nat, Entry>, nextUser: nat, nextEntry: nat)

  predicate UsableName(username: string) {
    username != [] && Trimmed(username)
  }

  ghost predicate UsersValid(users: map<nat, User>, next: nat) {
    && (forall i :: i in users ==> i < next && UsableName(users[i].username))
    && (forall i, j :: i in users && j in users && Lower(users[i].username) == Lower(users[j].username) ==> i == j)
  }

  ghost predicate EntriesValid(entries: map<nat, Entry>, next: nat) {
    && (forall i :: i in entries ==> i < next && UsableName(entries[i].username))
    && (forall i, j :: i in entries && j in entries && Lower(entries[i].username) == Lower(entries[j].username) ==> i == j)
  }

  /** Usernames are trimmed, not empty and unique ignoring case, in both tables. */
  ghost predicate Valid(s: Tables) {
    UsersValid(s.users, s.nextUser) && EntriesValid(s.entries, s.nextEntry)
  }

  /** `get_by_username_case_insensitive` of the users. */
  function UserNamed(s: Tables, username: string): (r: Option<nat>)
    requires Valid(s)
    ensures r.Some? ==> r.value in s.users && Lower(s.users[r.value].username) == Normalize(username)
    ensures r.None? ==> forall i :: i in s.users ==> Lower(s.users[i].username) != Normalize(username)
  {
    if i: nat :| i in s.users && Lower(s.users[i].username) == Normalize(username) then Some(i) else None
  }

  /** `get_by_username` of the allowlist. */
  function EntryNamed(s: Tables, username: string): (r: Option<nat>)
    requires Valid(s)
    ensures r.Some? ==> r.value in s.entries && Lower(s.entries[r.value].username) == Normalize(username)
    ensures r.None? ==> forall i :: i in s.entries ==> Lower(s.entries[i].username) != Normalize(username)
  {
    if i: nat :| i in s.entries && Lower(s.entries[i].username) == Normalize(username) then Some(i) else None
  }

  /** The entry that stands under a lower-case name. */
  function Granted(s: Tables, key: string): (r: Option<Entry>)
    requires Valid(s)
    ensures r.Some? <==> exists i :: i in s.entries && Lower(s.entries[i].username) == key
    ensures forall i :: i in s.entries && Lower(s.entries[i].username) == key ==> r == Some(s.entries[i])
  {
    if i: nat :| i in s.entries && Lower(s.entries[i].username) == key then Some(s.entries[i]) else None
  }

  /** `is_effective_admin`, for the user with this id. */
  predicate IsEffectiveAdmin(s: Tables, id: nat)
    requires Valid(s)
  {
    id in s.users && s.users[id].role.Admin?
    && EntryNamed(s, s.users[id].username).Some? && s.entries[EntryNamed(s, s.users[id].username).value].active
  }

  function CountEffectiveAdmins(s: Tables): nat
    requires Valid(s)
  {
    |EffectiveAdmins(s)|
  }

  function EffectiveAdmins(s: Tables): set<nat>
    requires Valid(s)
  {
    set id | id in s.users && IsEffectiveAdmin(s, id)
  }

  /** A user's role equals the role of the allowlist entry under its name, when there is one. */
  predicate Agrees(s: Tables, id: nat)
    requires Valid(s)
  {
    id in s.users ==>
      (var g := Granted(s, Lower(s.users[id].username)); g.Some? ==> g.value.role == s.users[id].role)
  }

  /** `AccessControl` compares trimmed names, so looking a user's entry up by name finds the one it is granted by. */
  lemma {:induction false} EntryOfUser(s: Tables, id: nat)
    requires Valid(s) && id in s.users
    ensures Normalize(s.users[id].username) == Lower(s.users[id].username)
    ensures var e := EntryNamed(s, s.users[id].username);
            Granted(s, Lower(s.users[id].username)) == if e.Some? then Some(s.entries[e.value]) else None
    ensures UserNamed(s, s.users[id].username) == Some(id)
    ensures IsEffectiveAdmin(s, id) <==>
            s.users[id].role.Admin? && Granted(s, Lower(s.users[id].username)).Some? && Granted(s, Lower(s.users[id].username)).value.active
  {
    StripTrimmed(s.users[id].username);
  }

  // ----- Changes

  function WithEntry(s: Tables, id: nat, e: Entry): Tables {
    s.(entries := s.entries[id := e])
  }

  function WithRole(s: Tables, id: nat, role: Role): Tables
    requires id in s.users
  {
    s.(users := s.users[id := s.users[id].(role := role)])
  }

  /** `create` of the users; the username is stored as given. */
  function WithNewUser(s: Tables, username: string, role: Role): Tables {
    s.(users := s.users[s.nextUser := User(username, role)], nextUser := s.nextUser + 1)
  }

  function WithoutEntry(s: Tables, id: nat): Tables {
    s.(entries := s.entries - {id})
  }

  /** `ensure` of the allowlist. */
  function Ensured(s: Tables, username: string, role: Role, addedBy: Option<nat>, reactivate: bool, updateRole: bool): Tables
    requires Valid(s)
  {
    match EntryNamed(s, username)
    case Some(i) =>
      var e := s.entries[i];
      WithEntry(s, i, e.(active := e.active || reactivate, role := if updateRole then role else e.role))
    case None =>
      WithEntry(s, s.nextEntry, Entry(Normalize(username), role, true, addedBy)).(nextEntry := s.nextEntry + 1)
  }

  lemma {:induction false} WritingKeepsNamesUnique(entries: map<nat, Entry>, id: nat, e: Entry, before: nat, next: nat)
    requires EntriesValid(entries, before) && UsableName(e.username) && id < next && before <= next
    requires forall i :: i in entries && i != id ==> Lower(entries[i].username) != Lower(e.username)
    ensures EntriesValid(entries[id := e], next)
  {
    var t := entries[id := e];
    forall i | i in t
      ensures i < next && UsableName(t[i].username)
    {
      assert i != id ==> i in entries && t[i] == entries[i];
    }
    forall i, j | i in t && j in t && Lower(t[i].username) == Lower(t[j].username)
      ensures i == j
    {
      WrittenNamesDiffer(entries, id, e, before, i, j);
    }
  }

  lemma {:induction false} WrittenNamesDiffer(entries: map<nat, Entry>, id: nat, e: Entry, before: nat, i: nat, j: nat)
    requires EntriesValid(entries, before)
    requires forall k :: k in entries && k != id ==> Lower(entries[k].username) != Lower(e.username)
    requires i in entries[id := e] && j in entries[id := e] && Lower(entries[id := e][i].username) == Lower(entries[id := e][j].username)
    ensures i == j
  {
    assert i != id ==> i in entries && entries[id := e][i] == entries[i];
    assert j != id ==> j in entries && entries[id := e][j] == entries[j];
  }

  lemma {:induction false} WritingTouchesOneName(s: Tables, id: nat, e: Entry, next: nat)
    requires Valid(s) && UsableName(e.username) && id < next && s.nextEntry <= next
    requires forall i :: i in s.entries && i != id ==> Lower(s.entries[i].username) != Lower(e.username)
    requires id in s.entries ==> Lower(s.entries[id].username) == Lower(e.username)
    ensures var t := WithEntry(s, id, e).(nextEntry := next);
            && Valid(t) && Granted(t, Lower(e.username)) == Some(e)
            && forall key :: key != Lower(e.username) ==> Granted(t, key) == Granted(s, key)
  {
    var t := WithEntry(s, id, e).(nextEntry := next);
    WritingKeepsNamesUnique(s.entries, id, e, s.nextEntry, next);
    assert t.entries[id] == e;
    forall k | k != Lower(e.username)
      ensures Granted(t, k) == Granted(s, k)
    {
      SameRowsSameGrant(s, t, k);
    }
  }

  /** A name is granted alike by two tables that have the same rows under it. */
  lemma {:induction false} SameRowsSameGrant(s: Tables, t: Tables, key: string)
    requires Valid(s) && Valid(t)
    requires forall i :: i in s.entries && Lower(s.entries[i].username) == key ==> i in t.entries && t.entries[i] == s.entries[i]
    requires forall i :: i in t.entries && Lower(t.entries[i].username) == key ==> i in s.entries && t.entries[i] == s.entries[i]
    ensures Granted(t, key) == Granted(s, key)
  {
  }

  /** `ensure` touches one name: afterwards it is granted, and every other name is granted as before. */
  lemma {:induction false} EnsureTouchesOneName(s: Tables, username: string, role: Role, addedBy: Option<nat>, reactivate: bool, updateRole: bool)
    requires Valid(s) && Normalize(username) != []
    ensures var t := Ensured(s, username, role, addedBy, reactivate, updateRole);
            && Valid(t) && t.users == s.users
            && (forall key :: key != Normalize(username) ==> Granted(t, key) == Granted(s, key))
            && var before, after := Granted(s, Normalize(username)), Granted(t, Normalize(username));
               && after.Some?
               && after.value.role == (if before.Some? && !updateRole then before.value.role else role)
               && after.value.active == (before.None? || before.value.active || reactivate)
  {
    if EntryNamed(s, username).Some? {
      EnsureUpdatesTheEntry(s, username, role, addedBy, reactivate, updateRole);
    } else {
      EnsureAddsAnEntry(s, username, role, addedBy, reactivate, updateRole);
    }
  }

  lemma {:induction false} EnsureUpdatesTheEntry(s: Tables, username: string, role: Role, addedBy: Option<nat>, reactivate: bool, updateRole: bool)
    requires Valid(s) && EntryNamed(s, username).Some?
    ensures var t := Ensured(s, username, role, addedBy, reactivate, updateRole);
            var e := s.entries[EntryNamed(s, username).value];
            && Valid(t) && t.users == s.users && Granted(s, Normalize(username)) == Some(e)
            && Granted(t, Normalize(username)) == Some(e.(active := e.active || reactivate, role := if updateRole then role else e.role))
            && forall key :: key != Normalize(username) ==> Granted(t, key) == Granted(s, key)
  {
    var i := EntryNamed(s, username).value;
    var e := s.entries[i];
    WritingTouchesOneName(s, i, e.(active := e.active || reactivate, role := if updateRole then role else e.role), s.nextEntry);
  }

  lemma {:induction false} EnsureAddsAnEntry(s: Tables, username: string, role: Role, addedBy: Option<nat>, reactivate: bool, updateRole: bool)
    requires Valid(s) && Normalize(username) != [] && EntryNamed(s, username).None?
    ensures var t := Ensured(s, username, role, addedBy, reactivate, updateRole);
            && Valid(t) && t.users == s.users && Granted(s, Normalize(username)).None?
            && t.entries.Keys == s.entries.Keys + {s.nextEntry} && t.nextEntry == s.nextEntry + 1
            && Granted(t, Normalize(username)) == Some(Entry(Normalize(username), role, true, addedBy))
            && forall key :: key != Normalize(username) ==> Granted(t, key) == Granted(s, key)
  {
    NormalNameIsUsable(username);
    WritingTouchesOneName(s, s.nextEntry, Entry(Normalize(username), role, true, addedBy), s.nextEntry + 1);
  }

  lemma {:induction false} NormalNameIsUsable(username: string)
    requires Normalize(username) != []
    ensures UsableName(Normalize(username)) && Lower(Normalize(username)) == Normalize(username)
  {
    LowerIdempotent(Strip(username));
    StripIsTrimmed(username);
    LowerTrimmed(Strip(username));
  }

  /** Giving a user the role it has changes nothing. */
  lemma {:induction false} SameRole(s: Tables, id: nat)
    requires id in s.users
    ensures WithRole(s, id, s.users[id].role) == s
  {
    assert s.users[id := s.users[id]] == s.users;
  }

  lemma {:induction false} DeletingTouchesOneName(s: Tables, id: nat)
    requires Valid(s) && id in s.entries
    ensures var t := WithoutEntry(s, id);
            && Valid(t) && t.users == s.users && Granted(t, Lower(s.entries[id].username)).None?
            && forall key :: key != Lower(s.entries[id].username) ==> Granted(t, key) == Granted(s, key)
  {
    var t := WithoutEntry(s, id);
    RemovalKeepsNamesUnique(s.entries, id, s.nextEntry);
    forall k | k != Lower(s.entries[id].username)
      ensures Granted(t, k) == Granted(s, k)
    {
      SameRowsSameGrant(s, t, k);
    }
  }

  lemma {:induction false} RemovalKeepsNamesUnique(entries: map<nat, Entry>, id: nat, next: nat)
    requires EntriesValid(entries, next)
    ensures EntriesValid(entries - {id}, next)
  {
  }

  lemma {:induction false} RoleTouchesNoEntry(s: Tables, id: nat, role: Role)
    requires Valid(s) && id in s.users
    ensures var t := WithRole(s, id, role);
            && Valid(t) && t.entries == s.entries
            && forall key :: Granted(t, key) == Granted(s, key)
  {
    var t := WithRole(s, id, role);
    RoleKeepsNames(s.users, s.nextUser, id, role);
    forall key
      ensures Granted(t, key) == Granted(s, key)
    {
      SameRowsSameGrant(s, t, key);
    }
  }

  lemma {:induction false} RoleKeepsNames(users: map<nat, User>, next: nat, id: nat, role: Role)
    requires UsersValid(users, next) && id in users
    ensures UsersValid(users[id := users[id].(role := role)], next)
  {
    var t := users[id := users[id].(role := role)];
    forall i | i in t
      ensures i in users && t[i].username == users[i].username
    {
    }
  }

  lemma {:induction false} NewUserTouchesNoEntry(s: Tables, username: string, role: Role)
    requires Valid(s) && Normalize(username) == username && username != [] && UserNamed(s, username).None?
    ensures var t := WithNewUser(s, username, role);
            && Valid(t) && t.entries == s.entries && s.nextUser !in s.users
            && forall key :: Granted(t, key) == Granted(s, key)
  {
    var t := WithNewUser(s, username, role);
    NormalNameIsUsable(username);
    NewUserKeepsNames(s.users, s.nextUser, username, role);
    forall key
      ensures Granted(t, key) == Granted(s, key)
    {
      SameRowsSameGrant(s, t, key);
    }
  }

  lemma {:induction false} NewUserKeepsNames(users: map<nat, User>, next: nat, username: string, role: Role)
    requires UsersValid(users, next) && UsableName(username)
    requires forall i :: i in users ==> Lower(users[i].username) != Lower(username)
    ensures next !in users && UsersValid(users[next := User(username, role)], next + 1)
  {
    var t := users[next := User(username, role)];
    forall i | i in t
      ensures i < next + 1 && UsableName(t[i].username)
    {
      assert i != next ==> i in users && t[i] == users[i];
    }
    forall i, j | i in t && j in t && Lower(t[i].username) == Lower(t[j].username)
      ensures i == j
    {
      NewNamesDiffer(users, next, username, role, i, j);
    }
  }

  lemma {:induction false} NewNamesDiffer(users: map<nat, User>, next: nat, username: string, role: Role, i: nat, j: nat)
    requires UsersValid(users, next)
    requires forall k :: k in users ==> Lower(users[k].username) != Lower(username)
    requires var t := users[next := User(username, role)]; i in t && j in t && Lower(t[i].username) == Lower(t[j].username)
    ensures i == j
  {
    var t := users[next := User(username, role)];
    assert i != next ==> i in users && t[i] == users[i];
    assert j != next ==> j in users && t[j] == users[j];
  }

  /** Two different effective administrators make the count at least two. */
  lemma {:induction false} TwoCountAsTwo(s: Tables, a: nat, b: nat)
    requires Valid(s) && a != b && IsEffectiveAdmin(s, a) && IsEffectiveAdmin(s, b)
    ensures CountEffectiveAdmins(s) >= 2
  {
    TwoMembers(EffectiveAdmins(s), a, b);
  }

  lemma {:induction false} TwoMembers(ids: set<nat>, a: nat, b: nat)
    requires a != b && a in ids && b in ids
    ensures |ids| >= 2
  {
    assert ids == {a, b} + (ids - {a, b});
    assert |{a, b}| == 2;
  }
}
