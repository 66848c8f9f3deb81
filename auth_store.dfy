/**
 * The credential and membership store behind the authentication server: three tables
 * (`users`, `roles`, `members`) and the queries and updates the service runs on them.
 *
 * The database is in-memory relational state. Each table is a map from its integer
 * primary key to the row. SHA-512 is a deterministic function the service is built with
 * (`digest`), and the random 32-character salt is passed in by the caller.
 */
module AuthStore {
  import opened Wrappers

  /** The hex form of a version 4 UUID: the salt column is `CHAR(32)`. */
  type Salt = s: string | |s| == 32 witness seq(32, _ => '0')

  /** The hex form of a SHA-512 digest: 128 characters. */
  type HexDigest = s: string | |s| == 128 witness seq(128, _ => '0')

  /** A row of `users`, keyed by `user_id`. */
  datatype User = User(name: string, salt: string, hashedPassword: string, isEnabled: bool)

  /** A row of `roles`, keyed by `role_id`. */
  datatype Role = Role(name: string, description: Option<string>)

  /** A row of `members`, keyed by `member_id`: the user and the role it links. */
  datatype Member = Member(userId: int, roleId: int)

  /** The exceptions that can escape a call of the service. */
  datatype Error =
    | IntegrityError   // a unique constraint rejected the statement
    | AttributeError   // the statement refers to something the table object does not have
    | KeyError         // a credential is missing

  /** What `open` finds when it reflects the database: each table, if it already exists. */
  datatype Database = Database(
    users: Option<map<int, User>>,
    roles: Option<map<int, Role>>,
    members: Option<map<int, Member>>)

  /** `UNIQUE (name)` on `users`. */
  ghost predicate UniqueUserNames(users: map<int, User>) {
    forall i, j :: i in users && j in users && users[i].name == users[j].name ==> i == j
  }

  /** `UNIQUE (name)` on `roles`. */
  ghost predicate UniqueRoleNames(roles: map<int, Role>) {
    forall i, j :: i in roles && j in roles && roles[i].name == roles[j].name ==> i == j
  }

  /** `UNIQUE (user_id, role_id)` on `members`. */
  ghost predicate UniquePairs(members: map<int, Member>) {
    forall i, j :: i in members && j in members && members[i] == members[j] ==> i == j
  }

  /** The tables that exist satisfy their unique constraints. */
  ghost predicate Consistent(db: Database) {
    && (db.users.Some? ==> UniqueUserNames(db.users.value))
    && (db.roles.Some? ==> UniqueRoleNames(db.roles.value))
    && (db.members.Some? ==> UniquePairs(db.members.value))
  }

  /**
   * SQLite's choice of key for a row inserted without one into a table whose
   * `INTEGER PRIMARY KEY` is the rowid: one more than the largest key in use, or 1 when
   * the table is empty.
   */
  ghost predicate IsNextRowId(ids: set<int>, id: int) {
    && (forall k :: k in ids ==> k < id)
    && (if ids == {} then id == 1 else id - 1 in ids)
  }

  method NextRowId(ids: set<int>) returns (id: int)
    ensures IsNextRowId(ids, id)
    ensures id !in ids
  {
    if ids == {} {
      return 1;
    }
    var top := Pick(ids);
    var rest := ids - {top};
    while rest != {}
      invariant rest <= ids
      invariant top in ids
      invariant forall k :: k in ids && k !in rest ==> k <= top
      decreases |rest|
    {
      var k := Pick(rest);
      if k > top {
        top := k;
      }
      rest := rest - {k};
    }
    id := top + 1;
  }

  /** Some element of a non-empty set: the next row a cursor yields. */
  method Pick<T>(s: set<T>) returns (x: T)
    requires s != {}
    ensures x in s
  {
    x :| x in s;
  }

  /** A set whose elements all equal `x`, and which holds `x`, is `{x}`. */
  lemma AtMostOne<T>(s: set<T>, x: T)
    requires x in s
    requires forall y :: y in s ==> y == x
    ensures s == {x}
    ensures |s| == 1
  {
    assert s == {x};
  }

  class SqlAuthService {
    /** `hashlib.sha512(text.encode()).hexdigest()`. */
    const digest: string -> HexDigest

    /** `open` has run: `_users`, `_roles` and `_members` are set. */
    var isOpen: bool
    /** Whether each table exists in the database. */
    var usersTable: bool
    var rolesTable: bool
    var membersTable: bool

    var users: map<int, User>
    var roles: map<int, Role>
    var members: map<int, Member>

    ghost predicate Valid()
      reads this
    {
      && UniqueUserNames(users)
      && UniqueRoleNames(roles)
      && UniquePairs(members)
      && (!usersTable ==> users == map[])
      && (!rolesTable ==> roles == map[])
      && (!membersTable ==> members == map[])
      && (isOpen ==> usersTable && rolesTable && membersTable)
    }

    /** `SqlAuthService(url)`: a service over the database at `url`, not yet opened. */
    constructor (digest: string -> HexDigest, existing: Database)
      requires Consistent(existing)
      ensures Valid() && !isOpen
      ensures this.digest == digest
      ensures usersTable == existing.users.Some? && users == existing.users.GetOr(map[])
      ensures rolesTable == existing.roles.Some? && roles == existing.roles.GetOr(map[])
      ensures membersTable == existing.members.Some? && members == existing.members.GetOr(map[])
    {
      this.digest := digest;
      isOpen := false;
      usersTable := existing.users.Some?;
      rolesTable := existing.roles.Some?;
      membersTable := existing.members.Some?;
      users := existing.users.GetOr(map[]);
      roles := existing.roles.GetOr(map[]);
      members := existing.members.GetOr(map[]);
    }

    // -------------------------------------------------------------------------------------
    // Passwords.

    /** `_is_valid_password`: the stored hash is the digest of the password and the salt. */
    function IsValidPassword(password: string, salt: string, hashedPassword: string): (r: bool)
      ensures r ==> |hashedPassword| == 128
    {
      hashedPassword == digest(password + salt)
    }

    /** `_hash_password`, with the salt `uuid4().hex` supplied by the caller. */
    function HashPassword(password: string, salt: Salt): (r: (Salt, HexDigest))
      ensures r.0 == salt
      ensures IsValidPassword(password, r.0, r.1)
    {
      (salt, digest(password + salt))
    }

    /** A password checks against a hash made for another exactly when the two digests agree. */
    lemma PasswordVerifiesIffDigestsAgree(password: string, attempt: string, salt: Salt)
      ensures IsValidPassword(attempt, HashPassword(password, salt).0, HashPassword(password, salt).1)
          <==> digest(attempt + salt) == digest(password + salt)
    {
    }

    // -------------------------------------------------------------------------------------
    // Queries.

    /** The keys of the rows that `SELECT ... FROM users WHERE name = :name` returns. */
    function UserRows(name: string): set<int>
      reads this`users
    {
      set id | id in users && users[id].name == name
    }

    /** The keys of the rows that `SELECT ... FROM roles WHERE name = :name` returns. */
    function RoleRows(name: string): set<int>
      reads this`roles
    {
      set id | id in roles && roles[id].name == name
    }

    /** `user_exists`: the query on the name yields a row. */
    function UserExists(name: string): (r: bool)
      reads this`isOpen, this`users
      requires isOpen
      ensures r <==> UserRows(name) != {}
    {
      UserRowsNonEmpty(name);
      exists id | id in users :: users[id].name == name
    }

    /** `role_exists`: the query on the name yields a row. */
    function RoleExists(name: string): (r: bool)
      reads this`isOpen, this`roles
      requires isOpen
      ensures r <==> RoleRows(name) != {}
    {
      RoleRowsNonEmpty(name);
      exists id | id in roles :: roles[id].name == name
    }

    /** Some row carries the name exactly when the lookup by name returns a row. */
    lemma UserRowsNonEmpty(name: string)
      ensures (exists id | id in users :: users[id].name == name) <==> UserRows(name) != {}
    {
      if exists id | id in users :: users[id].name == name {
        var id :| id in users && users[id].name == name;
        assert id in UserRows(name);
      } else {
        forall other | other in UserRows(name)
          ensures false
        {
        }
      }
    }

    lemma RoleRowsNonEmpty(name: string)
      ensures (exists id | id in roles :: roles[id].name == name) <==> RoleRows(name) != {}
    {
      if exists id | id in roles :: roles[id].name == name {
        var id :| id in roles && roles[id].name == name;
        assert id in RoleRows(name);
      } else {
        forall other | other in RoleRows(name)
          ensures false
        {
        }
      }
    }

    /** Because of `UNIQUE (name)` the query on a name yields one row if the user exists and none otherwise. */
    lemma UserRowsCount(name: string)
      requires Valid() && isOpen
      ensures |UserRows(name)| == if UserExists(name) then 1 else 0
    {
      if UserExists(name) {
        var id :| id in users && users[id].name == name;
        forall other | other in UserRows(name)
          ensures other == id
        {
        }
        AtMostOne(UserRows(name), id);
      } else {
        forall other | other in UserRows(name)
          ensures false
        {
        }
        assert UserRows(name) == {};
      }
    }

    /** The same for roles. */
    lemma RoleRowsCount(name: string)
      requires Valid() && isOpen
      ensures |RoleRows(name)| == if RoleExists(name) then 1 else 0
    {
      if RoleExists(name) {
        var id :| id in roles && roles[id].name == name;
        forall other | other in RoleRows(name)
          ensures other == id
        {
        }
        AtMostOne(RoleRows(name), id);
      } else {
        forall other | other in RoleRows(name)
          ensures false
        {
        }
        assert RoleRows(name) == {};
      }
    }

    /** `user_is_enabled`: the row for the name exists and its `is_enabled` is set. */
    function UserIsEnabled(name: string): (r: bool)
      reads this`isOpen, this`users
      requires isOpen
      ensures r ==> UserExists(name)
    {
      exists id | id in users :: users[id].name == name && users[id].isEnabled
    }

    /** `check_password`: the row for the name exists and its salt and hash accept the password. */
    function CheckPassword(name: string, password: string): (r: bool)
      reads this`isOpen, this`users
      requires isOpen
      ensures r ==> UserExists(name)
    {
      exists id | id in users ::
        users[id].name == name && IsValidPassword(password, users[id].salt, users[id].hashedPassword)
    }

    /** A member row joins a user row named `user` and a role row named `role`. */
    predicate Links(m: Member, user: string, role: string)
      reads this`users, this`roles
    {
      m.userId in users && users[m.userId].name == user && m.roleId in roles && roles[m.roleId].name == role
    }

    /** The member rows the three-way join of `has_role` yields. */
    function LinkRows(user: string, role: string): set<int>
      reads this`users, this`roles, this`members
    {
      set mid | mid in members && Links(members[mid], user, role)
    }

    /** `has_role`: the join yields a row, that is, a member row links the two names. */
    function HasRole(user: string, role: string): (r: bool)
      reads this`isOpen, this`users, this`roles, this`members
      requires isOpen
      ensures r ==> UserExists(user) && RoleExists(role)
    {
      exists mid | mid in members :: Links(members[mid], user, role)
    }

    /**
     * Every member row linking the two names holds the same pair, the one of the user's key
     * and the role's key, so under `UNIQUE (user_id, role_id)` there is at most one.
     */
    lemma LinkRowsCount(user: string, role: string)
      requires Valid() && isOpen
      ensures |LinkRows(user, role)| == if HasRole(user, role) then 1 else 0
    {
      if HasRole(user, role) {
        var mid :| mid in members && Links(members[mid], user, role);
        forall other | other in LinkRows(user, role)
          ensures other == mid
        {
          assert members[other] == members[mid];
        }
        AtMostOne(LinkRows(user, role), mid);
      } else {
        forall other | other in LinkRows(user, role)
          ensures false
        {
        }
        assert LinkRows(user, role) == {};
      }
    }

    /** `user_roles`: the names of the roles joined to the user named `user`. */
    function UserRoles(user: string): (r: set<string>)
      reads this`isOpen, this`users, this`roles, this`members
      requires isOpen
      ensures forall role :: role in r <==> HasRole(user, role)
    {
      set mid | mid in members && members[mid].userId in users && users[members[mid].userId].name == user
        && members[mid].roleId in roles
        :: roles[members[mid].roleId].name
    }

    /** `role_users`: the names of the users joined to the role named `role`. */
    function RoleUsers(role: string): (r: set<string>)
      reads this`isOpen, this`users, this`roles, this`members
      requires isOpen
      ensures forall user :: user in r <==> HasRole(user, role)
    {
      set mid | mid in members && members[mid].roleId in roles && roles[members[mid].roleId].name == role
        && members[mid].userId in users
        :: users[members[mid].userId].name
    }

    /** `is_valid_user`: the user exists and is enabled. */
    function IsValidUser(user: string): (r: bool)
      reads this`isOpen, this`users
      requires isOpen
      ensures r <==> exists id :: id in users && users[id].name == user && users[id].isEnabled
    {
      UserIsEnabled(user)
    }

    /** `authorizations`: the names of the user's roles. */
    function Authorizations(user: string): (r: set<string>)
      reads this`isOpen, this`users, this`roles, this`members
      requires isOpen
      ensures forall role :: role in r <==> HasRole(user, role)
    {
      UserRoles(user)
    }

    /**
     * `authenticate(**credentials)`. A missing `username` or `password` raises before the
     * `try`; everything inside it, the not-opened assertion included, is swallowed into `None`.
     * The enabled flag is not consulted.
     */
    function Authenticate(credentials: map<string, string>): (r: Result<Option<string>, Error>)
      reads this`isOpen, this`users
      ensures r.Err? <==> "username" !in credentials || "password" !in credentials
      ensures r.Err? ==> r.error == KeyError
      ensures r.Ok? && r.value.Some? <==>
        && "username" in credentials && "password" in credentials
        && isOpen && CheckPassword(credentials["username"], credentials["password"])
      ensures r.Ok? && r.value.Some? ==> r.value.value == credentials["username"]
    {
      if "username" !in credentials || "password" !in credentials then
        Err(KeyError)
      else if isOpen && CheckPassword(credentials["username"], credentials["password"]) then
        Ok(Some(credentials["username"]))
      else
        Ok(None)
    }

    /** The (user name, role name) rows of the join in `permissions`. */
    function JoinRows(): (r: set<(string, string)>)
      reads this`isOpen, this`users, this`roles, this`members
      requires isOpen
      ensures forall user, role :: (user, role) in r <==> HasRole(user, role)
    {
      set mid | mid in members && members[mid].roleId in roles && members[mid].userId in users
        :: (users[members[mid].userId].name, roles[members[mid].roleId].name)
    }

    /** Grouping the join rows by one column gives the other query's answer. */
    lemma GroupedJoin(rolesByUsers: bool, key: string)
      requires isOpen
      ensures GroupOf(JoinRows(), rolesByUsers, key) == if rolesByUsers then UserRoles(key) else RoleUsers(key)
    {
      var expected := if rolesByUsers then UserRoles(key) else RoleUsers(key);
      forall value | value in expected
        ensures value in GroupOf(JoinRows(), rolesByUsers, key)
      {
        var row := if rolesByUsers then (key, value) else (value, key);
        assert row in JoinRows();
        assert KeyOf(row, rolesByUsers) == key && ValueOf(row, rolesByUsers) == value;
      }
    }

    /**
     * `permissions(roles_by_users)`: the join rows grouped into a dictionary of sets, keyed
     * by user name when `roles_by_users` holds and by role name otherwise.
     */
    method Permissions(rolesByUsers: bool) returns (dct: map<string, set<string>>)
      requires isOpen
      ensures forall key :: key in dct <==> (if rolesByUsers then UserRoles(key) else RoleUsers(key)) != {}
      ensures forall key :: key in dct ==> dct[key] == if rolesByUsers then UserRoles(key) else RoleUsers(key)
    {
      dct := GroupRows(JoinRows(), rolesByUsers);
      assert IsGrouping(dct, JoinRows(), rolesByUsers);
      forall key
        ensures GroupOf(JoinRows(), rolesByUsers, key) == if rolesByUsers then UserRoles(key) else RoleUsers(key)
      {
        GroupedJoin(rolesByUsers, key);
      }
    }
    /** A user row after `change_password`: the new salt and its hash, everything else kept. */
    function Rehashed(u: User, password: string, salt: Salt): (r: User)
      ensures r.name == u.name && r.isEnabled == u.isEnabled
      ensures IsValidPassword(password, r.salt, r.hashedPassword)
    {
      var (s, hashed) := HashPassword(password, salt);
      u.(salt := s, hashedPassword := hashed)
    }

    // -------------------------------------------------------------------------------------
    // Updates. Each runs in its own transaction; a statement that raises changes nothing.

    /**
     * `add_user`: inserts a row with a fresh salt and hash. The insert of a name already
     * present violates `UNIQUE (name)`; the `IntegrityError` is reported as `false`.
     */
    method AddUser(name: string, password: string, isEnabled: bool, salt: Salt) returns (added: bool)
      requires Valid() && isOpen
      modifies this
      ensures Valid() && isOpen
      ensures added <==> !old(UserExists(name))
      ensures !added ==> users == old(users)
      ensures added ==>
        exists id :: IsNextRowId(old(users).Keys, id) && users == old(users)[id := User(name, salt, digest(password + salt), isEnabled)]
      ensures UserExists(name)
      ensures added ==> CheckPassword(name, password) && UserIsEnabled(name) == isEnabled
      ensures roles == old(roles) && members == old(members)
    {
      var (s, hashed) := HashPassword(password, salt);
      if UserExists(name) {
        return false;
      }
      var id := NextRowId(users.Keys);
      users := users[id := User(name, s, hashed, isEnabled)];
      added := true;
      assert users[id].name == name;
    }

    /**
     * `change_password`: rewrites the salt and hash of the rows named `name` and reports
     * whether exactly one row was updated.
     */
    method ChangePassword(name: string, password: string, salt: Salt) returns (changed: bool)
      requires Valid() && isOpen
      modifies this
      ensures Valid() && isOpen
      ensures changed <==> old(UserExists(name))
      ensures users.Keys == old(users).Keys
      ensures forall id :: id in users ==>
        users[id] == if old(users)[id].name == name then Rehashed(old(users)[id], password, salt) else old(users)[id]
      ensures changed ==> forall attempt :: CheckPassword(name, attempt) <==> digest(attempt + salt) == digest(password + salt)
      ensures forall other :: UserIsEnabled(other) == old(UserIsEnabled(other))
      ensures roles == old(roles) && members == old(members)
    {
      var hits := UserRows(name);
      UserRowsCount(name);
      users := map id | id in users :: if id in hits then Rehashed(users[id], password, salt) else users[id];
      changed := |hits| == 1;
    }

    /**
     * `delete_user`: removes the rows named `name` and reports whether exactly one went.
     * Member rows that point at it stay: no `ON DELETE` clause is declared.
     */
    method DeleteUser(name: string) returns (deleted: bool)
      requires Valid() && isOpen
      modifies this
      ensures Valid() && isOpen
      ensures deleted <==> old(UserExists(name))
      ensures users == old(users) - old(UserRows(name))
      ensures !UserExists(name)
      ensures forall other :: other != name ==> (UserExists(other) <==> old(UserExists(other)))
      ensures roles == old(roles) && members == old(members)
    {
      var hits := UserRows(name);
      UserRowsCount(name);
      users := users - hits;
      deleted := |hits| == 1;
      forall other | other != name && old(UserExists(other))
        ensures UserExists(other)
      {
        var id :| id in old(users) && old(users)[id].name == other;
        assert id in users;
      }
    }

    /** `add_role`: inserts a row; a name already present is reported as `false`. */
    method AddRole(name: string, description: Option<string>) returns (added: bool)
      requires Valid() && isOpen
      modifies this
      ensures Valid() && isOpen
      ensures added <==> !old(RoleExists(name))
      ensures !added ==> roles == old(roles)
      ensures added ==> exists id :: IsNextRowId(old(roles).Keys, id) && roles == old(roles)[id := Role(name, description)]
      ensures RoleExists(name)
      ensures users == old(users) && members == old(members)
    {
      if RoleExists(name) {
        return false;
      }
      var id := NextRowId(roles.Keys);
      roles := roles[id := Role(name, description)];
      added := true;
      assert roles[id].name == name;
    }

    /** `delete_role`: removes the rows named `name`; member rows that point at it stay. */
    method DeleteRole(name: string) returns (deleted: bool)
      requires Valid() && isOpen
      modifies this
      ensures Valid() && isOpen
      ensures deleted <==> old(RoleExists(name))
      ensures roles == old(roles) - old(RoleRows(name))
      ensures !RoleExists(name)
      ensures forall other :: other != name ==> (RoleExists(other) <==> old(RoleExists(other)))
      ensures users == old(users) && members == old(members)
    {
      var hits := RoleRows(name);
      RoleRowsCount(name);
      roles := roles - hits;
      deleted := |hits| == 1;
      forall other | other != name && old(RoleExists(other))
        ensures RoleExists(other)
      {
        var id :| id in old(roles) && old(roles)[id].name == other;
        assert id in roles;
      }
    }

    /** Inserts a member row for a pair not yet present, under the next rowid. */
    method InsertMember(m: Member) returns (mid: int)
      requires Valid() && isOpen
      requires forall k :: k in members ==> members[k] != m
      modifies this
      ensures Valid() && isOpen
      ensures IsNextRowId(old(members).Keys, mid)
      ensures members == old(members)[mid := m]
      ensures users == old(users) && roles == old(roles)
    {
      mid := NextRowId(members.Keys);
      members := members[mid := m];
    }

    /**
     * `grant`: `INSERT INTO members SELECT user_id, role_id FROM users, roles WHERE ...`.
     * No row when a name does not resolve; a pair already present violates
     * `UNIQUE (user_id, role_id)` and the `IntegrityError` escapes.
     */
    method Grant(user: string, role: string) returns (r: Result<bool, Error>)
      requires Valid() && isOpen
      modifies this
      ensures Valid() && isOpen
      ensures users == old(users) && roles == old(roles)
      ensures r == Ok(false) <==> !old(UserExists(user)) || !old(RoleExists(role))
      ensures r == Err(IntegrityError) <==> old(HasRole(user, role))
      ensures r == Ok(true) <==> old(UserExists(user)) && old(RoleExists(role)) && !old(HasRole(user, role))
      ensures r != Ok(true) ==> members == old(members)
      ensures r == Ok(true) ==>
        exists mid :: IsNextRowId(old(members).Keys, mid) && mid in members && members == old(members)[mid := members[mid]] && Links(members[mid], user, role)
      ensures r.Ok? ==> (HasRole(user, role) <==> r.value)
    {
      if !UserExists(user) || !RoleExists(role) {
        return Ok(false);
      }
      var uid :| uid in users && users[uid].name == user;
      var rid :| rid in roles && roles[rid].name == role;
      if exists k | k in members :: members[k] == Member(uid, rid) {
        return Err(IntegrityError);
      }
      assert forall k :: k in members && Links(members[k], user, role) ==> members[k] == Member(uid, rid);
      var mid := InsertMember(Member(uid, rid));
      assert Links(members[mid], user, role);
      r := Ok(true);
    }

    /**
     * `revoke` as written: building the statement reads `members.c.id`, a column the
     * members table does not have, so the call raises before anything is sent.
     */
    method RevokeAsWritten(user: string, role: string) returns (r: Result<bool, Error>)
      requires Valid() && isOpen
      ensures r == Err(AttributeError)
    {
      r := Err(AttributeError);
    }

    /**
     * `revoke` as intended: deletes the member row linking the user named `user` to the
     * role named `role` and reports whether exactly one row went.
     */
    method Revoke(user: string, role: string) returns (revoked: bool)
      requires Valid() && isOpen
      modifies this
      ensures Valid() && isOpen
      ensures users == old(users) && roles == old(roles)
      ensures revoked <==> old(HasRole(user, role))
      ensures members == old(members) - old(LinkRows(user, role))
      ensures !HasRole(user, role)
      ensures forall u, g :: u != user || g != role ==> (HasRole(u, g) <==> old(HasRole(u, g)))
    {
      var hits := LinkRows(user, role);
      LinkRowsCount(user, role);
      ghost var before := members;
      members := members - hits;
      revoked := |hits| == 1;
      forall u, g | (u != user || g != role) && old(HasRole(u, g))
        ensures HasRole(u, g)
      {
        var mid :| mid in before && Links(before[mid], u, g);
        assert !Links(before[mid], user, role);
        assert mid in members;
      }
    }

    /** Inserts one member row linking `uid` to each role key in `targets`. */
    method InsertLinks(uid: int, targets: set<int>)
      requires Valid() && isOpen
      requires forall mid :: mid in members ==> members[mid].userId != uid
      modifies this
      ensures Valid() && isOpen
      ensures users == old(users) && roles == old(roles)
      ensures forall mid :: mid in old(members) ==> mid in members && members[mid] == old(members)[mid]
      ensures forall mid :: mid in members && mid !in old(members) ==>
        members[mid].userId == uid && members[mid].roleId in targets
      ensures forall rid :: rid in targets ==> exists mid :: mid in members && members[mid] == Member(uid, rid)
    {
      ghost var kept := members;
      var pending := targets;
      while pending != {}
        invariant Valid() && isOpen
        invariant users == old(users) && roles == old(roles)
        invariant pending <= targets
        invariant forall mid :: mid in kept ==> mid in members && members[mid] == kept[mid]
        invariant forall mid :: mid in members && mid !in kept ==>
          members[mid].userId == uid && members[mid].roleId in targets && members[mid].roleId !in pending
        invariant forall rid :: rid in targets && rid !in pending ==>
          exists mid :: mid in members && members[mid] == Member(uid, rid)
        decreases |pending|
      {
        var next := Pick(pending);
        ghost var before := members;
        var inserted := InsertMember(Member(uid, next));
        pending := pending - {next};
        forall rid | rid in targets && rid !in pending
          ensures exists mid :: mid in members && members[mid] == Member(uid, rid)
        {
          if rid == next {
            assert members[inserted] == Member(uid, next);
          } else {
            var mid :| mid in before && before[mid] == Member(uid, rid);
            assert members[mid] == before[mid];
          }
        }
      }
    }

    /**
     * `update_user_roles` as written: the delete runs, then building the insert calls
     * `Insert.select_from`, which does not exist; the `AttributeError` rolls the
     * transaction back, so nothing changes.
     */
    method UpdateUserRolesAsWritten(user: string, roleNames: set<string>) returns (r: Result<bool, Error>)
      requires Valid() && isOpen
      ensures r == Err(AttributeError)
    {
      r := Err(AttributeError);
    }

    /**
     * `update_user_roles` as intended, in one transaction: delete every member row of the
     * user, then insert one row for each existing role whose name is in `roleNames`, and
     * report whether any row was inserted.
     */
    method UpdateUserRoles(user: string, roleNames: set<string>) returns (updated: bool)
      requires Valid() && isOpen
      modifies this
      ensures Valid() && isOpen
      ensures users == old(users) && roles == old(roles)
      ensures updated <==> old(UserExists(user)) && exists rid :: rid in roles && roles[rid].name in roleNames
      ensures !old(UserExists(user)) ==> members == old(members)
      ensures forall g :: HasRole(user, g) <==> old(UserExists(user)) && g in roleNames && RoleExists(g)
      ensures forall u, g :: u != user ==> (HasRole(u, g) <==> old(HasRole(u, g)))
      ensures forall mid :: mid in old(members) && old(members)[mid].userId !in UserRows(user) ==>
        mid in members && members[mid] == old(members)[mid]
      ensures forall mid :: mid in members && members[mid].userId !in UserRows(user) ==>
        mid in old(members) && members[mid] == old(members)[mid]
      ensures forall mid :: mid in members && members[mid].userId in UserRows(user) ==>
        members[mid].roleId in roles && roles[members[mid].roleId].name in roleNames
    {
      if !UserExists(user) {
        return false;
      }
      var uid :| uid in users && users[uid].name == user;
      assert uid in UserRows(user);
      assert forall k :: k in UserRows(user) ==> k == uid;
      var targets := set rid | rid in roles && roles[rid].name in roleNames;
      members := map mid | mid in members && members[mid].userId != uid :: members[mid];
      ghost var kept := members;
      InsertLinks(uid, targets);
      updated := targets != {};
      forall mid | mid in old(members) && old(members)[mid].userId !in UserRows(user)
        ensures mid in members && members[mid] == old(members)[mid]
      {
        assert mid in kept;
      }
      forall mid | mid in members && members[mid].userId !in UserRows(user)
        ensures mid in old(members) && members[mid] == old(members)[mid]
      {
        assert mid in kept;
      }
      forall mid | mid in members && members[mid].userId in UserRows(user)
        ensures members[mid].roleId in roles && roles[members[mid].roleId].name in roleNames
      {
        assert members[mid].userId == uid;
        assert mid !in kept;
      }
      forall g | g in roleNames && RoleExists(g)
        ensures HasRole(user, g)
      {
        var rid :| rid in roles && roles[rid].name == g;
        assert rid in targets;
        var mid :| mid in members && members[mid] == Member(uid, rid);
        assert Links(members[mid], user, g);
      }
      forall g | HasRole(user, g)
        ensures g in roleNames && RoleExists(g)
      {
        var mid :| mid in members && Links(members[mid], user, g);
        assert members[mid].userId == uid;
        assert mid !in kept;
      }
      forall u, g | u != user && old(HasRole(u, g))
        ensures HasRole(u, g)
      {
        var mid :| mid in old(members) && old(Links(members[mid], u, g));
        assert old(members)[mid].userId != uid;
        assert mid in kept;
      }
      forall u, g | u != user && HasRole(u, g)
        ensures old(HasRole(u, g))
      {
        var mid :| mid in members && Links(members[mid], u, g);
        assert members[mid].userId != uid;
        assert mid in kept;
        assert old(Links(members[mid], u, g));
      }
      if exists rid :: rid in roles && roles[rid].name in roleNames {
        var rid :| rid in roles && roles[rid].name in roleNames;
        assert rid in targets;
      }
    }

    /**
     * `open` as written: the missing tables are created empty and the service is opened,
     * but `admin` is added only when a user of that name already exists, where the insert
     * is refused; so the tables are left as they were.
     */
    method Open(adminSalt: Salt)
      requires Valid()
      modifies this
      ensures Valid() && isOpen
      ensures users == old(users) && roles == old(roles) && members == old(members)
    {
      usersTable, rolesTable, membersTable := true, true, true;
      isOpen := true;
      if UserExists("admin") {
        var seeded := AddUser("admin", "admin", true, adminSalt);
      }
    }

    /** `open` as intended: seeds `admin` with password `admin` when no such user exists. */
    method OpenSeedingAdmin(adminSalt: Salt)
      requires Valid()
      modifies this
      ensures Valid() && isOpen
      ensures roles == old(roles) && members == old(members)
      ensures UserExists("admin")
      ensures (exists id :: id in old(users) && old(users)[id].name == "admin") ==> users == old(users)
      ensures !(exists id :: id in old(users) && old(users)[id].name == "admin") ==>
        CheckPassword("admin", "admin") && UserIsEnabled("admin")
      ensures !(exists id :: id in old(users) && old(users)[id].name == "admin") ==>
        exists id :: IsNextRowId(old(users).Keys, id) && users == old(users)[id := User("admin", adminSalt, digest("admin" + adminSalt), true)]
    {
      usersTable, rolesTable, membersTable := true, true, true;
      isOpen := true;
      if !UserExists("admin") {
        var seeded := AddUser("admin", "admin", true, adminSalt);
      }
    }

  }

  /** `dct` holds, for each key of the rows, the set of that key's values, and nothing else. */
  ghost predicate IsGrouping(dct: map<string, set<string>>, rows: set<(string, string)>, rolesByUsers: bool) {
    && (forall key :: key in dct <==> GroupOf(rows, rolesByUsers, key) != {})
    && (forall key :: key in dct ==> dct[key] == GroupOf(rows, rolesByUsers, key))
  }

  /**
   * The loop of `permissions` over the rows of its cursor: a row whose key is new starts a
   * set, a row whose key is already there adds its value to that set.
   */
  method GroupRows(rows: set<(string, string)>, rolesByUsers: bool) returns (dct: map<string, set<string>>)
    ensures IsGrouping(dct, rows, rolesByUsers)
  {
    var pending := rows;
    ghost var seen: set<(string, string)> := {};
    dct := map[];
    while pending != {}
      invariant seen + pending == rows && seen !! pending
      invariant IsGrouping(dct, seen, rolesByUsers)
      decreases |pending|
    {
      var row := Pick(pending);
      var key := KeyOf(row, rolesByUsers);
      var value := ValueOf(row, rolesByUsers);
      GroupingStep(dct, seen, row, rolesByUsers);
      if key !in dct {
        dct := dct[key := {value}];
      } else {
        dct := dct[key := dct[key] + {value}];
      }
      pending := pending - {row};
      seen := seen + {row};
    }
  }

  /** Adding one row to the dictionary the way the loop does keeps it a grouping. */
  lemma GroupingStep(dct: map<string, set<string>>, rows: set<(string, string)>, row: (string, string), rolesByUsers: bool)
    requires IsGrouping(dct, rows, rolesByUsers)
    ensures var key := KeyOf(row, rolesByUsers);
      var value := ValueOf(row, rolesByUsers);
      IsGrouping(dct[key := if key in dct then dct[key] + {value} else {value}], rows + {row}, rolesByUsers)
  {
    var key := KeyOf(row, rolesByUsers);
    var value := ValueOf(row, rolesByUsers);
    var after := dct[key := if key in dct then dct[key] + {value} else {value}];
    forall k
      ensures k in after <==> GroupOf(rows + {row}, rolesByUsers, k) != {}
      ensures k in after ==> after[k] == GroupOf(rows + {row}, rolesByUsers, k)
    {
      GroupOfAdd(rows, row, rolesByUsers, k);
      if k == key {
        assert value in GroupOf(rows + {row}, rolesByUsers, k);
      }
    }
  }

  /** The column a `permissions` row is grouped by. */
  function KeyOf(row: (string, string), rolesByUsers: bool): string {
    if rolesByUsers then row.0 else row.1
  }

  /** The column a `permissions` row contributes to its group. */
  function ValueOf(row: (string, string), rolesByUsers: bool): string {
    if rolesByUsers then row.1 else row.0
  }

  /** The values of the rows whose key column is `key`. */
  ghost function GroupOf(rows: set<(string, string)>, rolesByUsers: bool, key: string): set<string> {
    set row | row in rows && KeyOf(row, rolesByUsers) == key :: ValueOf(row, rolesByUsers)
  }

  /** What one row contributes to the group of `key`. */
  function RowValue(row: (string, string), rolesByUsers: bool, key: string): set<string> {
    if KeyOf(row, rolesByUsers) == key then {ValueOf(row, rolesByUsers)} else {}
  }

  /** One more row adds its value to its own key's group and to no other. */
  lemma GroupOfAdd(rows: set<(string, string)>, row: (string, string), rolesByUsers: bool, key: string)
    ensures GroupOf(rows + {row}, rolesByUsers, key) == GroupOf(rows, rolesByUsers, key) + RowValue(row, rolesByUsers, key)
  {
  }
}

/** Worked runs of the service over a database that starts without tables. */
module AuthScenarios {
  import opened Wrappers
  import opened AuthStore

  /**
   * A service over a fresh database, opened with the intended seeding: no tables existed,
   * so all three start empty and `admin` is then added under rowid 1.
   */
  method FreshService(digest: string -> HexDigest, salt: Salt) returns (service: SqlAuthService)
    ensures fresh(service)
    ensures service.Valid() && service.isOpen && service.digest == digest
    ensures service.users == map[1 := User("admin", salt, digest("admin" + salt), true)]
    ensures service.roles == map[] && service.members == map[]
    ensures service.CheckPassword("admin", "admin") && service.UserIsEnabled("admin")
  {
    service := new SqlAuthService(digest, Database(None, None, None));
    service.OpenSeedingAdmin(salt);
  }

  /** `open` as written never adds `admin` to a fresh database; the intended seeding does. */
  method OpenScenario(digest: string -> HexDigest, salt: Salt) returns (asWritten: bool, intended: bool)
    ensures !asWritten && intended
  {
    var literal := new SqlAuthService(digest, Database(None, None, None));
    literal.Open(salt);
    asWritten := literal.UserExists("admin");
    var seeding := FreshService(digest, salt);
    intended := seeding.Authenticate(map["username" := "admin", "password" := "admin"]) == Ok(Some("admin"));
  }

  /** A disabled user is not a valid user, yet `authenticate` accepts their password. */
  method DisabledUserScenario(digest: string -> HexDigest, salt: Salt) returns (valid: bool, login: Result<Option<string>, Error>)
    ensures !valid
    ensures login == Ok(Some("bob"))
  {
    var service := FreshService(digest, salt);
    var added := service.AddUser("bob", "secret", false, salt);
    valid := service.IsValidUser("bob");
    login := service.Authenticate(map["username" := "bob", "password" := "secret"]);
  }

  /** Granting a pair twice raises the unique-pair violation instead of returning `false`. */
  method GrantTwiceScenario(digest: string -> HexDigest, salt: Salt) returns (first: Result<bool, Error>, second: Result<bool, Error>)
    ensures first == Ok(true)
    ensures second == Err(IntegrityError)
  {
    var service := FreshService(digest, salt);
    var added := service.AddUser("alice", "secret", true, salt);
    var roleAdded := service.AddRole("admin", None);
    first := service.Grant("alice", "admin");
    second := service.Grant("alice", "admin");
  }

  /** `revoke` as written raises; as intended it removes the grant. */
  method RevokeScenario(digest: string -> HexDigest, salt: Salt) returns (asWritten: Result<bool, Error>, intended: bool, stillHeld: bool)
    ensures asWritten == Err(AttributeError)
    ensures intended && !stillHeld
  {
    var service := FreshService(digest, salt);
    var added := service.AddUser("alice", "secret", true, salt);
    var roleAdded := service.AddRole("admin", None);
    var granted := service.Grant("alice", "admin");
    asWritten := service.RevokeAsWritten("alice", "admin");
    intended := service.Revoke("alice", "admin");
    stillHeld := service.HasRole("alice", "admin");
  }

  /** `update_user_roles` as written raises; as intended it gives the user the existing roles named. */
  method UpdateRolesScenario(digest: string -> HexDigest, salt: Salt) returns (asWritten: Result<bool, Error>, intended: bool, roles: set<string>)
    ensures asWritten == Err(AttributeError)
    ensures intended
    ensures "editor" in roles && "auditor" !in roles
  {
    var service := FreshService(digest, salt);
    var added := service.AddUser("alice", "secret", true, salt);
    var roleAdded := service.AddRole("editor", Some("may edit"));
    asWritten := service.UpdateUserRolesAsWritten("alice", {"editor", "auditor"});
    intended := service.UpdateUserRoles("alice", {"editor", "auditor"});
    roles := service.UserRoles("alice");
  }

  /**
   * `alice` is added, granted `admin` and deleted again: her member row stays behind, still
   * pointing at her freed rowid 2.
   */
  method DeletedGrantee(digest: string -> HexDigest, salt: Salt) returns (service: SqlAuthService)
    ensures fresh(service)
    ensures service.Valid() && service.isOpen && service.digest == digest
    ensures service.users.Keys == {1} && service.users[1].name == "admin"
    ensures 1 in service.roles && service.roles[1].name == "admin"
    ensures 1 in service.members && service.members[1] == Member(2, 1)
  {
    service := FreshService(digest, salt);
    ghost var admin := User("admin", salt, digest("admin" + salt), true);
    assert service.users.Keys == {1};
    var added := service.AddUser("alice", "secret", true, salt);
    var roleAdded := service.AddRole("admin", None);
    assert service.users == map[1 := admin, 2 := User("alice", salt, digest("secret" + salt), true)];
    var granted := service.Grant("alice", "admin");
    assert service.members == map[1 := Member(2, 1)];
    assert service.UserRows("alice") == {2};
    var deleted := service.DeleteUser("alice");
    assert service.users.Keys == {1} && service.users[1] == admin;
  }

  /**
   * Deleting a user leaves their member rows; a user added next takes the freed rowid and
   * with it the deleted user's roles.
   */
  method OrphanScenario(digest: string -> HexDigest, salt: Salt) returns (inherited: bool)
    ensures inherited
  {
    var service := DeletedGrantee(digest, salt);
    ghost var before := service.users;
    assert !service.UserExists("mallory");
    var addedAgain := service.AddUser("mallory", "secret", true, salt);
    ghost var id :| IsNextRowId(before.Keys, id) && service.users == before[id := User("mallory", salt, digest("secret" + salt), true)];
    SecondRowId(before.Keys, id);
    assert service.users[2].name == "mallory";
    inherited := service.HasRole("mallory", "admin");
    assert service.Links(service.members[1], "mallory", "admin");
  }

  /** The key SQLite gives the row inserted after the first one. */
  lemma SecondRowId(ids: set<int>, id: int)
    requires ids == {1} && IsNextRowId(ids, id)
    ensures id == 2
  {
  }
}
