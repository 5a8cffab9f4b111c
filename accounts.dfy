/** Registration, login and sessions in src/db/crud.py: the `users`, `customers` and
    `sessions` tables as maps keyed by their primary keys. */
module Accounts {
  import opened Wrappers
  import opened Models

  type Users = map<int, User>
  type Customers = map<int, CustomerAccount>

  /** Sessions keyed by `(cid, sessionNo)`. */
  type Sessions = map<(int, int), Session>

  /** Rows stored under their own key, and every customer is also a user (`cid` is the
      `uid` of the user row `register_customer` inserts with it). */
  predicate KeyedRows(users: Users, customers: Customers, sessions: Sessions) {
    && (forall uid :: uid in users ==> users[uid].uid == uid)
    && (forall cid :: cid in customers ==> customers[cid].cid == cid && cid in users)
    && (forall k :: k in sessions ==> sessions[k].cid == k.0 && sessions[k].sessionNo == k.1)
  }

  /** `email_available`: no customer has registered the address. */
  predicate EmailFree(customers: Customers, email: string) {
    forall cid :: cid in customers ==> customers[cid].email != email
  }

  /** The ids `register_customer` may draw: in 1000..999999 and not yet a user. */
  predicate FreeUid(users: Users, uid: int) {
    1000 <= uid <= 999999 && uid !in users
  }

  /** `login`: the user whose id and password both match. */
  function LoginResult(users: Users, uid: int, pwd: string): (r: Option<User>)
    ensures r.Some? ==> uid in users && r.value == users[uid]
  {
    if uid in users && users[uid].pwd == pwd then Some(users[uid]) else None
  }

  /** `get_user`. */
  function UserOf(users: Users, uid: int): (r: Option<User>)
    ensures r.Some? <==> uid in users
  {
    if uid in users then Some(users[uid]) else None
  }

  /** `get_user_role`. */
  function RoleOf(users: Users, uid: int): (r: Option<Role>)
    ensures r.Some? <==> uid in users
  {
    if uid in users then Some(users[uid].role) else None
  }

  /** `get_customer`: the customer row joined to the user row on `cid = uid`. */
  function CustomerOf(users: Users, customers: Customers, uid: int): (r: Option<CustomerAccount>)
    ensures r.Some? <==> uid in users && uid in customers
  {
    if uid in users && uid in customers then Some(customers[uid]) else None
  }

  /** `register_customer`'s two inserts, with `cid = uid`. */
  function Registered(users: Users, customers: Customers, uid: int, name: string, email: string, pwd: string): (Users, Customers) {
    (users[uid := User(uid, pwd, Customer)], customers[uid := CustomerAccount(uid, name, email)])
  }

  /** `start_session`: a new open session. */
  function SessionStarted(sessions: Sessions, cid: int, sessionNo: int, start: Timestamp): Sessions {
    sessions[(cid, sessionNo) := Session(cid, sessionNo, start, Open)]
  }

  /** `end_session`: `UPDATE sessions SET end_time = ? WHERE cid = ? AND sessionNo = ?`,
      which changes nothing when there is no such session. */
  function SessionEnded(sessions: Sessions, cid: int, sessionNo: int, end: Timestamp): Sessions {
    if (cid, sessionNo) in sessions then sessions[(cid, sessionNo) := sessions[(cid, sessionNo)].(endTime := Ended(end))]
    else sessions
  }

  // ---------------------------------------------------------------------------
  // Properties
  // ---------------------------------------------------------------------------

  /** After registering, the new customer can log in with the password and no other, is
      a customer, can be read back, and their email is taken; no other account changes. */
  lemma RegisterThenLogin(users: Users, customers: Customers, uid: int, name: string, email: string, pwd: string, other: string)
    requires FreeUid(users, uid)
    requires other != pwd
    ensures var (users', customers') := Registered(users, customers, uid, name, email, pwd);
            && LoginResult(users', uid, pwd) == Some(User(uid, pwd, Customer))
            && LoginResult(users', uid, other) == None
            && RoleOf(users', uid) == Some(Customer)
            && CustomerOf(users', customers', uid) == Some(CustomerAccount(uid, name, email))
            && !EmailFree(customers', email)
            && (forall u :: u != uid ==> LoginResult(users', u, other) == LoginResult(users, u, other))
  {
    var (users', customers') := Registered(users, customers, uid, name, email, pwd);
    assert customers'[uid].email == email;
  }

  /** Registration keeps every row under its own key. */
  lemma RegisterKeepsKeys(users: Users, customers: Customers, sessions: Sessions, uid: int, name: string, email: string, pwd: string)
    requires KeyedRows(users, customers, sessions)
    ensures var (users', customers') := Registered(users, customers, uid, name, email, pwd);
            KeyedRows(users', customers', sessions)
  {
  }

  /** A fresh user id keys no customer row either, so registration adds a customer and
      never replaces one: the customer table grows by exactly the new row. */
  lemma FreshUidAddsCustomer(users: Users, customers: Customers, sessions: Sessions, uid: int, name: string, email: string, pwd: string)
    requires KeyedRows(users, customers, sessions)
    requires FreeUid(users, uid)
    ensures uid !in customers
    ensures var customers' := Registered(users, customers, uid, name, email, pwd).1;
            customers'.Keys == customers.Keys + {uid} && |customers'| == |customers| + 1
            && forall cid :: cid in customers ==> customers'[cid] == customers[cid]
  {
    var customers' := Registered(users, customers, uid, name, email, pwd).1;
    assert customers'.Keys == customers.Keys + {uid};
  }

  /** Login and the plain reader agree: login succeeds exactly when the user exists and the
      password is theirs. */
  lemma LoginIsUserWithPassword(users: Users, uid: int, pwd: string)
    ensures LoginResult(users, uid, pwd).Some? <==> UserOf(users, uid).Some? && UserOf(users, uid).value.pwd == pwd
    ensures LoginResult(users, uid, pwd).Some? ==> LoginResult(users, uid, pwd) == UserOf(users, uid)
  {
  }

  /** With rows stored under their keys, each reader hands back the row of the id it was
      asked for: `get_user` and `login` a user with that uid (and `login` one with that
      password), `get_customer` a customer whose cid is the uid and who is also a user. */
  lemma ReadersCarryKey(users: Users, customers: Customers, sessions: Sessions, uid: int, pwd: string)
    requires KeyedRows(users, customers, sessions)
    ensures UserOf(users, uid).Some? ==> UserOf(users, uid).value.uid == uid
    ensures LoginResult(users, uid, pwd).Some? ==>
              LoginResult(users, uid, pwd).value.uid == uid && LoginResult(users, uid, pwd).value.pwd == pwd
    ensures CustomerOf(users, customers, uid).Some? ==>
              CustomerOf(users, customers, uid).value.cid == uid && UserOf(users, uid).Some?
  {
  }

  /** `get_user_role` is the role of the row `get_user` returns, and `None` when it returns none. */
  lemma RoleIsUsersRole(users: Users, uid: int)
    ensures RoleOf(users, uid) == if UserOf(users, uid).Some? then Some(UserOf(users, uid).value.role) else None
  {
  }

  /** `email` belongs to customer `uid` and to no other. */
  predicate OnlyOwner(customers: Customers, email: string, uid: int) {
    forall cid :: cid in customers && customers[cid].email == email ==> cid == uid
  }

  /** Registering an address that is still available makes the new customer its only
      holder: the check `email_available` makes before registering keeps addresses unique. */
  lemma FreeEmailHasOneOwner(users: Users, customers: Customers, uid: int, name: string, email: string, pwd: string)
    requires EmailFree(customers, email)
    ensures OnlyOwner(Registered(users, customers, uid, name, email, pwd).1, email, uid)
  {
  }

  /** A started session is open; ending it records the end time and nothing else; ending a
      session that does not exist changes nothing. */
  lemma SessionLifecycle(sessions: Sessions, cid: int, sessionNo: int, start: Timestamp, end: Timestamp)
    ensures SessionStarted(sessions, cid, sessionNo, start)[(cid, sessionNo)].endTime == Open
    ensures SessionEnded(SessionStarted(sessions, cid, sessionNo, start), cid, sessionNo, end)[(cid, sessionNo)] ==
            Session(cid, sessionNo, start, Ended(end))
    ensures (cid, sessionNo) !in sessions ==> SessionEnded(sessions, cid, sessionNo, end) == sessions
  {
  }

  /** Ending a session leaves every other session as it was, and keeps rows under their keys. */
  lemma EndSessionTouchesOnlyItself(users: Users, customers: Customers, sessions: Sessions, cid: int, sessionNo: int, end: Timestamp, k: (int, int))
    requires KeyedRows(users, customers, sessions)
    requires k != (cid, sessionNo)
    ensures k in SessionEnded(sessions, cid, sessionNo, end) <==> k in sessions
    ensures k in sessions ==> SessionEnded(sessions, cid, sessionNo, end)[k] == sessions[k]
    ensures KeyedRows(users, customers, SessionEnded(sessions, cid, sessionNo, end))
  {
  }
}
