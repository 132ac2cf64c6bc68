/** The tracker's five SQL tables as values: rows by primary key, sub-selects that may be
    NULL, inserts that may break a constraint, and deletes that cascade. */
module Statements {
  import opened Bytes

  datatype User = User(login: bytes, password: bytes)

  datatype Network = Network(
    owner: nat, name: bytes, isPublic: bool, visible: bool, participable: bool, email: bytes, protocol: bytes)

  /** A row that belongs to a user in a network: a server, an invitation or a public key. */
  datatype Link<+D> = Link(user: nat, network: nat, data: D)

  datatype Endpoint = Endpoint(ip: bytes, port: int32, ttl: int32)

  datatype Tables = Tables(
    users: map<nat, User>,
    networks: map<nat, Network>,
    servers: map<nat, Link<Endpoint>>,
    invitations: map<nat, Link<()>>,
    keys: map<nat, Link<bytes>>)

  /** `next` stands for the serial sequences: every insert draws from it, even one that fails. */
  datatype Database = Database(t: Tables, next: nat)

  const EMPTY := Database(Tables(map[], map[], map[], map[], map[]), 0)

  // ---- Constraints -----------------------------------------------------------------------

  ghost predicate UniquePairs<D>(m: map<nat, Link<D>>) {
    forall i, j :: i in m && j in m && m[i].user == m[j].user && m[i].network == m[j].network ==> i == j
  }

  ghost predicate Resolves<D>(m: map<nat, Link<D>>, t: Tables) {
    forall i :: i in m ==> m[i].user in t.users && m[i].network in t.networks
  }

  /** Unique keys. */
  ghost predicate Unique(t: Tables) {
    && (forall i, j :: i in t.users && j in t.users && t.users[i].login == t.users[j].login ==> i == j)
    && (forall i, j :: i in t.networks && j in t.networks && t.networks[i].name == t.networks[j].name ==> i == j)
    && UniquePairs(t.servers) && UniquePairs(t.invitations) && UniquePairs(t.keys)
  }

  /** Not-null foreign keys. */
  ghost predicate References(t: Tables) {
    && (forall n :: n in t.networks ==> t.networks[n].owner in t.users)
    && Resolves(t.servers, t) && Resolves(t.invitations, t) && Resolves(t.keys, t)
  }

  /** Serial keys are drawn once. */
  ghost predicate Drawn(db: Database) {
    && (forall i :: i in db.t.users ==> i < db.next)
    && (forall i :: i in db.t.networks ==> i < db.next)
    && (forall i :: i in db.t.servers ==> i < db.next)
    && (forall i :: i in db.t.invitations ==> i < db.next)
    && (forall i :: i in db.t.keys ==> i < db.next)
  }

  ghost predicate Integrity(db: Database) {
    Unique(db.t) && References(db.t) && Drawn(db)
  }

  // ---- Sub-selects -----------------------------------------------------------------------

  /** `(SELECT id FROM users WHERE login=...)`: NULL when there is no such row. */
  ghost function UserId(t: Tables, login: bytes): (r: Option<nat>)
    ensures r.Some? ==> r.value in t.users && t.users[r.value].login == login
    ensures r.None? ==> forall i :: i in t.users ==> t.users[i].login != login
  {
    if i :| i in t.users && t.users[i].login == login then Some(i) else None
  }

  /** `(SELECT id FROM networks WHERE name=...)`. */
  ghost function NetworkId(t: Tables, name: bytes): (r: Option<nat>)
    ensures r.Some? ==> r.value in t.networks && t.networks[r.value].name == name
    ensures r.None? ==> forall i :: i in t.networks ==> t.networks[i].name != name
  {
    if i :| i in t.networks && t.networks[i].name == name then Some(i) else None
  }

  /** The row a `WHERE user_id=... AND network_id=...` selects; a NULL equals nothing. */
  ghost function LinkId<D>(m: map<nat, Link<D>>, u: Option<nat>, n: Option<nat>): (r: Option<nat>)
    ensures r.Some? ==> r.value in m && u == Some(m[r.value].user) && n == Some(m[r.value].network)
    ensures r.None? ==> forall i :: i in m ==> u != Some(m[i].user) || n != Some(m[i].network)
  {
    if i :| i in m && u == Some(m[i].user) && n == Some(m[i].network) then Some(i) else None
  }

  // ---- Cascading deletes -------------------------------------------------------------------

  function Owned(t: Tables, u: nat): (ns: set<nat>) {
    set n | n in t.networks && t.networks[n].owner == u
  }

  function WithoutNetworks<D>(m: map<nat, Link<D>>, gone: set<nat>): (r: map<nat, Link<D>>) {
    map i | i in m && m[i].network !in gone :: m[i]
  }

  function WithoutUser<D>(m: map<nat, Link<D>>, u: nat, gone: set<nat>): (r: map<nat, Link<D>>) {
    map i | i in m && m[i].user != u && m[i].network !in gone :: m[i]
  }

  function DropNetwork(t: Tables, n: nat): Tables {
    Tables(t.users, t.networks - {n},
      WithoutNetworks(t.servers, {n}), WithoutNetworks(t.invitations, {n}), WithoutNetworks(t.keys, {n}))
  }

  function DropUser(t: Tables, u: nat): Tables {
    var gone := Owned(t, u);
    Tables(t.users - {u}, t.networks - gone,
      WithoutUser(t.servers, u, gone), WithoutUser(t.invitations, u, gone), WithoutUser(t.keys, u, gone))
  }

  ghost predicate SubMap<D>(a: map<nat, D>, b: map<nat, D>) {
    forall k :: k in a ==> k in b && a[k] == b[k]
  }

  /** Every row of `a` is a row of `b`. */
  ghost predicate Within(a: Tables, b: Tables) {
    && SubMap(a.users, b.users) && SubMap(a.networks, b.networks)
    && SubMap(a.servers, b.servers) && SubMap(a.invitations, b.invitations) && SubMap(a.keys, b.keys)
  }

  /** Removing a user leaves no dangling reference... */
  lemma DropUserResolves(t: Tables, u: nat)
    requires References(t)
    ensures Within(DropUser(t, u), t) && References(DropUser(t, u)) && u !in DropUser(t, u).users
  {
  }

  /** ... and deletes no more than it must: whatever part of the tables has none either, and
      lacks the user, is still there. */
  lemma DropUserIsGreatest(t: Tables, u: nat, other: Tables)
    requires Within(other, t) && References(other) && u !in other.users
    ensures Within(other, DropUser(t, u))
  {
  }

  lemma DropNetworkIsExact(t: Tables, n: nat, other: Tables)
    requires References(t)
    ensures Within(DropNetwork(t, n), t) && References(DropNetwork(t, n)) && n !in DropNetwork(t, n).networks
    ensures Within(other, t) && References(other) && n !in other.networks ==> Within(other, DropNetwork(t, n))
  {
  }

  lemma WithinKeepsIntegrity(db: Database, t: Tables)
    requires Integrity(db) && Within(t, db.t) && References(t)
    ensures Integrity(db.(t := t))
  {
  }

  // ---- Statements ------------------------------------------------------------------------

  /** `DB_Response`. */
  datatype Response = Done | InternalError | NotUnique | NotFound | NotPermitted

  /** How an insert into a table of links ends. */
  datatype Insertion<+D> = NullViolation | UniqueViolation | Inserted(m: map<nat, Link<D>>)

  ghost function InsertLink<D>(m: map<nat, Link<D>>, id: nat, u: Option<nat>, n: Option<nat>, d: D): Insertion<D> {
    if u.None? || n.None? then NullViolation
    else if LinkId(m, u, n).Some? then UniqueViolation
    else Inserted(m[id := Link(u.value, n.value, d)])
  }

  function Drawing(db: Database): Database { db.(next := db.next + 1) }

  /** Column widths: a longer value is an error of the statement. */
  predicate UserFits(login: bytes, password: bytes) { |login| <= 30 && |password| <= 70 }

  predicate NetworkFits(n: Network) { |n.name| <= 30 && |n.email| <= 40 && |n.protocol| <= 40 }

  predicate EndpointFits(e: Endpoint) { |e.ip| <= 20 }

  /** In each statement `fault` says that the connection fails while it runs: the transaction
      is then not committed. */
  ghost function CreateUser(db: Database, login: bytes, password: bytes, fault: bool): (Database, Response) {
    if fault || !UserFits(login, password) then (db, InternalError)
    else if UserId(db.t, login).Some? then (Drawing(db), NotUnique)
    else (Drawing(db).(t := db.t.(users := db.t.users[db.next := User(login, password)])), Done)
  }

  ghost function RemoveUser(db: Database, login: bytes, fault: bool): (Database, Response) {
    if fault then (db, InternalError)
    else match UserId(db.t, login)
      case None => (db, Done)
      case Some(u) => (db.(t := DropUser(db.t, u)), Done)
  }

  ghost function ChangePassword(db: Database, login: bytes, password: bytes, fault: bool): (Database, Response) {
    if fault then (db, InternalError)
    else match UserId(db.t, login)
      case None => (db, Done)
      case Some(u) =>
        if |password| > 70 then (db, InternalError)
        else (db.(t := db.t.(users := db.t.users[u := User(login, password)])), Done)
  }

  ghost function PassHash(db: Database, login: bytes, fault: bool): bytes {
    match UserId(db.t, login)
    case Some(u) => if fault then [] else db.t.users[u].password
    case None => []
  }

  ghost function UserInfo(db: Database, login: bytes, name: bytes, fault: bool): bytes {
    match LinkId(db.t.keys, UserId(db.t, login), NetworkId(db.t, name))
    case Some(k) => if fault then [] else db.t.keys[k].data
    case None => []
  }

  ghost function AddKey(db: Database, login: bytes, name: bytes, key: bytes, fault: bool): (Database, Response) {
    if fault then (db, InternalError)
    else match InsertLink(db.t.keys, db.next, UserId(db.t, login), NetworkId(db.t, name), key)
      case NullViolation => (Drawing(db), InternalError)
      case UniqueViolation => (Drawing(db), NotFound)
      case Inserted(m) => (Drawing(db).(t := db.t.(keys := m)), Done)
  }

  ghost function CreateInvitation(db: Database, login: bytes, name: bytes, fault: bool): (Database, Response) {
    if fault then (db, InternalError)
    else match InsertLink(db.t.invitations, db.next, UserId(db.t, login), NetworkId(db.t, name), ())
      case NullViolation => (Drawing(db), InternalError)
      case UniqueViolation => (Drawing(db), NotUnique)
      case Inserted(m) => (Drawing(db).(t := db.t.(invitations := m)), Done)
  }

  /** `row.owner` is filled in by the sub-select on the owner's login. */
  ghost function CreateNetwork(db: Database, login: bytes, row: Network, fault: bool): (Database, Response) {
    if fault || !NetworkFits(row) then (db, InternalError)
    else match UserId(db.t, login)
      case None => (Drawing(db), InternalError)
      case Some(u) =>
        if NetworkId(db.t, row.name).Some? then (Drawing(db), NotUnique)
        else (Drawing(db).(t := db.t.(networks := db.t.networks[db.next := row.(owner := u)])), Done)
  }

  ghost function DeleteNetwork(db: Database, login: bytes, name: bytes, fault: bool): (Database, Response) {
    if fault then (db, InternalError)
    else match NetworkId(db.t, name)
      case None => (db, NotPermitted)
      case Some(n) =>
        if UserId(db.t, login) == Some(db.t.networks[n].owner)
        then (db.(t := DropNetwork(db.t, n)), Done) else (db, NotPermitted)
  }

  ghost predicate UserExists(db: Database, login: bytes, fault: bool) {
    !fault && UserId(db.t, login).Some?
  }

  ghost predicate NetworkExists(db: Database, name: bytes, fault: bool) {
    !fault && NetworkId(db.t, name).Some?
  }

  /** `... WHERE name=... AND (flag=true OR owner_id=(SELECT ...))`. */
  ghost predicate CanSeeNetwork(db: Database, name: bytes, login: bytes, fault: bool) {
    !fault && match NetworkId(db.t, name)
      case None => false
      case Some(n) => db.t.networks[n].isPublic || UserId(db.t, login) == Some(db.t.networks[n].owner)
  }

  ghost predicate CanAddServer(db: Database, login: bytes, name: bytes, fault: bool) {
    !fault && match NetworkId(db.t, name)
      case None => false
      case Some(n) => db.t.networks[n].participable || UserId(db.t, login) == Some(db.t.networks[n].owner)
  }

  /** The update runs in a transaction that is dropped when it affects a row; only the insert
      that follows an update of nothing is committed. */
  ghost function UpdateServer(db: Database, name: bytes, login: bytes, e: Endpoint, fault: bool, fault2: bool): (Database, Response) {
    var u, n := UserId(db.t, login), NetworkId(db.t, name);
    if fault then (db, InternalError)
    else if LinkId(db.t.servers, u, n).Some? then (db, if EndpointFits(e) then Done else InternalError)
    else if fault2 || !EndpointFits(e) then (db, InternalError)
    else match InsertLink(db.t.servers, db.next, u, n, e)
      case NullViolation => (Drawing(db), InternalError)
      case UniqueViolation => (Drawing(db), NotFound)
      case Inserted(m) => (Drawing(db).(t := db.t.(servers := m)), Done)
  }

  /** The row count of a DELETE's result is always zero, hence the status. */
  ghost function DeleteServer(db: Database, name: bytes, login: bytes, fault: bool): (Database, Response) {
    if fault then (db, InternalError)
    else match LinkId(db.t.servers, UserId(db.t, login), NetworkId(db.t, name))
      case None => (db, NotFound)
      case Some(s) => (db.(t := db.t.(servers := db.t.servers - {s})), NotFound)
  }

  function Unexpired(servers: map<nat, Link<Endpoint>>, start: int): map<nat, Link<Endpoint>> {
    map s | s in servers && servers[s].data.ttl >= start :: servers[s]
  }

  /** `clean(T)`, run at time `now`. */
  function CleanServers(db: Database, now: int, ttl: int, fault: bool): Database {
    if fault then db
    else db.(t := db.t.(servers := Unexpired(db.t.servers, now - ttl)))
  }

  // ---- Lists ------------------------------------------------------------------------------

  /** `ProtoNetwork`. Its `publicity` is never set by the queries. */
  datatype NetworkInfo = NetworkInfo(
    name: bytes, owner: bytes, email: bytes, publicity: bool, visible: bool, participable: bool, protocol: bytes)

  /** `ProtoServer`. Its user login is never set by the query. */
  datatype ServerInfo = ServerInfo(network: bytes, ip: bytes, port: int32)

  function Info(t: Tables, n: nat, publicity: nat -> bool): NetworkInfo
    requires References(t) && n in t.networks
  {
    var row := t.networks[n];
    NetworkInfo(row.name, t.users[row.owner].login, row.email, publicity(n), row.visible, row.participable, row.protocol)
  }

  /** `WHERE visible=true OR login=$1 OR n.id IN (SELECT network_id FROM invitations ...)`. */
  ghost predicate Listed(t: Tables, n: nat, login: bytes)
    requires References(t)
  {
    && n in t.networks
    && (|| t.networks[n].visible
        || t.users[t.networks[n].owner].login == login
        || LinkId(t.invitations, UserId(t, login), Some(n)).Some?)
  }

  ghost predicate Owns(t: Tables, n: nat, login: bytes)
    requires References(t)
  {
    n in t.networks && t.users[t.networks[n].owner].login == login
  }

  /** The listed networks with keys below `bound`, in the order of their keys. */
  ghost function AllNetworks(t: Tables, login: bytes, publicity: nat -> bool, bound: nat): seq<NetworkInfo>
    requires References(t)
  {
    if bound == 0 then []
    else AllNetworks(t, login, publicity, bound - 1) +
         if Listed(t, bound - 1, login) then [Info(t, bound - 1, publicity)] else []
  }

  ghost function UserNetworks(t: Tables, login: bytes, publicity: nat -> bool, bound: nat): seq<NetworkInfo>
    requires References(t)
  {
    if bound == 0 then []
    else UserNetworks(t, login, publicity, bound - 1) +
         if Owns(t, bound - 1, login) then [Info(t, bound - 1, publicity)] else []
  }

  ghost function ServersOf(t: Tables, name: bytes, bound: nat): seq<ServerInfo> {
    if bound == 0 then []
    else ServersOf(t, name, bound - 1) +
         if bound - 1 in t.servers && NetworkId(t, name) == Some(t.servers[bound - 1].network)
         then [ServerInfo(name, t.servers[bound - 1].data.ip, t.servers[bound - 1].data.port)] else []
  }

  ghost predicate Shows(t: Tables, login: bytes, publicity: nat -> bool, bound: nat, x: NetworkInfo)
    requires References(t)
  {
    exists n: nat :: n < bound && Listed(t, n, login) && x == Info(t, n, publicity)
  }

  /** A user is shown exactly the networks that are visible, its own, or those it is invited
      to, each once. */
  lemma {:induction false} AllNetworksExact(db: Database, login: bytes, publicity: nat -> bool, bound: nat)
    requires Integrity(db)
    ensures var l := AllNetworks(db.t, login, publicity, bound);
      && (forall x :: x in l <==> Shows(db.t, login, publicity, bound, x))
      && (forall i, j :: 0 <= i < j < |l| ==> l[i].name != l[j].name)
  {
    if bound > 0 {
      var last: nat := bound - 1;
      AllNetworksExact(db, login, publicity, last);
      var front, l := AllNetworks(db.t, login, publicity, last), AllNetworks(db.t, login, publicity, bound);
      forall x ensures x in l <==> Shows(db.t, login, publicity, bound, x) {
        if Shows(db.t, login, publicity, last, x) {
          var n: nat :| n < last && Listed(db.t, n, login) && x == Info(db.t, n, publicity);
        }
      }
      if Listed(db.t, last, login) {
        assert l == front + [Info(db.t, last, publicity)];
        forall i | 0 <= i < |front| ensures front[i].name != l[|front|].name {
          assert front[i] in front;
        }
      }
    }
  }

  ghost predicate ShowsOwn(t: Tables, login: bytes, publicity: nat -> bool, bound: nat, x: NetworkInfo)
    requires References(t)
  {
    exists n: nat :: n < bound && Owns(t, n, login) && x == Info(t, n, publicity)
  }

  /** The user's own list has exactly the networks it owns, each once. */
  lemma {:induction false} UserNetworksExact(db: Database, login: bytes, publicity: nat -> bool, bound: nat)
    requires Integrity(db)
    ensures var l := UserNetworks(db.t, login, publicity, bound);
      && (forall x :: x in l <==> ShowsOwn(db.t, login, publicity, bound, x))
      && (forall i, j :: 0 <= i < j < |l| ==> l[i].name != l[j].name)
  {
    if bound > 0 {
      var last: nat := bound - 1;
      UserNetworksExact(db, login, publicity, last);
      var front, l := UserNetworks(db.t, login, publicity, last), UserNetworks(db.t, login, publicity, bound);
      forall x ensures x in l <==> ShowsOwn(db.t, login, publicity, bound, x) {
        if ShowsOwn(db.t, login, publicity, last, x) {
          var n: nat :| n < last && Owns(db.t, n, login) && x == Info(db.t, n, publicity);
        }
      }
      if Owns(db.t, last, login) {
        assert l == front + [Info(db.t, last, publicity)];
        forall i | 0 <= i < |front| ensures front[i].name != l[|front|].name {
          assert front[i] in front;
        }
      }
    }
  }

  ghost predicate Serves(t: Tables, name: bytes, bound: nat, x: ServerInfo) {
    exists s: nat :: s < bound && s in t.servers && NetworkId(t, name) == Some(t.servers[s].network)
      && x == ServerInfo(name, t.servers[s].data.ip, t.servers[s].data.port)
  }

  /** A network's list has exactly its servers. */
  lemma {:induction false} ServersExact(t: Tables, name: bytes, bound: nat)
    ensures forall x :: x in ServersOf(t, name, bound) <==> Serves(t, name, bound, x)
  {
    hide NetworkId;
    if bound > 0 {
      var last: nat := bound - 1;
      ServersExact(t, name, last);
      forall x ensures x in ServersOf(t, name, bound) <==> Serves(t, name, bound, x) {
        if Serves(t, name, last, x) {
          var s: nat :| s < last && s in t.servers && NetworkId(t, name) == Some(t.servers[s].network)
            && x == ServerInfo(name, t.servers[s].data.ip, t.servers[s].data.port);
        }
      }
    }
  }

  // ---- What every statement keeps ----------------------------------------------------------

  lemma InsertLinkKeeps<D>(db: Database, m: map<nat, Link<D>>, u: Option<nat>, n: Option<nat>, d: D)
    requires UniquePairs(m) && Resolves(m, db.t) && forall i :: i in m ==> i < db.next
    requires u.Some? ==> u.value in db.t.users
    requires n.Some? ==> n.value in db.t.networks
    ensures InsertLink(m, db.next, u, n, d).Inserted? ==>
      var r := InsertLink(m, db.next, u, n, d).m;
      UniquePairs(r) && Resolves(r, db.t) && forall i :: i in r ==> i <= db.next
  {
  }

  lemma LinksReplaced(db: Database, ss: map<nat, Link<Endpoint>>, vs: map<nat, Link<()>>, ks: map<nat, Link<bytes>>)
    requires Integrity(db)
    requires UniquePairs(ss) && Resolves(ss, db.t) && forall i :: i in ss ==> i <= db.next
    requires UniquePairs(vs) && Resolves(vs, db.t) && forall i :: i in vs ==> i <= db.next
    requires UniquePairs(ks) && Resolves(ks, db.t) && forall i :: i in ks ==> i <= db.next
    ensures Integrity(Drawing(db).(t := db.t.(servers := ss, invitations := vs, keys := ks)))
  {
  }

  lemma AddKeyKeepsIntegrity(db: Database, login: bytes, name: bytes, key: bytes, fault: bool)
    requires Integrity(db)
    ensures Integrity(AddKey(db, login, name, key, fault).0)
  {
    var t, u, n := db.t, UserId(db.t, login), NetworkId(db.t, name);
    InsertLinkKeeps(db, t.keys, u, n, key);
    var r := InsertLink(t.keys, db.next, u, n, key);
    LinksReplaced(db, t.servers, t.invitations, if r.Inserted? then r.m else t.keys);
    hide Integrity, UniquePairs, Resolves, InsertLink, UserId, NetworkId;
  }

  lemma CreateInvitationKeepsIntegrity(db: Database, login: bytes, name: bytes, fault: bool)
    requires Integrity(db)
    ensures Integrity(CreateInvitation(db, login, name, fault).0)
  {
    var t, u, n := db.t, UserId(db.t, login), NetworkId(db.t, name);
    InsertLinkKeeps(db, t.invitations, u, n, ());
    var r := InsertLink(t.invitations, db.next, u, n, ());
    LinksReplaced(db, t.servers, if r.Inserted? then r.m else t.invitations, t.keys);
    hide Integrity, UniquePairs, Resolves, InsertLink, UserId, NetworkId;
  }

  lemma UserStatementsKeepIntegrity(db: Database, login: bytes, password: bytes, fault: bool)
    requires Integrity(db)
    ensures Integrity(CreateUser(db, login, password, fault).0)
    ensures Integrity(ChangePassword(db, login, password, fault).0)
  {
    hide Integrity, UserId;
    IdDrawn(db);
    if UserId(db.t, login).None? {
      UserAdded(db, login, password);
    } else {
      UserRenewed(db, UserId(db.t, login).value, password);
    }
  }

  lemma IdDrawn(db: Database)
    requires Integrity(db)
    ensures Integrity(Drawing(db))
  {
    hide UniquePairs, Resolves;
  }

  lemma UsersReplaced(db: Database, users: map<nat, User>)
    requires Integrity(db) && db.t.users.Keys <= users.Keys
    requires forall i, j :: i in users && j in users && users[i].login == users[j].login ==> i == j
    ensures Unique(db.t.(users := users)) && References(db.t.(users := users))
  {
    hide UniquePairs, Resolves;
    HaveUsers(db.t.servers, db.t, users);
    HaveUsers(db.t.invitations, db.t, users);
    HaveUsers(db.t.keys, db.t, users);
  }

  lemma HaveUsers<D>(m: map<nat, Link<D>>, t: Tables, users: map<nat, User>)
    requires Resolves(m, t) && t.users.Keys <= users.Keys
    ensures Resolves(m, t.(users := users))
  {
  }

  lemma UserAdded(db: Database, login: bytes, password: bytes)
    requires Integrity(db) && UserId(db.t, login).None?
    ensures Integrity(Drawing(db).(t := db.t.(users := db.t.users[db.next := User(login, password)])))
  {
    hide UserId, References, UniquePairs, Resolves;
    UsersReplaced(db, db.t.users[db.next := User(login, password)]);
  }

  lemma UserRenewed(db: Database, u: nat, password: bytes)
    requires Integrity(db) && u in db.t.users
    ensures Integrity(db.(t := db.t.(users := db.t.users[u := User(db.t.users[u].login, password)])))
  {
    hide References, UniquePairs, Resolves;
    UsersReplaced(db, db.t.users[u := User(db.t.users[u].login, password)]);
  }

  lemma RemoveUserKeepsIntegrity(db: Database, login: bytes, fault: bool)
    requires Integrity(db)
    ensures Integrity(RemoveUser(db, login, fault).0)
  {
    if UserId(db.t, login).Some? {
      var u := UserId(db.t, login).value;
      hide Integrity, References, DropUser, Within;
      IntegrityParts(db);
      DropUserResolves(db.t, u);
      WithinKeepsIntegrity(db, DropUser(db.t, u));
    }
  }

  lemma NetworkAdded(db: Database, row: Network)
    requires Integrity(db) && row.owner in db.t.users && NetworkId(db.t, row.name).None?
    ensures Integrity(Drawing(db).(t := db.t.(networks := db.t.networks[db.next := row])))
  {
    hide NetworkId, UniquePairs, Resolves;
    var networks := db.t.networks[db.next := row];
    StillResolves(db.t.servers, db.t, networks);
    StillResolves(db.t.invitations, db.t, networks);
    StillResolves(db.t.keys, db.t, networks);
  }

  lemma StillResolves<D>(m: map<nat, Link<D>>, t: Tables, networks: map<nat, Network>)
    requires Resolves(m, t) && t.networks.Keys <= networks.Keys
    ensures Resolves(m, t.(networks := networks))
  {
  }

  lemma CreateNetworkKeepsIntegrity(db: Database, login: bytes, row: Network, fault: bool)
    requires Integrity(db)
    ensures Integrity(CreateNetwork(db, login, row, fault).0)
  {
    LinksReplaced(db, db.t.servers, db.t.invitations, db.t.keys);
    var u := UserId(db.t, login);
    if u.Some? && NetworkId(db.t, row.name).None? { NetworkAdded(db, row.(owner := u.value)); }
    hide Integrity, UserId, NetworkId;
  }

  lemma DeleteNetworkKeepsIntegrity(db: Database, login: bytes, name: bytes, fault: bool)
    requires Integrity(db)
    ensures Integrity(DeleteNetwork(db, login, name, fault).0)
  {
    if NetworkId(db.t, name).Some? {
      var n := NetworkId(db.t, name).value;
      hide Integrity, References, Unique, Drawn, DropNetwork, Within;
      assert References(db.t) by { IntegrityParts(db); }
      DropNetworkIsExact(db.t, n, db.t);
      WithinKeepsIntegrity(db, DropNetwork(db.t, n));
    }
  }

  lemma IntegrityParts(db: Database)
    requires Integrity(db)
    ensures Unique(db.t) && References(db.t) && Drawn(db)
  {
  }

  lemma UpdateServerKeepsIntegrity(db: Database, name: bytes, login: bytes, e: Endpoint, fault: bool, fault2: bool)
    requires Integrity(db)
    ensures Integrity(UpdateServer(db, name, login, e, fault, fault2).0)
  {
    var t, u, n := db.t, UserId(db.t, login), NetworkId(db.t, name);
    InsertLinkKeeps(db, t.servers, u, n, e);
    var r := InsertLink(t.servers, db.next, u, n, e);
    LinksReplaced(db, if r.Inserted? then r.m else t.servers, t.invitations, t.keys);
    hide Integrity, UniquePairs, Resolves, InsertLink, UserId, NetworkId, LinkId;
  }

  lemma DeleteServerKeepsIntegrity(db: Database, name: bytes, login: bytes, fault: bool)
    requires Integrity(db)
    ensures Integrity(DeleteServer(db, name, login, fault).0)
  {
    WithinKeepsIntegrity(db, DeleteServer(db, name, login, fault).0.t);
  }

  lemma CleanServersKeepsIntegrity(db: Database, now: int, ttl: int, fault: bool)
    requires Integrity(db)
    ensures Integrity(CleanServers(db, now, ttl, fault))
  {
    WithinKeepsIntegrity(db, CleanServers(db, now, ttl, fault).t);
  }
}
