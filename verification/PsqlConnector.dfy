/** `PsqlConnector`: every statement as a transaction on the stored tables. */
module PsqlConnectors {
  import opened Bytes
  import opened Statements

  class PsqlConnector {
    var db: Database

    ghost predicate Valid()
      reads this
    {
      Integrity(db)
    }

    constructor ()
      ensures Valid() && db == EMPTY
    {
      db := EMPTY;
    }

    // ---- Sub-selects -------------------------------------------------------------------

    method FindUser(login: bytes) returns (id: Option<nat>)
      requires Valid()
      ensures id == UserId(db.t, login)
    {
      for i: nat := 0 to db.next
        invariant forall k :: k in db.t.users && k < i ==> db.t.users[k].login != login
      {
        if i in db.t.users && db.t.users[i].login == login { return Some(i); }
      }
      id := None;
    }

    method FindNetwork(name: bytes) returns (id: Option<nat>)
      requires Valid()
      ensures id == NetworkId(db.t, name)
    {
      for i: nat := 0 to db.next
        invariant forall k :: k in db.t.networks && k < i ==> db.t.networks[k].name != name
      {
        if i in db.t.networks && db.t.networks[i].name == name { return Some(i); }
      }
      id := None;
    }

    static method FindLink<D>(m: map<nat, Link<D>>, bound: nat, u: Option<nat>, n: Option<nat>) returns (id: Option<nat>)
      requires UniquePairs(m) && forall i :: i in m ==> i < bound
      ensures id == LinkId(m, u, n)
    {
      for i: nat := 0 to bound
        invariant forall k :: k in m && k < i ==> u != Some(m[k].user) || n != Some(m[k].network)
      {
        if i in m && u == Some(m[i].user) && n == Some(m[i].network) { return Some(i); }
      }
      id := None;
    }

    // ---- Users -------------------------------------------------------------------------

    method CreateUser(login: bytes, password: bytes, fault: bool) returns (r: Response)
      requires Valid()
      modifies this
      ensures Valid() && (db, r) == Statements.CreateUser(old(db), login, password, fault)
    {
      UserStatementsKeepIntegrity(db, login, password, fault);
      if fault || !UserFits(login, password) { return InternalError; }
      var clash := FindUser(login);
      var id := db.next;
      db := db.(next := id + 1);
      if clash.Some? { return NotUnique; }
      db := db.(t := db.t.(users := db.t.users[id := User(login, password)]));
      return Done;
    }

    static lemma CascadeParts<D>(m: map<nat, Link<D>>, gone: set<nat>, n: nat, u: nat)
      ensures WithoutNetworks(WithoutNetworks(m, gone), {n}) == WithoutNetworks(m, gone + {n})
      ensures OfOthers(WithoutNetworks(m, gone), u) == WithoutUser(m, u, gone)
      ensures WithoutNetworks(m, {}) == m
    {
    }

    static lemma CascadeStep(t: Tables, gone: set<nat>, n: nat, u: nat)
      ensures DropNetwork(Dropped(t, gone), n) == Dropped(t, gone + {n})
      ensures Dropped(t, {}) == t
      ensures OthersOnly(Dropped(t, Owned(t, u)), u) == DropUser(t, u)
    {
      CascadeParts(t.servers, gone, n, u);
      CascadeParts(t.invitations, gone, n, u);
      CascadeParts(t.keys, gone, n, u);
      CascadeParts(t.servers, Owned(t, u), n, u);
      CascadeParts(t.invitations, Owned(t, u), n, u);
      CascadeParts(t.keys, Owned(t, u), n, u);
      assert t.networks - gone - {n} == t.networks - (gone + {n});
      assert t.networks - {} == t.networks;
      hide WithoutNetworks, WithoutUser, OfOthers, Owned;
    }

    static function Dropped(t: Tables, gone: set<nat>): Tables {
      Tables(t.users, t.networks - gone, WithoutNetworks(t.servers, gone),
             WithoutNetworks(t.invitations, gone), WithoutNetworks(t.keys, gone))
    }

    static function OthersOnly(t: Tables, u: nat): Tables {
      Tables(t.users - {u}, t.networks, OfOthers(t.servers, u), OfOthers(t.invitations, u), OfOthers(t.keys, u))
    }

    /** `ON DELETE CASCADE` below one user: first what hangs on its networks, network by
        network, then what hangs on the user itself. */
    static method CascadeUser(t: Tables, u: nat, bound: nat) returns (r: Tables)
      requires forall n :: n in t.networks ==> n < bound
      ensures r == DropUser(t, u)
    {
      hide DropNetwork, DropUser, WithoutNetworks;
      r := t;
      ghost var gone: set<nat> := {};
      CascadeStep(t, gone, 0, u);
      for n: nat := 0 to bound
        invariant gone == set k | k in t.networks && k < n && t.networks[k].owner == u
        invariant r == Dropped(t, gone)
      {
        if n in r.networks && r.networks[n].owner == u {
          CascadeStep(t, gone, n, u);
          r := DropNetwork(r, n);
          gone := gone + {n};
        }
      }
      assert gone == Owned(t, u);
      CascadeStep(t, gone, 0, u);
      r := OthersOnly(r, u);
    }

    static function OfOthers<D>(m: map<nat, Link<D>>, u: nat): map<nat, Link<D>> {
      map i | i in m && m[i].user != u :: m[i]
    }

    method RemoveUser(login: bytes, fault: bool) returns (r: Response)
      requires Valid()
      modifies this
      ensures Valid() && (db, r) == Statements.RemoveUser(old(db), login, fault)
    {
      RemoveUserKeepsIntegrity(db, login, fault);
      if fault { return InternalError; }
      var id := FindUser(login);
      if id.Some? {
        var t := CascadeUser(db.t, id.value, db.next);
        db := db.(t := t);
      }
      return Done;
    }

    method ChangePassword(login: bytes, password: bytes, fault: bool) returns (r: Response)
      requires Valid()
      modifies this
      ensures Valid() && (db, r) == Statements.ChangePassword(old(db), login, password, fault)
    {
      UserStatementsKeepIntegrity(db, login, password, fault);
      if fault { return InternalError; }
      var id := FindUser(login);
      if id.None? { return Done; }
      if |password| > 70 { return InternalError; }
      db := db.(t := db.t.(users := db.t.users[id.value := db.t.users[id.value].(password := password)]));
      return Done;
    }

    method UserExists(login: bytes, fault: bool) returns (yes: bool)
      requires Valid()
      ensures yes == Statements.UserExists(db, login, fault)
    {
      var id := FindUser(login);
      yes := !fault && id.Some?;
    }

    method GetPassHash(login: bytes, fault: bool) returns (hash: bytes)
      requires Valid()
      ensures hash == PassHash(db, login, fault)
    {
      if fault { return []; }
      var id := FindUser(login);
      hash := if id.None? then [] else db.t.users[id.value].password;
    }

    method GetUserInfo(login: bytes, name: bytes, fault: bool) returns (key: bytes)
      requires Valid()
      ensures key == UserInfo(db, login, name, fault)
    {
      if fault { return []; }
      var u := FindUser(login);
      var n := FindNetwork(name);
      var k := FindLink(db.t.keys, db.next, u, n);
      key := if k.None? then [] else db.t.keys[k.value].data;
    }

    // ---- Networks ------------------------------------------------------------------------

    method CreateNetwork(login: bytes, row: Network, fault: bool) returns (r: Response)
      requires Valid()
      modifies this
      ensures Valid() && (db, r) == Statements.CreateNetwork(old(db), login, row, fault)
    {
      CreateNetworkKeepsIntegrity(db, login, row, fault);
      if fault || !NetworkFits(row) { return InternalError; }
      var owner := FindUser(login);
      var clash := FindNetwork(row.name);
      var id := db.next;
      db := db.(next := id + 1);
      if owner.None? { return InternalError; }
      if clash.Some? { return NotUnique; }
      db := db.(t := db.t.(networks := db.t.networks[id := row.(owner := owner.value)]));
      return Done;
    }

    method DeleteNetwork(login: bytes, name: bytes, fault: bool) returns (r: Response)
      requires Valid()
      modifies this
      ensures Valid() && (db, r) == Statements.DeleteNetwork(old(db), login, name, fault)
    {
      DeleteNetworkKeepsIntegrity(db, login, name, fault);
      if fault { return InternalError; }
      var n := FindNetwork(name);
      var u := FindUser(login);
      if n.None? || u != Some(db.t.networks[n.value].owner) { return NotPermitted; }
      db := db.(t := DropNetwork(db.t, n.value));
      return Done;
    }

    method NetworkExists(name: bytes, fault: bool) returns (yes: bool)
      requires Valid()
      ensures yes == Statements.NetworkExists(db, name, fault)
    {
      var id := FindNetwork(name);
      yes := !fault && id.Some?;
    }

    method CanSeeNetwork(name: bytes, login: bytes, fault: bool) returns (yes: bool)
      requires Valid()
      ensures yes == Statements.CanSeeNetwork(db, name, login, fault)
    {
      var n := FindNetwork(name);
      var u := FindUser(login);
      yes := !fault && n.Some? && (db.t.networks[n.value].isPublic || u == Some(db.t.networks[n.value].owner));
    }

    method CanAddServer(login: bytes, name: bytes, fault: bool) returns (yes: bool)
      requires Valid()
      ensures yes == Statements.CanAddServer(db, login, name, fault)
    {
      var n := FindNetwork(name);
      var u := FindUser(login);
      yes := !fault && n.Some? && (db.t.networks[n.value].participable || u == Some(db.t.networks[n.value].owner));
    }

    method GetAllNetworks(login: bytes, publicity: nat -> bool, fault: bool) returns (l: seq<NetworkInfo>)
      requires Valid()
      ensures l == if fault then [] else AllNetworks(db.t, login, publicity, db.next)
    {
      l := [];
      if fault { return; }
      var u := FindUser(login);
      for i: nat := 0 to db.next
        invariant l == AllNetworks(db.t, login, publicity, i)
      {
        if i in db.t.networks {
          var row := db.t.networks[i];
          var invited := FindLink(db.t.invitations, db.next, u, Some(i));
          if row.visible || db.t.users[row.owner].login == login || invited.Some? {
            l := l + [Info(db.t, i, publicity)];
          }
        }
      }
    }

    method GetUserNetworks(login: bytes, publicity: nat -> bool, fault: bool) returns (l: seq<NetworkInfo>)
      requires Valid()
      ensures l == if fault then [] else UserNetworks(db.t, login, publicity, db.next)
    {
      l := [];
      if fault { return; }
      for i: nat := 0 to db.next
        invariant l == UserNetworks(db.t, login, publicity, i)
      {
        if i in db.t.networks && db.t.users[db.t.networks[i].owner].login == login {
          l := l + [Info(db.t, i, publicity)];
        }
      }
    }

    // ---- Invitations and keys ------------------------------------------------------------

    method AddKey(login: bytes, name: bytes, key: bytes, fault: bool) returns (r: Response)
      requires Valid()
      modifies this
      ensures Valid() && (db, r) == Statements.AddKey(old(db), login, name, key, fault)
    {
      AddKeyKeepsIntegrity(db, login, name, key, fault);
      if fault { return InternalError; }
      var u := FindUser(login);
      var n := FindNetwork(name);
      var clash := FindLink(db.t.keys, db.next, u, n);
      var id := db.next;
      db := db.(next := id + 1);
      if u.None? || n.None? { return InternalError; }
      if clash.Some? { return NotFound; }
      db := db.(t := db.t.(keys := db.t.keys[id := Link(u.value, n.value, key)]));
      return Done;
    }

    method CreateInvitation(login: bytes, name: bytes, fault: bool) returns (r: Response)
      requires Valid()
      modifies this
      ensures Valid() && (db, r) == Statements.CreateInvitation(old(db), login, name, fault)
    {
      CreateInvitationKeepsIntegrity(db, login, name, fault);
      if fault { return InternalError; }
      var u := FindUser(login);
      var n := FindNetwork(name);
      var clash := FindLink(db.t.invitations, db.next, u, n);
      var id := db.next;
      db := db.(next := id + 1);
      if u.None? || n.None? { return InternalError; }
      if clash.Some? { return NotUnique; }
      db := db.(t := db.t.(invitations := db.t.invitations[id := Link(u.value, n.value, ())]));
      return Done;
    }

    // ---- Servers -------------------------------------------------------------------------

    /** `work` is what the first transaction has done so far; leaving the method before the
        commit drops it. */
    method UpdateServer(name: bytes, login: bytes, e: Endpoint, fault: bool, fault2: bool) returns (r: Response)
      requires Valid()
      modifies this
      ensures Valid() && (db, r) == Statements.UpdateServer(old(db), name, login, e, fault, fault2)
    {
      UpdateServerKeepsIntegrity(db, name, login, e, fault, fault2);
      if fault { return InternalError; }
      var u := FindUser(login);
      var n := FindNetwork(name);
      var row := FindLink(db.t.servers, db.next, u, n);
      var work := db;
      if row.Some? {
        if !EndpointFits(e) { return InternalError; }
        work := work.(t := work.t.(servers := work.t.servers[row.value := Link(u.value, n.value, e)]));
        return Done;
      }
      db := work;
      if fault2 || !EndpointFits(e) { return InternalError; }
      var id := db.next;
      db := db.(next := id + 1);
      if u.None? || n.None? { return InternalError; }
      db := db.(t := db.t.(servers := db.t.servers[id := Link(u.value, n.value, e)]));
      return Done;
    }

    method DeleteServer(name: bytes, login: bytes, fault: bool) returns (r: Response)
      requires Valid()
      modifies this
      ensures Valid() && (db, r) == Statements.DeleteServer(old(db), name, login, fault)
    {
      DeleteServerKeepsIntegrity(db, name, login, fault);
      if fault { return InternalError; }
      var u := FindUser(login);
      var n := FindNetwork(name);
      var row := FindLink(db.t.servers, db.next, u, n);
      if row.Some? {
        db := db.(t := db.t.(servers := db.t.servers - {row.value}));
      }
      return NotFound;
    }

    method GetServers(name: bytes, fault: bool) returns (l: seq<ServerInfo>)
      requires Valid()
      ensures l == if fault then [] else ServersOf(db.t, name, db.next)
    {
      hide Integrity, NetworkId;
      l := [];
      if fault { return; }
      var n := FindNetwork(name);
      for i: nat := 0 to db.next
        invariant l == ServersOf(db.t, name, i)
      {
        if i in db.t.servers && n == Some(db.t.servers[i].network) {
          l := l + [ServerInfo(name, db.t.servers[i].data.ip, db.t.servers[i].data.port)];
        }
      }
    }

    /** `SELECT clean($1)`, the stored procedure run at time `now`. */
    method CleanServers(now: int, ttl: int, fault: bool)
      requires Valid()
      modifies this
      ensures Valid() && db == Statements.CleanServers(old(db), now, ttl, fault)
    {
      hide Integrity, Statements.Unexpired;
      CleanServersKeepsIntegrity(db, now, ttl, fault);
      if !fault {
        var kept := DeleteExpired(db.t.servers, now - ttl);
        db := db.(t := db.t.(servers := kept));
      }
    }

    /** `DELETE FROM servers WHERE ttl < ...`, row by row. */
    static method DeleteExpired(servers: map<nat, Link<Endpoint>>, start: int) returns (kept: map<nat, Link<Endpoint>>)
      ensures kept == Statements.Unexpired(servers, start)
    {
      var todo := servers.Keys;
      kept := servers;
      while todo != {}
        invariant todo <= kept.Keys
        invariant forall s :: s in kept ==> s in servers && kept[s] == servers[s]
        invariant forall s :: s in servers && s !in todo ==> (s in kept <==> servers[s].data.ttl >= start)
        decreases todo
      {
        var s :| s in todo;
        todo := todo - {s};
        if kept[s].data.ttl < start { kept := kept - {s}; }
      }
    }
  }
}
