/** What holds of the tracker over every run. */
module TrackerRuns {
  import opened Bytes
  import opened Sessions
  import opened Protocol
  import opened Tracker
  import S = Statements

  datatype Event =
    | Handled(req: Request, env: Env)
    | SessionsCleaned(cutoff: int)
    | ServersCleaned(now: int, ttl: int, fault: bool)

  ghost function Step(st: State, e: Event): State {
    match e
    case Handled(req, env) => Handle(st, req, env).0
    case SessionsCleaned(cutoff) => st.(sessions := NotAfter(st.sessions, cutoff))
    case ServersCleaned(now, ttl, fault) => st.(db := S.CleanServers(st.db, now, ttl, fault))
  }

  ghost function Run(st: State, es: seq<Event>): State {
    if es == [] then st else Step(Run(st, es[..|es| - 1]), es[|es| - 1])
  }

  /** Freshly created tables and no session. */
  const START := State(S.EMPTY, map[])

  /** The start has what the runs below keep. */
  lemma StartIsSound()
    ensures S.Integrity(START.db) && OwnersInvited(START.db.t)
  {
  }

  // ---- Relational integrity ----------------------------------------------------------------

  lemma LoggedIntegrity(st: State, login: bytes, req: Request, env: Env)
    requires S.Integrity(st.db) && CookieOf(req).Some? && !req.Logout?
    ensures S.Integrity(HandleLogged(st, login, req, env).0.db)
  {
    hide S.Integrity, S.RemoveUser, S.CreateNetwork, S.CreateInvitation, S.DeleteNetwork, S.UpdateServer,
      S.DeleteServer, S.AddKey, S.ChangePassword, S.NetworkExists, S.UserExists, S.CanSeeNetwork, S.CanAddServer,
      S.PassHash, S.References;
    var db, f := st.db, env.faults;
    match req
    case Unregister(_) => S.RemoveUserKeepsIntegrity(db, login, Write in f);
    case RemoveUser(_, _, _) => S.RemoveUserKeepsIntegrity(db, login, Write in f);
    case CreateNetwork(_, name, _, _, _, _, _) =>
      S.CreateNetworkKeepsIntegrity(db, login, NetworkRow(req), Write in f);
      var w := S.CreateNetwork(db, login, NetworkRow(req), Write in f);
      S.CreateInvitationKeepsIntegrity(w.0, login, name, Invitation in f);
    case DeleteNetwork(_, name) => S.DeleteNetworkKeepsIntegrity(db, login, name, Write in f);
    case InviteUser(_, u, n) => S.CreateInvitationKeepsIntegrity(db, u, n, Write in f);
    case UpdateServer(_, n, _) =>
      S.UpdateServerKeepsIntegrity(db, n, login, ServerRow(req, env), Write in f, SecondWrite in f);
    case StopServer(_, n) => S.DeleteServerKeepsIntegrity(db, n, login, Write in f);
    case SignKey(_, key, n) => S.AddKeyKeepsIntegrity(db, login, n, env.sign(key), Write in f);
    case ChangePassword(_, _, p) => S.UserStatementsKeepIntegrity(db, login, env.hash(p), Write in f);
    case _ =>
  }

  lemma StepIntegrity(st: State, e: Event)
    requires S.Integrity(st.db)
    ensures S.Integrity(Step(st, e).db)
  {
    hide HandleLogged, S.Integrity, S.CreateUser, S.CleanServers;
    match e
    case Handled(req, env) =>
      if req.Register? {
        S.UserStatementsKeepIntegrity(st.db, req.username, env.hash(req.password), Write in env.faults);
      } else if CookieOf(req).Some? && !req.Logout? {
        LoggedIntegrity(st, LoginOf(st.sessions, req.cookie), req, env);
      }
    case SessionsCleaned(_) =>
    case ServersCleaned(now, ttl, fault) => S.CleanServersKeepsIntegrity(st.db, now, ttl, fault);
  }

  /** After any sequence of requests, whatever fails: logins, network names and all
      (user, network) pairs are unique, and every foreign key resolves. */
  lemma {:induction false} RunIntegrity(st: State, es: seq<Event>)
    requires S.Integrity(st.db)
    ensures S.Integrity(Run(st, es).db)
  {
    hide Step;
    if es != [] {
      RunIntegrity(st, es[..|es| - 1]);
      StepIntegrity(Run(st, es[..|es| - 1]), es[|es| - 1]);
    }
  }

  // ---- Ownership -----------------------------------------------------------------------------

  /** The step deletes on behalf of the owner of network `n`: through a session of its login. */
  ghost predicate ByOwner(st: State, e: Event, n: nat) {
    && e.Handled?
    && Deletes(e.req)
    && e.req.cookie in st.sessions
    && n in st.db.t.networks && st.db.t.networks[n].owner in st.db.t.users
    && st.db.t.users[st.db.t.networks[n].owner].login == st.sessions[e.req.cookie].login
  }

  /** The fate of a network in one statement or step: its row stays as it is, or is gone. */
  ghost predicate Kept(a: S.Database, b: S.Database, n: nat) {
    && a.next <= b.next
    && (n in b.t.networks && n < a.next ==> n in a.t.networks && b.t.networks[n] == a.t.networks[n])
  }

  lemma DeletesAreOwners(db: S.Database, login: bytes, name: bytes, fault: bool, n: nat)
    requires S.Integrity(db)
    ensures var d := S.RemoveUser(db, login, fault).0;
      && Kept(db, d, n)
      && (n in db.t.networks && n !in d.t.networks ==> db.t.users[db.t.networks[n].owner].login == login)
    ensures var d := S.DeleteNetwork(db, login, name, fault).0;
      && Kept(db, d, n)
      && (n in db.t.networks && n !in d.t.networks ==> db.t.users[db.t.networks[n].owner].login == login)
  {
    hide S.Unique;
  }

  lemma CreatesKeepOthers(db: S.Database, login: bytes, row: S.Network, name: bytes, fault: bool, n: nat)
    requires n in db.t.networks ==> n < db.next
    ensures var d := S.CreateNetwork(db, login, row, fault).0;
      Kept(db, d, n) && (n in db.t.networks ==> n in d.t.networks) && (n in d.t.networks ==> n < d.next)
    ensures var d := S.CreateInvitation(db, login, name, fault).0;
      d.t.networks == db.t.networks && d.next >= db.next
  {
    hide S.UserId, S.NetworkId, S.LinkId;
  }

  /** The statements about servers, keys and passwords. */
  lemma OthersKeepNetworks(db: S.Database, login: bytes, name: bytes, e: S.Endpoint, key: bytes, f: bool, f2: bool)
    ensures SameNetworkRows(db, S.UpdateServer(db, name, login, e, f, f2).0)
    ensures SameNetworkRows(db, S.DeleteServer(db, name, login, f).0)
    ensures SameNetworkRows(db, S.AddKey(db, login, name, key, f).0)
    ensures SameNetworkRows(db, S.ChangePassword(db, login, key, f).0)
  {
    hide S.UserId, S.NetworkId, S.LinkId;
  }

  ghost predicate SameNetworkRows(a: S.Database, b: S.Database) {
    a.t.networks == b.t.networks && a.t.invitations == b.t.invitations && a.next <= b.next
  }

  lemma NetworkFacts(db: S.Database, n: nat)
    requires S.Integrity(db)
    ensures n in db.t.networks ==> n < db.next && db.t.networks[n].owner in db.t.users
  {
  }

  predicate Deletes(req: Request) { req.DeleteNetwork? || req.Unregister? || req.RemoveUser? }

  lemma DeletingOwnership(st: State, login: bytes, req: Request, env: Env, n: nat)
    requires S.Integrity(st.db) && Deletes(req)
    ensures var st' := HandleLogged(st, login, req, env).0;
      && Kept(st.db, st'.db, n)
      && (n in st.db.t.networks && n !in st'.db.t.networks ==>
            && st.db.t.networks[n].owner in st.db.t.users
            && st.db.t.users[st.db.t.networks[n].owner].login == login)
  {
    hide S.Integrity, S.RemoveUser, S.DeleteNetwork, S.NetworkExists;
    NetworkFacts(st.db, n);
    DeletesAreOwners(st.db, login, if req.DeleteNetwork? then req.name else [], Write in env.faults, n);
  }

  lemma OtherOwnership(st: State, login: bytes, req: Request, env: Env, n: nat)
    requires S.Integrity(st.db) && CookieOf(req).Some? && !req.Logout? && !Deletes(req)
    ensures var st' := HandleLogged(st, login, req, env).0;
      Kept(st.db, st'.db, n) && (n in st.db.t.networks ==> n in st'.db.t.networks)
  {
    hide S.CreateNetwork, S.CreateInvitation, S.NetworkExists, S.UserExists, S.UpdateServer, S.DeleteServer, S.AddKey,
      S.ChangePassword, S.Integrity, S.CanSeeNetwork, S.CanAddServer, S.PassHash, AllNetworksOf, OwnNetworksOf,
      S.UserInfo, S.ServersOf, S.References;
    var f, nobody := Write in env.faults, S.Endpoint([], 0, 0);
    NetworkFacts(st.db, n);
    match req
    case CreateNetwork(_, name, _, _, _, _, _) =>
      var row := NetworkRow(req);
      CreatesKeepOthers(st.db, login, row, name, f, n);
      CreatesKeepOthers(S.CreateNetwork(st.db, login, row, f).0, login, row, name, Invitation in env.faults, n);
    case InviteUser(_, u, m) => CreatesKeepOthers(st.db, u, S.Network(0, [], false, false, false, [], []), m, f, n);
    case UpdateServer(_, m, _) =>
      OthersKeepNetworks(st.db, login, m, ServerRow(req, env), [], f, SecondWrite in env.faults);
    case StopServer(_, m) => OthersKeepNetworks(st.db, login, m, nobody, [], f, false);
    case SignKey(_, key, m) => OthersKeepNetworks(st.db, login, m, nobody, env.sign(key), f, false);
    case ChangePassword(_, _, p) => OthersKeepNetworks(st.db, login, [], nobody, env.hash(p), f, false);
    case _ =>
  }

  lemma LoggedOwnership(st: State, login: bytes, req: Request, env: Env, n: nat)
    requires S.Integrity(st.db) && CookieOf(req).Some? && !req.Logout?
    ensures var st' := HandleLogged(st, login, req, env).0;
      && Kept(st.db, st'.db, n)
      && (n in st.db.t.networks && n !in st'.db.t.networks ==>
            && Deletes(req)
            && st.db.t.networks[n].owner in st.db.t.users
            && st.db.t.users[st.db.t.networks[n].owner].login == login)
  {
    hide HandleLogged, S.Integrity;
    NetworkFacts(st.db, n);
    if Deletes(req) {
      DeletingOwnership(st, login, req, env, n);
    } else {
      OtherOwnership(st, login, req, env, n);
    }
  }

  lemma StepOwnership(st: State, e: Event, n: nat)
    requires S.Integrity(st.db)
    ensures Kept(st.db, Step(st, e).db, n)
    ensures n in st.db.t.networks && n !in Step(st, e).db.t.networks ==> ByOwner(st, e, n)
  {
    hide HandleLogged, S.UserId, S.Integrity, S.PassHash;
    if e.Handled? && CookieOf(e.req).Some? && !e.req.Logout? {
      LoggedOwnership(st, LoginOf(st.sessions, e.req.cookie), e.req, e.env, n);
    }
  }

  /** Some step of the run deletes on behalf of the owner of `n`. */
  ghost predicate DeletedByOwner(st: State, es: seq<Event>, n: nat) {
    exists k :: 0 <= k < |es| && ByOwner(Run(st, es[..k]), es[k], n)
  }

  /** Over every run a network never changes owner, name or flags, and disappears only in a
      DELETE_NETWORK, UNREGISTER or REMOVE_USER step of its owner. */
  lemma {:induction false} RunOwnership(st: State, es: seq<Event>, n: nat)
    requires S.Integrity(st.db) && n in st.db.t.networks
    ensures Kept(st.db, Run(st, es).db, n)
    ensures n !in Run(st, es).db.t.networks ==> DeletedByOwner(st, es, n)
  {
    hide Step, S.Integrity, ByOwner;
    assert n < st.db.next by { S.IntegrityParts(st.db); }
    if es != [] {
      var k := |es| - 1;
      var front := es[..k];
      RunOwnership(st, front, n);
      RunIntegrity(st, front);
      StepOwnership(Run(st, front), es[k], n);
      if n !in Run(st, es).db.t.networks {
        if n in Run(st, front).db.t.networks {
          assert ByOwner(Run(st, es[..k]), es[k], n);
        } else {
          var j :| 0 <= j < |front| && ByOwner(Run(st, front[..j]), front[j], n);
          assert front[..j] == es[..j];
          assert ByOwner(Run(st, es[..j]), es[j], n);
        }
      }
    }
  }

  // ---- Owners are invited ----------------------------------------------------------------------

  ghost predicate Invited(t: S.Tables, u: nat, n: nat) {
    exists i :: i in t.invitations && t.invitations[i].user == u && t.invitations[i].network == n
  }

  ghost predicate OwnersInvited(t: S.Tables) {
    forall n :: n in t.networks ==> Invited(t, t.networks[n].owner, n)
  }

  /** The second of the two statements of a CREATE_NETWORK is lost, after the first succeeded. */
  ghost predicate InvitationLost(st: State, e: Event) {
    && e.Handled? && e.req.CreateNetwork?
    && LoginOf(st.sessions, e.req.cookie) != []
    && S.CreateNetwork(st.db, LoginOf(st.sessions, e.req.cookie), NetworkRow(e.req), Write in e.env.faults).1 == S.Done
    && Invitation in e.env.faults
  }

  lemma DeletesKeepInvitations(db: S.Database, login: bytes, name: bytes, fault: bool)
    requires OwnersInvited(db.t)
    ensures OwnersInvited(S.RemoveUser(db, login, fault).0.t)
    ensures OwnersInvited(S.DeleteNetwork(db, login, name, fault).0.t)
  {
    var d, e := S.RemoveUser(db, login, fault).0.t, S.DeleteNetwork(db, login, name, fault).0.t;
    forall n | n in d.networks ensures Invited(d, d.networks[n].owner, n) {
      assert Invited(db.t, db.t.networks[n].owner, n);
      var i :| i in db.t.invitations && db.t.invitations[i].user == db.t.networks[n].owner && db.t.invitations[i].network == n;
      assert i in d.invitations;
    }
    forall n | n in e.networks ensures Invited(e, e.networks[n].owner, n) {
      assert Invited(db.t, db.t.networks[n].owner, n);
      var i :| i in db.t.invitations && db.t.invitations[i].user == db.t.networks[n].owner && db.t.invitations[i].network == n;
      assert i in e.invitations;
    }
  }

  lemma MoreInvited(a: S.Tables, b: S.Tables)
    requires S.SubMap(a.invitations, b.invitations)
    ensures forall u, n :: Invited(a, u, n) ==> Invited(b, u, n)
  {
    forall u, n | Invited(a, u, n) ensures Invited(b, u, n) {
      var i :| i in a.invitations && a.invitations[i].user == u && a.invitations[i].network == n;
      assert i in b.invitations;
    }
  }

  lemma InvitationsOnlyGrow(db: S.Database, login: bytes, name: bytes, fault: bool)
    requires S.Drawn(db)
    ensures var t := S.CreateInvitation(db, login, name, fault).0.t;
      && t.networks == db.t.networks && t.users == db.t.users
      && S.SubMap(db.t.invitations, t.invitations)
  {
    hide S.UserId, S.NetworkId, S.LinkId;
    assert db.next !in db.t.invitations;
  }

  lemma InvitationIsThere(db: S.Database, login: bytes, name: bytes)
    requires S.UserId(db.t, login).Some? && S.NetworkId(db.t, name).Some?
    ensures var t := S.CreateInvitation(db, login, name, false).0.t;
      Invited(t, S.UserId(db.t, login).value, S.NetworkId(db.t, name).value)
  {
    hide S.UserId, S.NetworkId;
    var t := S.CreateInvitation(db, login, name, false).0.t;
    var u, n := S.UserId(db.t, login), S.NetworkId(db.t, name);
    if S.LinkId(db.t.invitations, u, n).None? {
      assert db.next in t.invitations;
    } else {
      assert S.LinkId(db.t.invitations, u, n).value in t.invitations;
    }
  }

  /** CREATE_NETWORK: the new network is the only one whose owner might not be invited. */
  lemma NewNetworkInvited(db: S.Database, login: bytes, row: S.Network, fault: bool, fault2: bool)
    requires S.Integrity(db) && OwnersInvited(db.t)
    requires S.CreateNetwork(db, login, row, fault).1 == S.Done
    ensures var d := S.CreateNetwork(db, login, row, fault).0;
      OwnersInvited(S.CreateInvitation(d, login, row.name, fault2).0.t) <==> !fault2
  {
    hide S.Integrity, S.Unique, S.References, S.Drawn, S.CreateNetwork, S.CreateInvitation, Invited;
    var d := S.CreateNetwork(db, login, row, fault).0;
    var t := S.CreateInvitation(d, login, row.name, fault2).0.t;
    S.CreateNetworkKeepsIntegrity(db, login, row, fault);
    S.IntegrityParts(d);
    NewRow(db, login, row, fault);
    InvitationsOnlyGrow(d, login, row.name, fault2);
    MoreInvited(d.t, t);
    MoreInvited(db.t, d.t);
    if fault2 {
      assert t == d.t by { FaultyInvitation(d, login, row.name); }
      assert !Invited(t, t.networks[db.next].owner, db.next);
    } else {
      InvitationIsThere(d, login, row.name);
      forall n | n in t.networks ensures Invited(t, t.networks[n].owner, n) {
        if n != db.next {
          assert n in db.t.networks && Invited(db.t, db.t.networks[n].owner, n);
        }
      }
    }
  }

  lemma FaultyInvitation(db: S.Database, login: bytes, name: bytes)
    ensures S.CreateInvitation(db, login, name, true).0 == db
  {
  }

  /** What a successful CREATE_NETWORK adds. */
  lemma NewRow(db: S.Database, login: bytes, row: S.Network, fault: bool)
    requires S.Integrity(db) && S.CreateNetwork(db, login, row, fault).1 == S.Done
    ensures var t := S.CreateNetwork(db, login, row, fault).0.t;
      && db.next !in db.t.networks && t.networks.Keys == db.t.networks.Keys + {db.next}
      && (forall n :: n in db.t.networks ==> t.networks[n] == db.t.networks[n])
      && t.invitations == db.t.invitations && !Invited(t, t.networks[db.next].owner, db.next)
      && S.NetworkId(t, row.name) == Some(db.next)
      && S.UserId(t, login) == Some(t.networks[db.next].owner)
  {
    var t := S.CreateNetwork(db, login, row, fault).0.t;
    assert t.users == db.t.users && db.next in t.networks;
    assert S.UserId(t, login) == S.UserId(db.t, login) by { UserIdOf(db.t, t, login); }
  }

  lemma UserIdOf(a: S.Tables, b: S.Tables, login: bytes)
    requires S.Unique(a) && a.users == b.users
    ensures S.UserId(a, login) == S.UserId(b, login)
  {
  }

  lemma OthersKeepInvitations(st: State, login: bytes, req: Request, env: Env)
    requires S.Integrity(st.db) && OwnersInvited(st.db.t) && CookieOf(req).Some? && !req.Logout? && !req.CreateNetwork?
    ensures OwnersInvited(HandleLogged(st, login, req, env).0.db.t)
  {
    hide S.Integrity, S.RemoveUser, S.DeleteNetwork, S.CreateInvitation, S.NetworkExists, S.UserExists,
      S.UpdateServer, S.DeleteServer, S.AddKey, S.ChangePassword, OwnersInvited, S.CanSeeNetwork, S.CanAddServer, S.PassHash, AllNetworksOf, OwnNetworksOf, S.UserInfo, Invited;
    match req
    case Unregister(_) => DeletesKeepInvitations(st.db, login, [], Write in env.faults);
    case RemoveUser(_, _, _) => DeletesKeepInvitations(st.db, login, [], Write in env.faults);
    case DeleteNetwork(_, name) => DeletesKeepInvitations(st.db, login, name, Write in env.faults);
    case InviteUser(_, u, n) => InvitationsKeep(st.db, u, n, Write in env.faults);
    case UpdateServer(_, n, _) =>
      OthersKeepNetworks(st.db, login, n, ServerRow(req, env), [], Write in env.faults, SecondWrite in env.faults);
      SameNetworks(st.db.t, HandleLogged(st, login, req, env).0.db.t);
    case StopServer(_, n) =>
      OthersKeepNetworks(st.db, login, n, S.Endpoint([], 0, 0), [], Write in env.faults, false);
      SameNetworks(st.db.t, HandleLogged(st, login, req, env).0.db.t);
    case SignKey(_, key, n) =>
      OthersKeepNetworks(st.db, login, n, S.Endpoint([], 0, 0), env.sign(key), Write in env.faults, false);
      SameNetworks(st.db.t, HandleLogged(st, login, req, env).0.db.t);
    case ChangePassword(_, _, _) =>
      OthersKeepNetworks(st.db, login, [], S.Endpoint([], 0, 0), env.hash(req.newPassword), Write in env.faults, false);
      SameNetworks(st.db.t, HandleLogged(st, login, req, env).0.db.t);
    case _ =>
  }

  lemma InvitationsKeep(db: S.Database, login: bytes, name: bytes, fault: bool)
    requires S.Integrity(db) && OwnersInvited(db.t)
    ensures OwnersInvited(S.CreateInvitation(db, login, name, fault).0.t)
  {
    S.IntegrityParts(db);
    hide S.Integrity, S.Unique, S.References, S.Drawn, S.CreateInvitation, Invited;
    var t := S.CreateInvitation(db, login, name, fault).0.t;
    InvitationsOnlyGrow(db, login, name, fault);
    MoreInvited(db.t, t);
    assert forall n :: n in t.networks ==> Invited(db.t, t.networks[n].owner, n);
  }

  lemma SameNetworks(a: S.Tables, b: S.Tables)
    requires OwnersInvited(a) && a.networks == b.networks && a.invitations == b.invitations
    ensures OwnersInvited(b)
  {
    forall n | n in b.networks ensures Invited(b, b.networks[n].owner, n) {
      assert Invited(a, a.networks[n].owner, n);
    }
  }

  /** A step leaves every owner invited exactly unless it loses that second statement. */
  lemma StepOwnersInvited(st: State, e: Event)
    requires S.Integrity(st.db) && OwnersInvited(st.db.t)
    ensures OwnersInvited(Step(st, e).db.t) <==> !InvitationLost(st, e)
  {
    hide S.Integrity, OwnersInvited, S.CreateNetwork, S.CreateInvitation;
    if e.Handled? && CookieOf(e.req).Some? && !e.req.Logout? && LoginOf(st.sessions, e.req.cookie) != [] {
      LoggedOwnersInvited(st, e);
    } else {
      SameNetworks(st.db.t, Step(st, e).db.t);
    }
  }

  lemma LoggedOwnersInvited(st: State, e: Event)
    requires S.Integrity(st.db) && OwnersInvited(st.db.t)
    requires e.Handled? && CookieOf(e.req).Some? && !e.req.Logout? && LoginOf(st.sessions, e.req.cookie) != []
    ensures OwnersInvited(Step(st, e).db.t) <==> !InvitationLost(st, e)
  {
    hide S.Integrity, OwnersInvited, S.CreateInvitation;
    var login := LoginOf(st.sessions, e.req.cookie);
    if e.req.CreateNetwork? {
      var row, f := NetworkRow(e.req), e.env.faults;
      if S.CreateNetwork(st.db, login, row, Write in f).1 == S.Done {
        NewNetworkInvited(st.db, login, row, Write in f, Invitation in f);
      } else {
        SameNetworks(st.db.t, Step(st, e).db.t);
      }
    } else {
      OthersKeepInvitations(st, login, e.req, e.env);
    }
  }

  /** Over every run that loses no such statement, every network's owner holds an invitation
      to it, cascades included. */
  lemma {:induction false} RunOwnersInvited(st: State, es: seq<Event>)
    requires S.Integrity(st.db) && OwnersInvited(st.db.t)
    requires forall k :: 0 <= k < |es| ==> !InvitationLost(Run(st, es[..k]), es[k])
    ensures OwnersInvited(Run(st, es).db.t)
  {
    hide Step, S.Integrity, OwnersInvited, InvitationLost;
    if es != [] {
      var k := |es| - 1;
      var front := es[..k];
      forall j | 0 <= j < |front| ensures !InvitationLost(Run(st, front[..j]), front[j]) {
        assert front[..j] == es[..j];
      }
      RunOwnersInvited(st, front);
      RunIntegrity(st, front);
      StepOwnersInvited(Run(st, front), es[k]);
    }
  }

  /** In every state reachable from the start. */
  lemma ReachableTables(es: seq<Event>)
    ensures S.Integrity(Run(START, es).db)
    ensures (forall k :: 0 <= k < |es| ==> !InvitationLost(Run(START, es[..k]), es[k])) ==>
            OwnersInvited(Run(START, es).db.t)
  {
    hide S.Integrity, OwnersInvited, Run, InvitationLost;
    StartIsSound();
    RunIntegrity(START, es);
    if forall k :: 0 <= k < |es| ==> !InvitationLost(Run(START, es[..k]), es[k]) {
      RunOwnersInvited(START, es);
    }
  }

  // ---- Stale sessions --------------------------------------------------------------------------

  /** A session whose login has no users row left cannot change the tables, except by
      INVITE_USER: its NULL sub-selects match no row and break the not-null constraints. */
  lemma StaleSessionsCannotWrite(st: State, req: Request, env: Env)
    requires CookieOf(req).Some? && !req.InviteUser?
    requires S.UserId(st.db.t, LoginOf(st.sessions, req.cookie)).None?
    ensures Handle(st, req, env).0.db.t == st.db.t
  {
    hide S.NetworkId, S.UserId, S.References, AllNetworksOf, OwnNetworksOf;
    var login := LoginOf(st.sessions, req.cookie);
    assert S.UserId(st.db.t, login).None?;
  }

  /** INVITE_USER asks nothing of its sender: through any session, stale or not, it writes
      exactly when the network and the invited user exist and no such invitation does, unless
      the database fails. */
  lemma AnyoneInvites(st: State, req: Request, env: Env)
    requires S.Integrity(st.db) && req.InviteUser? && LoginOf(st.sessions, req.cookie) != []
    ensures var (u, n) := (S.UserId(st.db.t, req.username), S.NetworkId(st.db.t, req.network));
      Handle(st, req, env).0.db.t != st.db.t <==>
        && u.Some? && n.Some? && S.LinkId(st.db.t.invitations, u, n).None?
        && UserLookup !in env.faults && NetworkLookup !in env.faults && Write !in env.faults
  {
    hide S.NetworkId, S.UserId, S.LinkId, S.Integrity, S.CreateInvitation;
    InvitationChanges(st.db, req.username, req.network, Write in env.faults);
  }

  lemma InvitationChanges(db: S.Database, login: bytes, name: bytes, fault: bool)
    requires S.Integrity(db)
    ensures var (u, n) := (S.UserId(db.t, login), S.NetworkId(db.t, name));
      S.CreateInvitation(db, login, name, fault).0.t != db.t <==>
        !fault && u.Some? && n.Some? && S.LinkId(db.t.invitations, u, n).None?
  {
    hide S.NetworkId, S.UserId, S.LinkId;
    assert db.next !in db.t.invitations;
    var t := S.CreateInvitation(db, login, name, fault).0.t;
    if t.invitations.Keys == db.t.invitations.Keys {}
  }

  // ---- Failures --------------------------------------------------------------------------------

  /** The requests that write before they decide what to answer. */
  ghost predicate WritesThenFails(st: State, req: Request, env: Env) {
    var f := env.faults;
    match req
    case Register(u, p, key) => S.CreateUser(st.db, u, env.hash(p), Write in f).1 == S.Done && env.sign(key) == []
    case SignKey(c, key, n) =>
      var login := LoginOf(st.sessions, c);
      login != [] && env.sign(key) == [] && S.AddKey(st.db, login, n, [], Write in f).1 == S.Done
    case StopServer(c, n) =>
      var login := LoginOf(st.sessions, c);
      && login != [] && S.NetworkExists(st.db, n, NetworkLookup in f) && Write !in f
      && S.LinkId(st.db.t.servers, S.UserId(st.db.t, login), S.NetworkId(st.db.t, n)).Some?
    case _ => false
  }

  lemma InsertsChange(db: S.Database, login: bytes, name: bytes, key: bytes, fault: bool)
    requires S.Integrity(db)
    ensures S.CreateUser(db, login, key, fault).0.t != db.t <==> S.CreateUser(db, login, key, fault).1 == S.Done
    ensures S.AddKey(db, login, name, key, fault).0.t != db.t <==> S.AddKey(db, login, name, key, fault).1 == S.Done
  {
    hide S.UserId, S.NetworkId, S.LinkId;
    assert db.next !in db.t.users && db.next !in db.t.keys;
    assert db.next in S.CreateUser(db, login, key, fault).0.t.users <==> S.CreateUser(db, login, key, fault).1 == S.Done;
    assert db.next in S.AddKey(db, login, name, key, fault).0.t.keys <==> S.AddKey(db, login, name, key, fault).1 == S.Done;
  }

  /** A reply other than OK means unchanged tables, except exactly in those three cases; and
      STOP_SERVER is never answered OK, even when it has just deleted the server. */
  lemma FailureLeavesTables(st: State, req: Request, env: Env)
    requires S.Integrity(st.db)
    ensures var (st', reply) := Handle(st, req, env);
      && (Code(reply) != OK && st'.db.t != st.db.t <==> WritesThenFails(st, req, env))
      && (req.StopServer? ==> Code(reply) in {NOT_LOGGED, NO_SUCH_NETWORK, INTERNAL_SERVER_ERROR, BAD_REQUEST})
  {
    hide S.UserId, S.NetworkId, S.LinkId, S.References, S.Integrity, AllNetworksOf, OwnNetworksOf, S.AddKey, S.CreateUser,
      S.ServersOf, S.UserInfo, S.PassHash, S.CanSeeNetwork, S.CanAddServer, S.DropUser, S.DropNetwork;
    match req
    case Register(u, p, key) => InsertsChange(st.db, u, [], env.hash(p), Write in env.faults);
    case SignKey(c, key, n) =>
      InsertsChange(st.db, LoginOf(st.sessions, c), n, env.sign(key), Write in env.faults);
    case StopServer(c, n) =>
    case _ =>
  }

  // ---- Where the code falls short of its documentation ---------------------------------------------

  /** The row `u` and `n` select in `servers` has the data `e`. */
  ghost predicate Stored(t: S.Tables, u: Option<nat>, n: Option<nat>, e: S.Endpoint) {
    var i := S.LinkId(t.servers, u, n);
    i.Some? && t.servers[i.value].data == e
  }

  /** UPDATE_SERVER is documented to create the server or update it. A reply that says it did
      is true exactly when there was no row before, or one with the same data. */
  lemma UpdateServerStores(st: State, req: Request, env: Env)
    requires S.Integrity(st.db) && req.UpdateServer?
    ensures var (st', reply) := Handle(st, req, env);
      var u := S.UserId(st.db.t, LoginOf(st.sessions, req.cookie));
      var n := S.NetworkId(st.db.t, req.network);
      reply.ServerUpdated? ==>
        (Stored(st'.db.t, u, n, ServerRow(req, env)) <==>
           S.LinkId(st.db.t.servers, u, n).None? || Stored(st.db.t, u, n, ServerRow(req, env)))
  {
    hide S.UserId, S.NetworkId, S.References;
    var (st', reply) := Handle(st, req, env);
    var u := S.UserId(st.db.t, LoginOf(st.sessions, req.cookie));
    var n := S.NetworkId(st.db.t, req.network);
    if reply.ServerUpdated? && S.LinkId(st.db.t.servers, u, n).None? {
      assert st.db.next in st'.db.t.servers;
      assert S.LinkId(st'.db.t.servers, u, n).Some?;
    }
  }

  /** REMOVE_USER is documented to remove a user from a network. It looks at neither name: it
      does to the tables what UNREGISTER through the same session does, and logs out. */
  lemma RemoveUserUnregisters(st: State, c: bytes, u: bytes, n: bytes, env: Env)
    ensures var (st', reply) := Handle(st, Unregister(c), env);
      Handle(st, RemoveUser(c, u, n), env) ==
        (if LoginOf(st.sessions, c) == [] then st else st'.(sessions := st.sessions - {c}), reply)
  {
  }
}
