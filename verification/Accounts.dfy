/** Which account a session acts for. Sessions hold a login and survive UNREGISTER, so the
    account behind a cookie can change while the session does not. */
module Accounts {
  import opened Bytes
  import opened Sessions
  import opened Protocol
  import opened Tracker
  import opened TrackerRuns
  import D = Departures
  import S = Statements

  /** The step creates an account of this login. */
  ghost predicate Registers(st: State, e: Event, login: bytes) {
    && e.Handled? && e.req.Register? && e.req.username == login
    && S.CreateUser(st.db, login, e.env.hash(e.req.password), Write in e.env.faults).1 == S.Done
  }

  /** The step deletes the account of this login, through one of its sessions. */
  ghost predicate Unregisters(st: State, e: Event, login: bytes) {
    && e.Handled? && (e.req.Unregister? || e.req.RemoveUser?)
    && login != [] && LoginOf(st.sessions, e.req.cookie) == login
    && Write !in e.env.faults && S.UserId(st.db.t, login).Some?
  }

  // ---- One step ------------------------------------------------------------------------------

  lemma CreateUserId(db: S.Database, user: bytes, hash: bytes, fault: bool, login: bytes)
    requires S.Integrity(db)
    ensures var w := S.CreateUser(db, user, hash, fault);
      S.UserId(w.0.t, login) == if user == login && w.1 == S.Done then Some(db.next) else S.UserId(db.t, login)
  {
    var w := S.CreateUser(db, user, hash, fault);
    S.UserStatementsKeepIntegrity(db, user, hash, fault);
    if w.1 == S.Done { assert w.0.t.users[db.next].login == user; }
    if S.UserId(db.t, login).Some? { assert S.UserId(db.t, login).value in w.0.t.users; }
  }

  lemma RemoveUserId(db: S.Database, user: bytes, fault: bool, login: bytes)
    requires S.Integrity(db)
    ensures S.UserId(S.RemoveUser(db, user, fault).0.t, login) ==
            if user == login && !fault then None else S.UserId(db.t, login)
  {
    hide S.Integrity, S.DropUser, S.UserId;
    if S.UserId(db.t, user).Some? { D.IdsAfterDrop(db, user, login, []); }
  }

  lemma ChangePasswordId(db: S.Database, user: bytes, hash: bytes, fault: bool, login: bytes)
    requires S.Integrity(db)
    ensures S.UserId(S.ChangePassword(db, user, hash, fault).0.t, login) == S.UserId(db.t, login)
  {
    var t := S.ChangePassword(db, user, hash, fault).0.t;
    S.UserStatementsKeepIntegrity(db, user, hash, fault);
    if S.UserId(db.t, login).Some? { assert t.users[S.UserId(db.t, login).value].login == login; }
  }

  lemma OthersKeepUsers(st: State, login: bytes, req: Request, env: Env)
    requires CookieOf(req).Some? && !req.Logout? && !req.Unregister? && !req.RemoveUser? && !req.ChangePassword?
    ensures HandleLogged(st, login, req, env).0.db.t.users == st.db.t.users
  {
    hide S.UserId, S.NetworkId, S.LinkId, S.References, AllNetworksOf, OwnNetworksOf, S.PassHash, S.UserInfo, S.ServersOf,
      S.UserExists, S.NetworkExists, S.CanSeeNetwork, S.CanAddServer;
  }

  /** Only these two kinds of step change whose account a login is. */
  lemma StepAccount(st: State, e: Event, login: bytes)
    requires S.Integrity(st.db)
    ensures S.UserId(Step(st, e).db.t, login) ==
      if Unregisters(st, e, login) then None
      else if Registers(st, e, login) then Some(st.db.next)
      else S.UserId(st.db.t, login)
  {
    hide HandleLogged, S.Integrity, S.UserId, S.CreateUser;
    S.IntegrityParts(st.db);
    if e.Handled? && e.req.Register? {
      CreateUserId(st.db, e.req.username, e.env.hash(e.req.password), Write in e.env.faults, login);
      RegisterDatabase(st, e);
    } else if e.Handled? && CookieOf(e.req).Some? && !e.req.Logout? {
      var own := LoginOf(st.sessions, e.req.cookie);
      if own != [] { LoggedAccount(st, own, e.req, e.env, login); }
    } else {
      UserIdOf(st.db.t, Step(st, e).db.t, login);
    }
  }

  lemma RegisterDatabase(st: State, e: Event)
    requires e.Handled? && e.req.Register?
    ensures Step(st, e).db == S.CreateUser(st.db, e.req.username, e.env.hash(e.req.password), Write in e.env.faults).0
  {
    hide S.CreateUser;
  }

  lemma LoggedAccount(st: State, own: bytes, req: Request, env: Env, login: bytes)
    requires S.Integrity(st.db) && CookieOf(req).Some? && !req.Logout?
    ensures S.UserId(HandleLogged(st, own, req, env).0.db.t, login) ==
      if (req.Unregister? || req.RemoveUser?) && own == login && Write !in env.faults then None else S.UserId(st.db.t, login)
  {
    hide S.Integrity, S.UserId, S.RemoveUser, S.ChangePassword, S.UpdateServer, S.DeleteServer, S.AddKey, S.CreateNetwork,
      S.CreateInvitation, S.DeleteNetwork, S.PassHash, AllNetworksOf, OwnNetworksOf, S.ServersOf, S.UserInfo;
    S.IntegrityParts(st.db);
    if req.Unregister? || req.RemoveUser? {
      RemoveUserId(st.db, own, Write in env.faults, login);
    } else if req.ChangePassword? {
      ChangePasswordId(st.db, own, env.hash(req.newPassword), Write in env.faults, login);
    } else {
      OthersKeepUsers(st, own, req, env);
      UserIdOf(st.db.t, HandleLogged(st, own, req, env).0.db.t, login);
    }
  }

  // ---- Runs ------------------------------------------------------------------------------------

  /** The login was registered in the course of the run and its account not deleted since. */
  ghost predicate Reregistered(st: State, es: seq<Event>, login: bytes) {
    exists m :: 0 <= m < |es| && RegisteredAt(st, es, m, login)
  }

  ghost predicate RegisteredAt(st: State, es: seq<Event>, m: nat, login: bytes)
    requires m < |es|
  {
    && Registers(Run(st, es[..m]), es[m], login)
    && forall n :: m < n < |es| ==> !Unregisters(Run(st, es[..n]), es[n], login)
  }

  lemma ReregisteredStep(st: State, es: seq<Event>, login: bytes)
    requires es != []
    ensures var (k, d) := (|es| - 1, Run(st, es[..|es| - 1]));
      Reregistered(st, es, login) <==>
        !Unregisters(d, es[k], login) && (Registers(d, es[k], login) || Reregistered(st, es[..k], login))
  {
    hide Run, Registers, Unregisters;
    var k := |es| - 1;
    var front, d := es[..k], Run(st, es[..k]);
    assert forall n :: 0 <= n < k ==> front[..n] == es[..n] && front[n] == es[n];
    if Reregistered(st, es, login) {
      var m :| 0 <= m < |es| && RegisteredAt(st, es, m, login);
      if m < k {
        forall n | m < n < k ensures !Unregisters(Run(st, front[..n]), front[n], login) {
          assert front[..n] == es[..n];
        }
        assert front[..m] == es[..m];
        assert RegisteredAt(st, front, m, login);
      } else {
        NotBoth(d, es[k], login);
      }
    }
    if !Unregisters(d, es[k], login) {
      if Registers(d, es[k], login) {
        assert RegisteredAt(st, es, k, login);
      } else if Reregistered(st, front, login) {
        var m :| 0 <= m < |front| && RegisteredAt(st, front, m, login);
        forall n | m < n < |es| ensures !Unregisters(Run(st, es[..n]), es[n], login) {
          if n < k { assert front[..n] == es[..n]; }
        }
        assert front[..m] == es[..m];
        assert RegisteredAt(st, es, m, login);
      }
    }
  }

  lemma NotBoth(st: State, e: Event, login: bytes)
    ensures !(Registers(st, e, login) && Unregisters(st, e, login))
  {
  }

  lemma KeysGrow(st: State, e: Event)
    requires S.Integrity(st.db)
    ensures st.db.next <= Step(st, e).db.next
  {
    hide Step, S.Integrity;
    StepOwnership(st, e, 0);
  }

  /** Over every run: the account of a login is another one than at the start exactly when the
      login was registered on the way and not deleted since. */
  lemma {:induction false} RunAccount(st: State, es: seq<Event>, login: bytes)
    requires S.Integrity(st.db)
    ensures var (a, b) := (S.UserId(st.db.t, login), S.UserId(Run(st, es).db.t, login));
      && (b.Some? && b != a <==> Reregistered(st, es, login))
      && (b.Some? && b != a ==> b.value >= st.db.next)
      && st.db.next <= Run(st, es).db.next
  {
    hide Step, S.Integrity, S.UserId, Reregistered, Registers, Unregisters;
    if es == [] {
      NotYet(st, login);
    } else {
      var k := |es| - 1;
      RunAccount(st, es[..k], login);
      RunIntegrity(st, es[..k]);
      StepAccount(Run(st, es[..k]), es[k], login);
      KeysGrow(Run(st, es[..k]), es[k]);
      ReregisteredStep(st, es, login);
      Older(st.db, login);
    }
  }

  lemma NotYet(st: State, login: bytes)
    ensures !Reregistered(st, [], login)
  {
  }

  lemma Older(db: S.Database, login: bytes)
    requires S.Integrity(db)
    ensures S.UserId(db.t, login).Some? ==> S.UserId(db.t, login).value < db.next
  {
  }

  // ---- Sessions ----------------------------------------------------------------------------------

  /** The step ends the session, or draws its cookie again. */
  ghost predicate Touches(st: State, e: Event, cookie: bytes) {
    match e
    case Handled(req, env) =>
      || (req.Logout? && req.cookie == cookie)
      || (req.RemoveUser? && req.cookie == cookie && LoginOf(st.sessions, cookie) != [])
      || (Handle(st, req, env).1.LoggedIn? && env.cookie == cookie)
    case SessionsCleaned(cutoff) => cookie in st.sessions && st.sessions[cookie].time > cutoff
    case ServersCleaned(_, _, _) => false
  }

  lemma StepSession(st: State, e: Event, cookie: bytes)
    requires !Touches(st, e, cookie) && cookie in st.sessions
    ensures cookie in Step(st, e).sessions && Step(st, e).sessions[cookie] == st.sessions[cookie]
  {
    hide S.UserId, S.NetworkId, S.LinkId, S.References, AllNetworksOf, OwnNetworksOf, S.PassHash;
  }

  lemma {:induction false} RunSession(st: State, es: seq<Event>, cookie: bytes)
    requires cookie in st.sessions
    requires forall k :: 0 <= k < |es| ==> !Touches(Run(st, es[..k]), es[k], cookie)
    ensures cookie in Run(st, es).sessions && Run(st, es).sessions[cookie] == st.sessions[cookie]
  {
    hide Step, Touches;
    if es != [] {
      var k := |es| - 1;
      forall n | 0 <= n < k ensures !Touches(Run(st, es[..k][..n]), es[..k][n], cookie) {
        assert es[..k][..n] == es[..n];
      }
      RunSession(st, es[..k], cookie);
      StepSession(Run(st, es[..k]), es[k], cookie);
    }
  }

  /** A cookie outlives its account. While nothing ends its session it stands for the same
      login, and it acts for another account than before exactly when that login was registered
      anew on the way and not deleted since. */
  lemma CookieOutlivesAccount(st: State, es: seq<Event>, cookie: bytes)
    requires S.Integrity(st.db) && cookie in st.sessions
    requires forall k :: 0 <= k < |es| ==> !Touches(Run(st, es[..k]), es[k], cookie)
    ensures var (d, login) := (Run(st, es), LoginOf(st.sessions, cookie));
      var (a, b) := (S.UserId(st.db.t, login), S.UserId(d.db.t, login));
      && LoginOf(d.sessions, cookie) == login
      && (b.Some? && b != a <==> Reregistered(st, es, login))
  {
    hide Step, Touches, S.Integrity, S.UserId, Reregistered, Run;
    RunSession(st, es, cookie);
    RunAccount(st, es, LoginOf(st.sessions, cookie));
  }

  /** "a" unregisters, somebody registers "a", and the old cookie is a session of the new "a". */
  lemma StrangerInherits()
    ensures var st := D.Sample(map[], map[]);
      var es := [Handled(Unregister(D.COOKIE), D.Calm(0)), Handled(Register(D.A, [], []), D.Calm(0))];
      var d := Run(st, es);
      && S.Integrity(st.db) && LoginOf(d.sessions, D.COOKIE) == D.A
      && S.UserId(st.db.t, D.A) == Some(0) && S.UserId(d.db.t, D.A) == Some(4)
  {
    hide S.Integrity, S.UserId, D.Sample, Step;
    var st := D.Sample(map[], map[]);
    var e, f := Handled(Unregister(D.COOKIE), D.Calm(0)), Handled(Register(D.A, [], []), D.Calm(0));
    D.SampleIds(st, map[], map[]);
    D.SampleIntegrity(map[], map[]);
    D.NoKeys(map[], map[]);
    TwoSteps(st, e, f);
    StepAccount(st, e, D.A);
    StepIntegrity(st, e);
    StepAccount(Step(st, e), f, D.A);
    Inherited(st);
  }

  lemma TwoSteps(st: State, e: Event, f: Event)
    ensures Run(st, [e, f]) == Step(Step(st, e), f)
  {
    hide Step;
    var es, one := [e, f], [e];
    assert es[..|es| - 1] == one && one[..|one| - 1] == [];
    assert Run(st, []) == st;
    assert Run(st, one) == Step(st, e);
  }

  lemma Inherited(st: State)
    requires S.Integrity(st.db) && LoginOf(st.sessions, D.COOKIE) == D.A && S.UserId(st.db.t, D.A).Some?
    ensures var (e, f) := (Handled(Unregister(D.COOKIE), D.Calm(0)), Handled(Register(D.A, [], []), D.Calm(0)));
      && Unregisters(st, e, D.A) && Step(st, e).db.next == st.db.next && Registers(Step(st, e), f, D.A)
      && LoginOf(Step(Step(st, e), f).sessions, D.COOKIE) == D.A
  {
    hide S.Integrity, S.UserId, S.DropUser;
    var e := Handled(Unregister(D.COOKIE), D.Calm(0));
    StepAccount(st, e, D.A);
  }
}
