/** Which password lets a user in, over whole runs: the one of the last step that set it. */
module Passwords {
  import opened Bytes
  import opened Sessions
  import opened Protocol
  import opened Tracker
  import opened TrackerRuns
  import opened Answers
  import A = Accounts
  import S = Statements

  /** The row of this login holds this hash. */
  ghost predicate Stored(t: S.Tables, login: bytes, hash: bytes) {
    exists u: nat :: IsUser(t, u, login) && t.users[u].password == hash
  }

  /** The step creates the account of this login, changes its password or deletes it, to judge
      by the request and its answer. */
  ghost predicate Renews(st: State, e: Event, login: bytes) {
    && e.Handled?
    && var code := Code(Handle(st, e.req, e.env).1);
      || (e.req.Register? && e.req.username == login && (code == OK || code == BAD_REQUEST))
      || ((e.req.ChangePassword? || e.req.Unregister? || e.req.RemoveUser?) && Live(st, e.req.cookie, login) && code == OK)
  }

  /** The step sets the password of this login to this hash. */
  ghost predicate Sets(st: State, e: Event, login: bytes, hash: bytes) {
    && Renews(st, e, login)
    && if e.req.Register? then hash == e.env.hash(e.req.password)
       else e.req.ChangePassword? && hash == e.env.hash(e.req.newPassword) && SomeUser(st.db.t, login)
  }

  lemma RemovalKeepsOthers(db: S.Database, user: bytes, fault: bool, login: bytes, hash: bytes)
    requires S.Integrity(db) && login != user
    ensures Stored(S.RemoveUser(db, user, fault).0.t, login, hash) <==> Stored(db.t, login, hash)
  {
    hide S.Unique, S.References, S.Drawn;
    var d := S.RemoveUser(db, user, fault).0.t;
    assert forall u: nat :: IsUser(db.t, u, login) ==> IsUser(d, u, login) && d.users[u] == db.t.users[u];
    assert forall u: nat :: IsUser(d, u, login) ==> IsUser(db.t, u, login) && d.users[u] == db.t.users[u];
  }

  lemma ChangeKeepsOthers(db: S.Database, user: bytes, h: bytes, fault: bool, login: bytes, hash: bytes)
    requires S.Integrity(db) && login != user
    ensures Stored(S.ChangePassword(db, user, h, fault).0.t, login, hash) <==> Stored(db.t, login, hash)
  {
    hide S.Unique, S.References, S.Drawn;
    var d := S.ChangePassword(db, user, h, fault).0.t;
    assert forall u: nat :: IsUser(db.t, u, login) ==> IsUser(d, u, login) && d.users[u] == db.t.users[u];
    assert forall u: nat :: IsUser(d, u, login) ==> IsUser(db.t, u, login) && d.users[u] == db.t.users[u];
  }

  lemma SameUsers(a: S.Tables, b: S.Tables, login: bytes, hash: bytes)
    requires a.users == b.users
    ensures Stored(a, login, hash) <==> Stored(b, login, hash)
  {
    assert forall u: nat :: IsUser(a, u, login) <==> IsUser(b, u, login);
  }

  lemma StepRegister(st: State, e: Event, login: bytes, hash: bytes)
    requires S.Integrity(st.db) && e.Handled? && e.req.Register?
    ensures Sets(st, e, login, hash) ==> Stored(Step(st, e).db.t, login, hash)
    ensures !Renews(st, e, login) ==> (Stored(Step(st, e).db.t, login, hash) <==> Stored(st.db.t, login, hash))
  {
    hide S.Integrity, Handle;
    RegisterAnswered(st, e.req.username, e.req.password, e.req.publicKey, e.env);
    S.IntegrityParts(st.db);
    var d := Step(st, e).db.t;
    if d.users == st.db.t.users {
      SameUsers(d, st.db.t, login, hash);
    } else {
      assert IsUser(d, st.db.next, e.req.username);
      assert forall u: nat :: u != st.db.next ==> (IsUser(d, u, login) <==> IsUser(st.db.t, u, login));
    }
  }

  lemma StepLogged(st: State, e: Event, own: bytes, login: bytes, hash: bytes)
    requires S.Integrity(st.db) && e.Handled? && CookieOf(e.req).Some? && !e.req.Logout? && Live(st, e.req.cookie, own)
    ensures Sets(st, e, login, hash) ==> Stored(Step(st, e).db.t, login, hash)
    ensures !Renews(st, e, login) ==> (Stored(Step(st, e).db.t, login, hash) <==> Stored(st.db.t, login, hash))
  {
    hide S.Integrity, Handle, HandleLogged, Stored, S.RemoveUser, S.ChangePassword;
    var (req, env, c) := (e.req, e.env, e.req.cookie);
    LiveHandled(st, c, own, req, env);
    if req.ChangePassword? {
      ChangePasswordStored(st, c, own, req.oldPassword, req.newPassword, env, login, hash);
    } else if req.Unregister? || req.RemoveUser? {
      RemovedStored(st, e, own, login, hash);
    } else {
      A.OthersKeepUsers(st, own, req, env);
      SameUsers(Step(st, e).db.t, st.db.t, login, hash);
    }
  }

  lemma RemovedStored(st: State, e: Event, own: bytes, login: bytes, hash: bytes)
    requires S.Integrity(st.db) && e.Handled? && (e.req.Unregister? || e.req.RemoveUser?) && Live(st, e.req.cookie, own)
    ensures !Renews(st, e, login) ==> (Stored(Step(st, e).db.t, login, hash) <==> Stored(st.db.t, login, hash))
  {
    hide S.Integrity, Stored, S.RemoveUser, WithoutUser;
    var c := e.req.cookie;
    LiveHandled(st, c, own, e.req, e.env);
    if e.req.Unregister? { UnregisterAnswered(st, c, own, e.env); }
    else { RemoveUserAnswered(st, c, e.req.username, e.req.network, own, e.env); }
    if own != login { RemovalKeepsOthers(st.db, own, Write in e.env.faults, login, hash); }
    else { SameUsers(st.db.t, st.db.t, login, hash); }
  }

  lemma ChangePasswordStored(st: State, c: bytes, own: bytes, o: bytes, p: bytes, env: Env, login: bytes, hash: bytes)
    requires S.Integrity(st.db) && Live(st, c, own)
    ensures var e := Handled(ChangePassword(c, o, p), env);
      && (Sets(st, e, login, hash) ==> Stored(Step(st, e).db.t, login, hash))
      && (!Renews(st, e, login) ==> (Stored(Step(st, e).db.t, login, hash) <==> Stored(st.db.t, login, hash)))
  {
    hide S.Integrity, S.PassHash, S.ChangePassword, Accepts;
    ChangePasswordAnswered(st, c, own, o, p, env);
    LiveHandled(st, c, own, ChangePassword(c, o, p), env);
    if own != login {
      ChangeKeepsOthers(st.db, own, env.hash(p), Write in env.faults, login, hash);
    } else {
      var (t, d) := (st.db.t, Handle(st, ChangePassword(c, o, p), env).0.db.t);
      if d != t || Sets(st, Handled(ChangePassword(c, o, p), env), login, hash) {
        var u: nat :| IsUser(t, u, login) && d == t.(users := t.users[u := S.User(login, env.hash(p))]);
        assert IsUser(d, u, login);
      }
    }
  }

  /** A step that sets a password stores its hash, and one that does not touch the account
      leaves the stored one as it is. */
  lemma StepPassword(st: State, e: Event, login: bytes, hash: bytes)
    requires S.Integrity(st.db)
    ensures Sets(st, e, login, hash) ==> Stored(Step(st, e).db.t, login, hash)
    ensures !Renews(st, e, login) ==> (Stored(Step(st, e).db.t, login, hash) <==> Stored(st.db.t, login, hash))
  {
    hide S.Integrity, HandleLogged, HandleRegister, Stored, S.PassHash;
    if e.Handled? && e.req.Register? {
      StepRegister(st, e, login, hash);
    } else if e.Handled? && CookieOf(e.req).Some? && !e.req.Logout? && LoginOf(st.sessions, e.req.cookie) != [] {
      StepLogged(st, e, LoginOf(st.sessions, e.req.cookie), login, hash);
    } else {
      SameUsers(Step(st, e).db.t, st.db.t, login, hash);
    }
  }

  lemma {:induction false} RunPassword(st: State, es: seq<Event>, login: bytes, hash: bytes)
    requires S.Integrity(st.db)
    requires forall k :: 0 <= k < |es| ==> !Renews(Run(st, es[..k]), es[k], login)
    ensures Stored(Run(st, es).db.t, login, hash) <==> Stored(st.db.t, login, hash)
  {
    hide S.Integrity, Step, Stored, Renews;
    if es != [] {
      var k := |es| - 1;
      forall n | 0 <= n < k ensures !Renews(Run(st, es[..k][..n]), es[..k][n], login) {
        assert es[..k][..n] == es[..n];
      }
      RunPassword(st, es[..k], login, hash);
      RunIntegrity(st, es[..k]);
      StepPassword(Run(st, es[..k]), es[k], login, hash);
    }
  }

  /** From the step that sets a user's password to the next one that touches the account, LOGIN
      is judged by that step's hash. */
  lemma LoginAfterPassword(st: State, e: Event, es: seq<Event>, login: bytes, hash: bytes, p: bytes, env: Env)
    requires S.Integrity(st.db) && Sets(st, e, login, hash)
    requires forall k :: 0 <= k < |es| ==> !Renews(Run(Step(st, e), es[..k]), es[k], login)
    requires HashLookup !in env.faults
    ensures Code(Handle(Run(Step(st, e), es), Login(login, p), env).1) == OK <==> env.check(p, hash)
  {
    hide S.Integrity, Step, Sets, Renews, Handle, Run;
    var d := Step(st, e);
    StepIntegrity(st, e);
    StepPassword(st, e, login, hash);
    RunIntegrity(d, es);
    RunPassword(d, es, login, hash);
    var u: nat :| IsUser(Run(d, es).db.t, u, login) && Run(d, es).db.t.users[u].password == hash;
    LoginJudged(Run(d, es), u, login, p, env);
  }
}
