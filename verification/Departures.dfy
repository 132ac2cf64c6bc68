/** Where the tracker does something else than its protocol says: exactly when, and at which
    inputs. */
module Departures {
  import opened Bytes
  import opened Sessions
  import opened Protocol
  import opened Tracker
  import opened TrackerRuns
  import S = Statements

  // ---- REMOVE_USER -------------------------------------------------------------------------

  /** The user of this login holds an invitation to the network of this name. */
  ghost predicate Member(t: S.Tables, user: bytes, network: bytes) {
    S.LinkId(t.invitations, S.UserId(t, user), S.NetworkId(t, network)).Some?
  }

  /** The session's account owns the network of this name. */
  ghost predicate OwnsNamed(t: S.Tables, login: bytes, network: bytes) {
    var n := S.NetworkId(t, network);
    n.Some? && S.UserId(t, login) == Some(t.networks[n.value].owner)
  }

  /** What the sub-selects find after the cascade of a deleted user. */
  lemma IdsAfterDrop(db: S.Database, login: bytes, user: bytes, network: bytes)
    requires S.Integrity(db) && S.UserId(db.t, login).Some?
    ensures var t := S.DropUser(db.t, S.UserId(db.t, login).value);
      && S.UserId(t, user) == (if user == login then None else S.UserId(db.t, user))
      && S.NetworkId(t, network) == (if OwnsNamed(db.t, login, network) then None else S.NetworkId(db.t, network))
  {
    var u := S.UserId(db.t, login).value;
    var t := S.DropUser(db.t, u);
    if S.UserId(db.t, user).Some? && user != login {
      assert S.UserId(db.t, user).value in t.users;
    }
    if S.NetworkId(db.t, network).Some? && !OwnsNamed(db.t, login, network) {
      assert S.NetworkId(db.t, network).value in t.networks;
    }
  }

  lemma MemberAfterDrop(db: S.Database, login: bytes, user: bytes, network: bytes)
    requires S.Integrity(db) && S.UserId(db.t, login).Some?
    ensures var t := S.DropUser(db.t, S.UserId(db.t, login).value);
      Member(t, user, network) <==> Member(db.t, user, network) && user != login && !OwnsNamed(db.t, login, network)
  {
    hide S.Integrity, S.UserId, S.NetworkId;
    var u := S.UserId(db.t, login).value;
    var t := S.DropUser(db.t, u);
    IdsAfterDrop(db, login, user, network);
    if user != login && !OwnsNamed(db.t, login, network) {
      SameLinks(db.t, u, S.UserId(db.t, user), S.NetworkId(db.t, network));
    }
  }

  lemma SameLinks(t: S.Tables, u: nat, x: Option<nat>, n: Option<nat>)
    requires x != Some(u) && (n.Some? ==> n.value in t.networks && t.networks[n.value].owner != u)
    ensures S.LinkId(S.DropUser(t, u).invitations, x, n).Some? <==> S.LinkId(t.invitations, x, n).Some?
  {
    var i := S.LinkId(t.invitations, x, n);
    if i.Some? { assert i.value in S.DropUser(t, u).invitations; }
  }

  /** REMOVE_USER is documented as "Remove user from network". After an OK the named user's
      invitation is gone exactly when there was none, or it is the session's own, or the
      session's account owned the network, which went with it. */
  lemma RemoveUserRemoves(st: State, c: bytes, user: bytes, network: bytes, env: Env)
    requires S.Integrity(st.db)
    ensures var (st', reply) := Handle(st, RemoveUser(c, user, network), env);
      var login := LoginOf(st.sessions, c);
      Code(reply) == OK ==>
        (!Member(st'.db.t, user, network) <==>
           !Member(st.db.t, user, network) || user == login || OwnsNamed(st.db.t, login, network))
  {
    hide S.Integrity, S.DropUser, Member, OwnsNamed;
    var login := LoginOf(st.sessions, c);
    if S.UserId(st.db.t, login).Some? {
      MemberAfterDrop(st.db, login, user, network);
    } else {
      NobodyIsMember(st.db.t, login, user, network);
    }
  }

  lemma NobodyIsMember(t: S.Tables, login: bytes, user: bytes, network: bytes)
    requires S.UserId(t, login).None?
    ensures !OwnsNamed(t, login, network) && (user == login ==> !Member(t, user, network))
  {
  }

  // ---- Inputs at which it shows ------------------------------------------------------------

  const A: bytes := [97]
  const B: bytes := [98]
  const COOKIE: bytes := [99]
  const NET: bytes := [110]

  /** Nothing in the database fails, every password is right, and no key can be signed. */
  function Calm(now: int): Env {
    Env(now, COOKIE, p => [], (p, h) => true, k => [], [], [], n => false, {})
  }

  /** Users "a" and "b", a network "n" of the latter's that "a" may serve, and a session of "a". */
  function Sample(servers: map<nat, S.Link<S.Endpoint>>, invitations: map<nat, S.Link<()>>): State {
    State(
      S.Database(
        S.Tables(map[0 := S.User(A, []), 1 := S.User(B, [])],
                 map[2 := S.Network(1, NET, true, true, true, [], [])], servers, invitations, map[]),
        4),
      map[COOKIE := Session(A, 0)])
  }

  lemma SampleIds(st: State, servers: map<nat, S.Link<S.Endpoint>>, invitations: map<nat, S.Link<()>>)
    requires st == Sample(servers, invitations)
    ensures S.UserId(st.db.t, A) == Some(0) && S.UserId(st.db.t, B) == Some(1) && S.NetworkId(st.db.t, NET) == Some(2)
    ensures LoginOf(st.sessions, COOKIE) == A && st.db.t.networks[2].participable && st.db.t.networks[2].owner == 1
  {
    assert st.db.t.users[0].login == A && st.db.t.users[1].login == B && st.db.t.networks[2].name == NET;
  }

  lemma SampleIntegrity(servers: map<nat, S.Link<S.Endpoint>>, invitations: map<nat, S.Link<()>>)
    requires servers.Keys <= {3} && (3 in servers ==> servers[3].user == 0 && servers[3].network == 2)
    requires invitations.Keys <= {3} && (3 in invitations ==> invitations[3].user == 1 && invitations[3].network == 2)
    ensures S.Integrity(Sample(servers, invitations).db)
  {
  }

  /** REMOVE_USER is answered OK and the named user is still a member. */
  lemma RemoveUserLeavesTheNamed()
    ensures var st := Sample(map[], map[3 := S.Link(1, 2, ())]);
      var (st', reply) := Handle(st, RemoveUser(COOKIE, B, NET), Calm(0));
      && S.Integrity(st.db) && Code(reply) == OK
      && Member(st'.db.t, B, NET) && S.UserId(st'.db.t, A).None?
  {
    hide S.Integrity, S.DropUser, OwnsNamed, Sample, S.UserId, S.NetworkId;
    var invitations := map[3 := S.Link(1, 2, ())];
    var st := Sample(map[], invitations);
    SampleIds(st, map[], invitations);
    SampleIntegrity(map[], invitations);
    MemberBefore(invitations);
    IdsAfterDrop(st.db, A, A, NET);
    MemberAfterDrop(st.db, A, B, NET);
  }

  lemma MemberBefore(invitations: map<nat, S.Link<()>>)
    requires invitations == map[3 := S.Link(1, 2, ())]
    ensures var t := Sample(map[], invitations).db.t; Member(t, B, NET) && !OwnsNamed(t, A, NET)
  {
    SampleIds(Sample(map[], invitations), map[], invitations);
    hide S.UserId, S.NetworkId;
    assert 3 in Sample(map[], invitations).db.t.invitations;
  }

  lemma ServerBefore(servers: map<nat, S.Link<S.Endpoint>>)
    requires servers == map[3 := S.Link(0, 2, S.Endpoint([], 1, 0))]
    ensures var t := Sample(servers, map[]).db.t;
      t.servers == servers && S.LinkId(t.servers, S.UserId(t, A), S.NetworkId(t, NET)) == Some(3)
  {
    hide S.UserId, S.NetworkId;
    SampleIds(Sample(servers, map[]), servers, map[]);
    assert 3 in servers;
  }

  /** UPDATE_SERVER is answered OK and the old port stays. */
  lemma UpdateServerForgets()
    ensures var st := Sample(map[3 := S.Link(0, 2, S.Endpoint([], 1, 0))], map[]);
      var req := UpdateServer(COOKIE, NET, 2);
      var (st', reply) := Handle(st, req, Calm(0));
      && S.Integrity(st.db) && reply.ServerUpdated?
      && !Stored(st'.db.t, S.UserId(st.db.t, A), S.NetworkId(st.db.t, NET), ServerRow(req, Calm(0)))
  {
    hide S.Integrity, S.UserId, S.NetworkId, S.LinkId, Sample;
    var servers := map[3 := S.Link(0, 2, S.Endpoint([], 1, 0))];
    var st := Sample(servers, map[]);
    SampleIds(st, servers, map[]);
    SampleIntegrity(servers, map[]);
    ServerBefore(servers);
  }

  /** STOP_SERVER deletes the server and answers a bad request. */
  lemma StopServerDeniesIt()
    ensures var st := Sample(map[3 := S.Link(0, 2, S.Endpoint([], 1, 0))], map[]);
      var (st', reply) := Handle(st, StopServer(COOKIE, NET), Calm(0));
      S.Integrity(st.db) && Code(reply) == BAD_REQUEST && st'.db.t.servers == map[]
  {
    hide S.Integrity, S.UserId, S.NetworkId, S.LinkId, Sample;
    var servers := map[3 := S.Link(0, 2, S.Endpoint([], 1, 0))];
    var st := Sample(servers, map[]);
    SampleIds(st, servers, map[]);
    SampleIntegrity(servers, map[]);
    ServerBefore(servers);
    assert servers - {3} == map[];
  }

  /** A REGISTER whose key cannot be signed is a bad request, and the user is there. */
  lemma RegisterStays()
    ensures var (st', reply) := Handle(START, Register(A, [], []), Calm(0));
      Code(reply) == BAD_REQUEST && S.UserId(st'.db.t, A).Some?
  {
    var st' := Handle(START, Register(A, [], []), Calm(0)).0;
    assert st'.db.t.users[0].login == A;
  }

  /** A SIGN_KEY that fails is a bad request, and an empty key is stored. */
  lemma SignKeyStoresNothing()
    ensures var st := Sample(map[], map[]);
      var (st', reply) := Handle(st, SignKey(COOKIE, [], NET), Calm(0));
      S.Integrity(st.db) && Code(reply) == BAD_REQUEST && st'.db.t.keys == map[4 := S.Link(0, 2, [])]
  {
    hide S.Integrity, S.UserId, S.NetworkId, Sample;
    var st := Sample(map[], map[]);
    SampleIds(st, map[], map[]);
    SampleIntegrity(map[], map[]);
    NoKeys(map[], map[]);
  }

  lemma NoKeys(servers: map<nat, S.Link<S.Endpoint>>, invitations: map<nat, S.Link<()>>)
    ensures var db := Sample(servers, invitations).db; db.t.keys == map[] && db.next == 4
  {
  }

  // ---- Server lifetimes --------------------------------------------------------------------

  /** The servers a request with this environment has stored are still there after a cleaning. */
  ghost predicate StoredSurvives(st: State, req: Request, env: Env, now: int, ttl: int)
    requires req.UpdateServer?
  {
    var st' := Step(Handle(st, req, env).0, ServersCleaned(now, ttl, false));
    st.db.next in st'.db.t.servers
  }

  /** A lifetime is stored as milliseconds cut to 32 bits and cleaned against seconds: a server
      just stored survives the next cleaning exactly when that cut value is not below it. */
  lemma ServerSurvives(st: State, req: Request, env: Env, now: int, ttl: int)
    requires S.Integrity(st.db) && req.UpdateServer? && Handle(st, req, env).1.ServerUpdated?
    requires S.LinkId(st.db.t.servers, S.UserId(st.db.t, LoginOf(st.sessions, req.cookie)), S.NetworkId(st.db.t, req.network)).None?
    ensures StoredSurvives(st, req, env, now, ttl) <==> ToInt32(env.now + SERVER_TTL) >= now - ttl
  {
    hide S.UserId, S.NetworkId, S.References, S.Integrity;
    assert st.db.next in Handle(st, req, env).0.db.t.servers;
  }

  /** Of two servers stored with the clock at a full second, and cleaned with half an hour's
      grace, one goes in that same second; the other, stored some twenty days later, outlives
      its half hour by more than four years. */
  lemma LifetimesByChance()
    ensures var (st, req) := (Sample(map[], map[]), UpdateServer(COOKIE, NET, 1));
      && !StoredSurvives(st, req, Calm(1000 * 1400000000), 1400000000, 1800)
      && StoredSurvives(st, req, Calm(1000 * 1401900000), 1401900000 + 140000000, 1800)
  {
    hide Handle, StoredSurvives, S.Integrity, Sample;
    var (st, req) := (Sample(map[], map[]), UpdateServer(COOKIE, NET, 1));
    SampleIntegrity(map[], map[]);
    ServerStored(1000 * 1400000000);
    ServerStored(1000 * 1401900000);
    ServerSurvives(st, req, Calm(1000 * 1400000000), 1400000000, 1800);
    ServerSurvives(st, req, Calm(1000 * 1401900000), 1401900000 + 140000000, 1800);
  }

  lemma ServerStored(now: int)
    ensures var (st, req) := (Sample(map[], map[]), UpdateServer(COOKIE, NET, 1));
      && Handle(st, req, Calm(now)).1.ServerUpdated?
      && S.LinkId(st.db.t.servers, S.UserId(st.db.t, LoginOf(st.sessions, COOKIE)), S.NetworkId(st.db.t, NET)).None?
  {
    hide S.UserId, S.NetworkId;
    SampleIds(Sample(map[], map[]), map[], map[]);
  }
}
