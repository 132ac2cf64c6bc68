/** The client's saved state: what the archive holds, how it is read back, and when reading it
    back restores what was saved. */
module Archive {
  import opened Bytes
  import opened ClientTypes

  // ---- Counts ----------------------------------------------------------------------------

  /** `std::to_string`. */
  function ToString(n: nat): (s: bytes)
    ensures s != [] && forall i :: 0 <= i < |s| ==> IsDigit(s[i])
  {
    if n < 10 then [48 + n] else ToString(n / 10) + [48 + n % 10]
  }

  predicate IsDigit(b: byte) { 48 <= b <= 57 }

  predicate IsSpace(b: byte) { b == 32 || 9 <= b <= 13 }

  function SkipSpaces(s: bytes): bytes {
    if s != [] && IsSpace(s[0]) then SkipSpaces(s[1..]) else s
  }

  /** The value of the leading digits, behind those already read. */
  function ReadDigits(s: bytes, acc: nat): nat {
    if s != [] && IsDigit(s[0]) then ReadDigits(s[1..], 10 * acc + (s[0] - 48)) else acc
  }

  /** `std::stoi`: spaces, a sign and at least one digit; what follows the digits is ignored.
      None when it throws. */
  function Stoi(s: bytes): Option<int> {
    var t := SkipSpaces(s);
    var signed := t != [] && (t[0] == 43 || t[0] == 45);
    var u := if signed then t[1..] else t;
    if u == [] || !IsDigit(u[0]) then None
    else
      var magnitude: int := ReadDigits(u, 0);
      var v := if signed && t[0] == 45 then -magnitude else magnitude;
      if IsInt32(v) then Some(v) else None
  }

  lemma {:induction false} ReadLastDigit(s: bytes, d: byte, acc: nat)
    requires IsDigit(d) && forall i :: 0 <= i < |s| ==> IsDigit(s[i])
    ensures ReadDigits(s + [d], acc) == 10 * ReadDigits(s, acc) + (d - 48)
  {
    if s == [] {
      assert (s + [d])[1..] == [];
    } else {
      assert (s + [d])[1..] == s[1..] + [d];
      ReadLastDigit(s[1..], d, 10 * acc + (s[0] - 48));
    }
  }

  lemma {:induction false} ReadToString(n: nat)
    ensures ReadDigits(ToString(n), 0) == n
  {
    if n < 10 {
      assert ToString(n)[1..] == [];
    } else {
      ReadToString(n / 10);
      ReadLastDigit(ToString(n / 10), 48 + n % 10, 0);
    }
  }

  /** A printed count reads back unless it is too large for an `int`. */
  lemma CountRoundTrip(n: nat)
    ensures Stoi(ToString(n)) == if n < TWO31 then Some(n) else None
  {
    ReadToString(n);
    assert IsDigit(ToString(n)[0]);
  }

  // ---- Stores ----------------------------------------------------------------------------

  /** What one read from the archive yields. */
  datatype Token =
    | Text(s: bytes)
    | NodeToken(node: NodeDescription, user: MyUser)
    | NetworkToken(network: NetworkDescription)
    | RelatedToken(related: seq<NodeDescription>)

  /** An entry of `nodes_map`: its key, and the node's own description and user. */
  datatype NodeRecord = NodeRecord(key: NodeDescription, description: NodeDescription, user: MyUser)

  /** An entry of `networks_map`: its key, the network's own description, and the keys of its
      `node_set`. */
  datatype NetworkRecord = NetworkRecord(
    key: NetworkDescription, description: NetworkDescription, associated: map<bytes, NodeDescription>)

  /** The two maps, whose keys compare by name. */
  datatype Store = Store(nodes: map<bytes, NodeRecord>, networks: map<bytes, NetworkRecord>)

  const EMPTY := Store(map[], map[])

  // ---- Saving ----------------------------------------------------------------------------

  /** In which order the maps are walked. */
  datatype Order = Order(nodes: seq<bytes>, networks: seq<bytes>, related: map<bytes, seq<bytes>>)

  ghost predicate Enumerates(ks: seq<bytes>, s: set<bytes>) {
    && (forall i, j :: 0 <= i < j < |ks| ==> ks[i] != ks[j])
    && (forall k :: k in ks <==> k in s)
  }

  lemma EnumeratesNext(ks: seq<bytes>, all: set<bytes>, todo: set<bytes>, k: bytes)
    requires Enumerates(ks, all - todo) && k in todo && todo <= all
    ensures k !in ks && Enumerates(ks + [k], all - (todo - {k}))
  {
    assert k !in ks;
    forall j ensures j in ks + [k] <==> j in all - (todo - {k}) {
      assert j in ks <==> j in all - todo;
    }
  }

  ghost predicate IsOrder(st: Store, o: Order) {
    && Enumerates(o.nodes, st.nodes.Keys)
    && Enumerates(o.networks, st.networks.Keys)
    && forall k :: k in st.networks ==> k in o.related && Enumerates(o.related[k], st.networks[k].associated.Keys)
  }

  function NodeTokens(m: map<bytes, NodeRecord>, ks: seq<bytes>): (ts: seq<Token>)
    requires forall k :: k in ks ==> k in m
    ensures |ts| == |ks|
  {
    if ks == [] then [] else [NodeToken(m[ks[0]].description, m[ks[0]].user)] + NodeTokens(m, ks[1..])
  }

  function Related(m: map<bytes, NodeDescription>, ks: seq<bytes>): (ds: seq<NodeDescription>)
    requires forall k :: k in ks ==> k in m
    ensures |ds| == |ks| && forall i :: 0 <= i < |ks| ==> ds[i] == m[ks[i]]
  {
    seq(|ks|, i requires 0 <= i < |ks| => m[ks[i]])
  }

  ghost predicate Relates(m: map<bytes, NetworkRecord>, ks: seq<bytes>, rs: map<bytes, seq<bytes>>) {
    forall k :: k in ks ==> k in m && k in rs && forall a :: a in rs[k] ==> a in m[k].associated
  }

  ghost function NetworkTokens(m: map<bytes, NetworkRecord>, ks: seq<bytes>, rs: map<bytes, seq<bytes>>): (ts: seq<Token>)
    requires Relates(m, ks, rs)
  {
    if ks == [] then []
    else [NetworkToken(m[ks[0]].description), RelatedToken(Related(m[ks[0]].associated, rs[ks[0]]))]
         + NetworkTokens(m, ks[1..], rs)
  }

  lemma {:induction false} NodeTokensAppend(m: map<bytes, NodeRecord>, ks: seq<bytes>, k: bytes)
    requires k in m && forall j :: j in ks ==> j in m
    ensures NodeTokens(m, ks + [k]) == NodeTokens(m, ks) + [NodeToken(m[k].description, m[k].user)]
  {
    if ks == [] {
      assert ([] + [k])[1..] == [];
    } else {
      assert (ks + [k])[1..] == ks[1..] + [k];
      NodeTokensAppend(m, ks[1..], k);
    }
  }

  /** `names` are the associations of `k`, the network written last. */
  lemma {:induction false} NetworkTokensAppend(
    m: map<bytes, NetworkRecord>, ks: seq<bytes>, rs: map<bytes, seq<bytes>>, k: bytes, names: seq<bytes>)
    requires Relates(m, ks, rs) && k !in ks && k in m && forall a :: a in names ==> a in m[k].associated
    ensures Relates(m, ks + [k], rs[k := names])
    ensures NetworkTokens(m, ks + [k], rs[k := names]) ==
            NetworkTokens(m, ks, rs) + [NetworkToken(m[k].description), RelatedToken(Related(m[k].associated, names))]
  {
    if ks == [] {
      assert ([] + [k])[1..] == [];
    } else {
      assert (ks + [k])[1..] == ks[1..] + [k];
      NetworkTokensAppend(m, ks[1..], rs, k, names);
    }
  }

  /** The archive `saveState` writes. */
  ghost function Print(st: Store, o: Order): seq<Token>
    requires IsOrder(st, o)
  {
    [Text(ToString(|st.nodes|))]
    + (NodeTokens(st.nodes, o.nodes)
       + ([Text(ToString(|st.networks|))] + NetworkTokens(st.networks, o.networks, o.related)))
  }

  /** `ts` is what `saveState` may write, walking the maps in some order. */
  ghost predicate Prints(st: Store, ts: seq<Token>) {
    exists o :: IsOrder(st, o) && ts == Print(st, o)
  }

  // ---- Loading ---------------------------------------------------------------------------

  /** What has been loaded, what is left to read, and whether an exception ended it. */
  datatype Loading = Loading(store: Store, rest: seq<Token>, ok: bool)

  /** `nodes_map[description] = node`: a key already there stays. */
  function FileNode(nodes: map<bytes, NodeRecord>, d: NodeDescription, u: MyUser): map<bytes, NodeRecord> {
    nodes[d.name := NodeRecord(if d.name in nodes then nodes[d.name].key else d, d, u)]
  }

  function PutNode(st: Store, d: NodeDescription, u: MyUser): Store {
    st.(nodes := FileNode(st.nodes, d, u))
  }

  function LoadNodes(st: Store, ts: seq<Token>, n: int): Loading
    decreases n
  {
    if n <= 0 then Loading(st, ts, true)
    else if ts == [] || !ts[0].NodeToken? then Loading(st, ts, false)
    else LoadNodes(PutNode(st, ts[0].node, ts[0].user), ts[1..], n - 1)
  }

  /** `node_set.insert`: an association already there stays. */
  function Insert(m: map<bytes, NodeDescription>, d: NodeDescription): map<bytes, NodeDescription> {
    if d.name in m then m else m[d.name := d]
  }

  /** The loop over the related nodes: it ends at the first that is not in `nodes_map`. */
  function Associate(nodes: map<bytes, NodeRecord>, m: map<bytes, NodeDescription>, ds: seq<NodeDescription>)
    : (map<bytes, NodeDescription>, bool)
    decreases |ds|
  {
    if ds == [] then (m, true)
    else if ds[0].name !in nodes then (m, false)
    else Associate(nodes, Insert(m, nodes[ds[0].name].description), ds[1..])
  }

  function PutNetwork(st: Store, d: NetworkDescription, a: map<bytes, NodeDescription>): Store {
    st.(networks := st.networks[d.name := NetworkRecord(if d.name in st.networks then st.networks[d.name].key else d, d, a)])
  }

  function LoadNetworks(st: Store, ts: seq<Token>, n: int): Loading
    decreases n
  {
    if n <= 0 then Loading(st, ts, true)
    else if ts == [] || !ts[0].NetworkToken? then Loading(st, ts, false)
    else if |ts| == 1 || !ts[1].RelatedToken? then Loading(PutNetwork(st, ts[0].network, map[]), ts[1..], false)
    else
      var (a, ok) := Associate(st.nodes, map[], ts[1].related);
      var next := PutNetwork(st, ts[0].network, a);
      if ok then LoadNetworks(next, ts[2..], n - 1) else Loading(next, ts[2..], false)
  }

  /** One round of the loop, seen as filing the network first and then filling it. */
  lemma LoadNetworksRound(st: Store, ts: seq<Token>, n: int)
    requires n > 0 && ts != [] && ts[0].NetworkToken?
    ensures var filed := PutNetwork(st, ts[0].network, map[]);
      if |ts| == 1 || !ts[1].RelatedToken? then LoadNetworks(st, ts, n) == Loading(filed, ts[1..], false)
      else
        var (a, ok) := Associate(st.nodes, map[], ts[1].related);
        var name := ts[0].network.name;
        var filled := filed.(networks := filed.networks[name := filed.networks[name].(associated := a)]);
        LoadNetworks(st, ts, n) == if ok then LoadNetworks(filled, ts[2..], n - 1) else Loading(filled, ts[2..], false)
  {
    hide Associate;
    if |ts| > 1 && ts[1].RelatedToken? {
      var (a, ok) := Associate(st.nodes, map[], ts[1].related);
      var filed, name := PutNetwork(st, ts[0].network, map[]), ts[0].network.name;
      assert filed.networks[name := filed.networks[name].(associated := a)] == PutNetwork(st, ts[0].network, a).networks;
    }
  }

  /** A count, then as many entries as it says: none when it is negative. */
  function ReadCount(ts: seq<Token>): Option<int> {
    if ts == [] || !ts[0].Text? then None else Stoi(ts[0].s)
  }

  /** `loadState` on any stream of tokens. */
  function Load(ts: seq<Token>): Loading {
    match ReadCount(ts)
    case None => Loading(EMPTY, ts, false)
    case Some(n) =>
      var l := LoadNodes(EMPTY, ts[1..], n);
      if !l.ok then l
      else
        match ReadCount(l.rest)
        case None => Loading(l.store, l.rest, false)
        case Some(m) => LoadNetworks(l.store, l.rest[1..], m)
  }

  // ---- Closure ---------------------------------------------------------------------------

  /** Every association is one of a node in `nodes_map`. */
  ghost predicate Points(m: map<bytes, NodeDescription>, nodes: map<bytes, NodeRecord>) {
    forall a :: a in m ==> a in nodes && m[a] == nodes[a].description
  }

  /** Keys are descriptions by name, and every association is one of a node in `nodes_map`. */
  ghost predicate Closed(st: Store) {
    && (forall k :: k in st.nodes ==> st.nodes[k].key.name == k && st.nodes[k].description.name == k)
    && (forall k :: k in st.networks ==> st.networks[k].key.name == k && st.networks[k].description.name == k)
    && (forall k :: k in st.networks ==> Points(st.networks[k].associated, st.nodes))
  }

  lemma {:induction false} LoadNodesClosed(st: Store, ts: seq<Token>, n: int)
    requires Closed(st) && st.networks == map[]
    ensures Closed(LoadNodes(st, ts, n).store) && LoadNodes(st, ts, n).store.networks == map[]
    decreases n
  {
    if n > 0 && ts != [] && ts[0].NodeToken? {
      LoadNodesClosed(PutNode(st, ts[0].node, ts[0].user), ts[1..], n - 1);
    }
  }

  lemma {:induction false} AssociateClosed(nodes: map<bytes, NodeRecord>, m: map<bytes, NodeDescription>, ds: seq<NodeDescription>)
    requires forall k :: k in nodes ==> nodes[k].description.name == k
    requires Points(m, nodes)
    ensures Points(Associate(nodes, m, ds).0, nodes)
    decreases |ds|
  {
    if ds != [] && ds[0].name in nodes {
      AssociateClosed(nodes, Insert(m, nodes[ds[0].name].description), ds[1..]);
    }
  }

  lemma PutNetworkClosed(st: Store, d: NetworkDescription, ds: seq<NodeDescription>)
    requires Closed(st)
    ensures Closed(PutNetwork(st, d, map[])) && Closed(PutNetwork(st, d, Associate(st.nodes, map[], ds).0))
  {
    AssociateClosed(st.nodes, map[], ds);
    assert Points(map[], st.nodes);
    hide Associate, Points;
  }

  lemma {:induction false} LoadNetworksClosed(st: Store, ts: seq<Token>, n: int)
    requires Closed(st)
    ensures Closed(LoadNetworks(st, ts, n).store)
    decreases n
  {
    hide Closed, Associate, PutNetwork;
    if n > 0 && ts != [] && ts[0].NetworkToken? {
      PutNetworkClosed(st, ts[0].network, []);
      if |ts| > 1 && ts[1].RelatedToken? {
        PutNetworkClosed(st, ts[0].network, ts[1].related);
        var (a, ok) := Associate(st.nodes, map[], ts[1].related);
        if ok { LoadNetworksClosed(PutNetwork(st, ts[0].network, a), ts[2..], n - 1); }
      }
    }
  }

  /** Whatever the source holds, and even when loading ends in an exception. */
  lemma LoadClosed(ts: seq<Token>)
    ensures Closed(Load(ts).store)
  {
    var n := ReadCount(ts);
    if n.Some? {
      var l := LoadNodes(EMPTY, ts[1..], n.value);
      LoadNodesClosed(EMPTY, ts[1..], n.value);
      if l.ok && ReadCount(l.rest).Some? {
        LoadNetworksClosed(l.store, l.rest[1..], ReadCount(l.rest).value);
      }
    }
  }

  // ---- Round trip ------------------------------------------------------------------------

  /** Networks and associations are filed under the names they have: nothing renames them. */
  ghost predicate NetworksKeyed(st: Store) {
    && (forall k :: k in st.networks ==> st.networks[k].description.name == k)
    && (forall k, a :: k in st.networks && a in st.networks[k].associated ==> st.networks[k].associated[a].name == a)
  }

  /** So are the nodes, as long as none was renamed. */
  ghost predicate Keyed(st: Store) {
    NetworksKeyed(st) && forall k :: k in st.nodes ==> st.nodes[k].description.name == k
  }

  /** Some node bears this name, whatever key it is filed under. */
  ghost predicate HasNode(nodes: map<bytes, NodeRecord>, name: bytes) {
    exists k :: k in nodes && nodes[k].description.name == name
  }

  /** Every associated node's name is borne by a node. */
  ghost predicate AllNamed(st: Store) {
    forall k :: k in st.networks ==> AssociatesNamed(st.nodes, st.networks[k])
  }

  ghost predicate AssociatesNamed(nodes: map<bytes, NodeRecord>, n: NetworkRecord) {
    forall a :: a in n.associated ==> HasNode(nodes, a)
  }

  ghost predicate DistinctNames(nodes: map<bytes, NodeRecord>) {
    forall i, j :: i in nodes && j in nodes && nodes[i].description.name == nodes[j].description.name ==> i == j
  }

  ghost predicate ResolvedIn(nodes: map<bytes, NodeRecord>, n: NetworkRecord) {
    forall a :: a in n.associated ==> a in nodes
  }

  /** Every associated node's name is in `nodes_map`. */
  ghost predicate Resolved(st: Store) {
    forall k :: k in st.networks ==> ResolvedIn(st.nodes, st.networks[k])
  }

  function ReloadedNode(r: NodeRecord): NodeRecord {
    NodeRecord(r.description, r.description, r.user)
  }

  ghost function ReloadedNetwork(nodes: map<bytes, NodeRecord>, r: NetworkRecord): NetworkRecord
    requires ResolvedIn(nodes, r)
  {
    NetworkRecord(r.description, r.description, map a | a in r.associated :: nodes[a].description)
  }

  /** The same nodes, users, networks and associations, every key now being the description of
      what it leads to. */
  ghost function Reloaded(st: Store): Store
    requires Resolved(st)
  {
    Store(map k | k in st.nodes :: ReloadedNode(st.nodes[k]),
          map k | k in st.networks :: ReloadedNetwork(st.nodes, st.networks[k]))
  }

  /** The nodes `ks`, filed one after the other. */
  function FileAll(cur: map<bytes, NodeRecord>, m: map<bytes, NodeRecord>, ks: seq<bytes>): map<bytes, NodeRecord>
    requires forall k :: k in ks ==> k in m
    decreases |ks|
  {
    if ks == [] then cur else FileAll(FileNode(cur, m[ks[0]].description, m[ks[0]].user), m, ks[1..])
  }

  lemma {:induction false} NodesLoaded(m: map<bytes, NodeRecord>, ks: seq<bytes>, cur: Store, rest: seq<Token>)
    requires forall k :: k in ks ==> k in m
    ensures LoadNodes(cur, NodeTokens(m, ks) + rest, |ks|) == Loading(cur.(nodes := FileAll(cur.nodes, m, ks)), rest, true)
    decreases |ks|
  {
    hide FileNode;
    if ks == [] {
      assert NodeTokens(m, ks) + rest == rest;
    } else {
      var r, tail := m[ks[0]], ks[1..];
      var t := NodeToken(r.description, r.user);
      assert NodeTokens(m, ks) == [t] + NodeTokens(m, tail);
      assert ([t] + NodeTokens(m, tail) + rest)[1..] == NodeTokens(m, tail) + rest;
      NodesLoaded(m, tail, PutNode(cur, r.description, r.user), rest);
    }
  }

  ghost predicate Bears(m: map<bytes, NodeRecord>, ks: seq<bytes>, name: bytes, r: NodeRecord) {
    exists k :: k in ks && k in m && name == m[k].description.name && r.description == m[k].description && r.user == m[k].user
  }

  ghost predicate Named(m: map<bytes, NodeRecord>, ks: seq<bytes>, name: bytes) {
    exists k :: k in ks && k in m && name == m[k].description.name
  }

  /** Exactly the names borne are filed, each with what a node of that name has. */
  lemma {:induction false} FiledNames(cur: map<bytes, NodeRecord>, m: map<bytes, NodeRecord>, ks: seq<bytes>, x: bytes)
    requires forall k :: k in ks ==> k in m
    ensures var r := FileAll(cur, m, ks);
      && (x in r <==> x in cur || Named(m, ks, x))
      && (x in r && !Named(m, ks, x) ==> r[x] == cur[x])
      && (x in r && Named(m, ks, x) ==> Bears(m, ks, x, r[x]))
    decreases |ks|
  {
    if ks != [] {
      var k0, tail := ks[0], ks[1..];
      FiledNames(FileNode(cur, m[k0].description, m[k0].user), m, tail, x);
      assert k0 in ks && forall k :: k in ks <==> k == k0 || k in tail;
      assert Named(m, ks, x) <==> Named(m, tail, x) || x == m[k0].description.name;
    }
  }

  /** None of the names is in the map yet, and none comes twice. */
  ghost predicate AllFresh(cur: map<bytes, NodeRecord>, m: map<bytes, NodeRecord>, ks: seq<bytes>)
    requires forall k :: k in ks ==> k in m
  {
    && (forall i :: 0 <= i < |ks| ==> m[ks[i]].description.name !in cur)
    && (forall i, j :: 0 <= i < j < |ks| ==> m[ks[i]].description.name != m[ks[j]].description.name)
  }

  lemma AllFreshStep(cur: map<bytes, NodeRecord>, m: map<bytes, NodeRecord>, ks: seq<bytes>)
    requires ks != [] && forall k :: k in ks ==> k in m
    ensures var d := m[ks[0]].description;
      AllFresh(cur, m, ks) <==> d.name !in cur && AllFresh(FileNode(cur, d, m[ks[0]].user), m, ks[1..])
  {
    var d, tail := m[ks[0]].description, ks[1..];
    var next := FileNode(cur, d, m[ks[0]].user);
    assert forall i :: 0 <= i < |tail| ==> tail[i] == ks[i + 1];
    if d.name !in cur && AllFresh(next, m, tail) {
      forall i | 0 <= i < |ks| ensures m[ks[i]].description.name !in cur {
        if i > 0 { assert m[tail[i - 1]].description.name !in next; }
      }
      forall i, j | 0 <= i < j < |ks| ensures m[ks[i]].description.name != m[ks[j]].description.name {
        assert m[tail[j - 1]].description.name !in next;
        if i > 0 { assert m[tail[i - 1]].description.name != m[tail[j - 1]].description.name; }
      }
    }
  }

  lemma {:induction false} FiledSize(cur: map<bytes, NodeRecord>, m: map<bytes, NodeRecord>, ks: seq<bytes>)
    requires forall k :: k in ks ==> k in m
    ensures |FileAll(cur, m, ks)| <= |cur| + |ks|
    ensures |FileAll(cur, m, ks)| == |cur| + |ks| <==> AllFresh(cur, m, ks)
    decreases |ks|
  {
    hide AllFresh, FileNode;
    if ks == [] {
      NothingIsFresh(cur, m);
    } else {
      var r := m[ks[0]];
      AllFreshStep(cur, m, ks);
      FiledOne(cur, r.description, r.user);
      FiledSize(FileNode(cur, r.description, r.user), m, ks[1..]);
    }
  }

  lemma NothingIsFresh(cur: map<bytes, NodeRecord>, m: map<bytes, NodeRecord>)
    ensures AllFresh(cur, m, [])
  {
  }

  lemma FiledOne(cur: map<bytes, NodeRecord>, d: NodeDescription, u: MyUser)
    ensures |FileNode(cur, d, u)| == if d.name in cur then |cur| else |cur| + 1
  {
    var r := FileNode(cur, d, u);
    assert r.Keys == cur.Keys + {d.name};
    assert |r| == |r.Keys| && |cur| == |cur.Keys|;
  }

  /** `cur` with the nodes `ks` as they are loaded again when each is filed under its name. */
  function WithNodes(cur: map<bytes, NodeRecord>, m: map<bytes, NodeRecord>, ks: seq<bytes>): map<bytes, NodeRecord>
    requires forall k :: k in ks ==> k in m
  {
    cur + map k | k in ks :: ReloadedNode(m[k])
  }

  lemma WithNodesStep(cur: map<bytes, NodeRecord>, m: map<bytes, NodeRecord>, ks: seq<bytes>)
    requires forall k :: k in ks ==> k in m
    ensures WithNodes(cur, m, []) == cur
    ensures ks != [] ==> var r := m[ks[0]];
      WithNodes(cur[ks[0] := NodeRecord(r.description, r.description, r.user)], m, ks[1..]) == WithNodes(cur, m, ks)
  {
  }

  lemma {:induction false} FiledKeyed(cur: map<bytes, NodeRecord>, m: map<bytes, NodeRecord>, ks: seq<bytes>)
    requires forall k :: k in ks ==> k in m && m[k].description.name == k && k !in cur
    requires forall i, j :: 0 <= i < j < |ks| ==> ks[i] != ks[j]
    ensures FileAll(cur, m, ks) == WithNodes(cur, m, ks)
    decreases |ks|
  {
    hide WithNodes;
    WithNodesStep(cur, m, ks);
    if ks != [] {
      var r, tail := m[ks[0]], ks[1..];
      assert ks[0] in ks && ks[0] !in tail;
      FiledKeyed(cur[ks[0] := NodeRecord(r.description, r.description, r.user)], m, tail);
    }
  }

  /** `cur` with associations to those of the nodes `ks` that exist. */
  function WithRelated(cur: map<bytes, NodeDescription>, nodes: map<bytes, NodeRecord>, ks: seq<bytes>): map<bytes, NodeDescription> {
    cur + map k | k in ks && k in nodes :: nodes[k].description
  }

  lemma WithRelatedStep(cur: map<bytes, NodeDescription>, nodes: map<bytes, NodeRecord>, ks: seq<bytes>)
    ensures WithRelated(cur, nodes, []) == cur
    ensures ks != [] && ks[0] in nodes ==>
      WithRelated(cur[ks[0] := nodes[ks[0]].description], nodes, ks[1..]) == WithRelated(cur, nodes, ks)
  {
  }

  lemma {:induction false} RelatedLoaded(nodes: map<bytes, NodeRecord>, m: map<bytes, NodeDescription>, ks: seq<bytes>,
        cur: map<bytes, NodeDescription>)
    requires forall k :: k in nodes ==> nodes[k].description.name == k
    requires forall k :: k in ks ==> k in m && m[k].name == k && k !in cur
    requires forall i, j :: 0 <= i < j < |ks| ==> ks[i] != ks[j]
    ensures var (r, ok) := Associate(nodes, cur, Related(m, ks));
      (ok <==> forall k :: k in ks ==> k in nodes) && (ok ==> r == WithRelated(cur, nodes, ks))
    decreases |ks|
  {
    WithRelatedStep(cur, nodes, ks);
    hide WithRelated;
    if ks != [] {
      assert Related(m, ks)[1..] == Related(m, ks[1..]);
      if ks[0] in nodes {
        RelatedLoaded(nodes, m, ks[1..], cur[ks[0] := nodes[ks[0]].description]);
      }
    }
  }

  lemma RelatedReloaded(nodes: map<bytes, NodeRecord>, r: NetworkRecord, ks: seq<bytes>)
    requires forall k :: k in nodes ==> nodes[k].description.name == k
    requires Enumerates(ks, r.associated.Keys) && forall a :: a in r.associated ==> r.associated[a].name == a
    ensures var (a, ok) := Associate(nodes, map[], Related(r.associated, ks));
      (ok <==> ResolvedIn(nodes, r)) && (ok ==> ReloadedNetwork(nodes, r) == NetworkRecord(r.description, r.description, a))
  {
    RelatedLoaded(nodes, r.associated, ks, map[]);
    hide Associate, Related;
    if ResolvedIn(nodes, r) {
      assert WithRelated(map[], nodes, ks) == ReloadedNetwork(nodes, r).associated;
    }
  }

  ghost function WithNetworks(cur: map<bytes, NetworkRecord>, nodes: map<bytes, NodeRecord>,
        m: map<bytes, NetworkRecord>, ks: seq<bytes>)
    : map<bytes, NetworkRecord>
    requires forall k :: k in ks ==> k in m && ResolvedIn(nodes, m[k])
  {
    cur + map k | k in ks :: ReloadedNetwork(nodes, m[k])
  }

  lemma WithNetworksStep(cur: map<bytes, NetworkRecord>, nodes: map<bytes, NodeRecord>,
        m: map<bytes, NetworkRecord>, ks: seq<bytes>)
    requires forall k :: k in ks ==> k in m && ResolvedIn(nodes, m[k])
    ensures WithNetworks(cur, nodes, m, []) == cur
    ensures ks != [] ==>
      WithNetworks(cur[ks[0] := ReloadedNetwork(nodes, m[ks[0]])], nodes, m, ks[1..]) == WithNetworks(cur, nodes, m, ks)
  {
    hide ReloadedNetwork, ResolvedIn;
  }

  lemma LoadNetworksStep(st: Store, d: NetworkDescription, ds: seq<NodeDescription>, ts: seq<Token>, n: nat)
    requires d.name !in st.networks
    ensures var (a, ok) := Associate(st.nodes, map[], ds);
      var next := st.(networks := st.networks[d.name := NetworkRecord(d, d, a)]);
      LoadNetworks(st, [NetworkToken(d), RelatedToken(ds)] + ts, n + 1) ==
        if ok then LoadNetworks(next, ts, n) else Loading(next, ts, false)
  {
    assert ([NetworkToken(d), RelatedToken(ds)] + ts)[2..] == ts;
    hide Associate;
  }

  /** The networks of a store to be saved, in the order `ks`. */
  ghost predicate Savable(m: map<bytes, NetworkRecord>, ks: seq<bytes>, rs: map<bytes, seq<bytes>>) {
    && Relates(m, ks, rs)
    && (forall k :: k in ks ==> Enumerates(rs[k], m[k].associated.Keys) && m[k].description.name == k)
    && (forall k, a :: k in ks && a in m[k].associated ==> m[k].associated[a].name == a)
    && (forall i, j :: 0 <= i < j < |ks| ==> ks[i] != ks[j])
  }

  lemma {:induction false} NetworksLoaded(m: map<bytes, NetworkRecord>, ks: seq<bytes>, rs: map<bytes, seq<bytes>>, cur: Store)
    requires forall k :: k in cur.nodes ==> cur.nodes[k].description.name == k
    requires Savable(m, ks, rs) && forall k :: k in ks ==> k !in cur.networks
    ensures var l := LoadNetworks(cur, NetworkTokens(m, ks, rs), |ks|);
      && (l.ok <==> forall k :: k in ks ==> ResolvedIn(cur.nodes, m[k]))
      && (l.ok ==> l == Loading(cur.(networks := WithNetworks(cur.networks, cur.nodes, m, ks)), [], true))
    decreases |ks|
  {
    hide *;
    if ks == [] {
      WithNetworksStep(cur.networks, cur.nodes, m, ks);
      NoNetworksLoaded(m, rs, cur);
    } else {
      SavableStep(m, ks, rs);
      var k0, r, rest := ks[0], m[ks[0]], ks[1..];
      RelatedReloaded(cur.nodes, r, rs[k0]);
      LoadNetworksStep(cur, r.description, Related(r.associated, rs[k0]), NetworkTokens(m, rest, rs), |rest|);
      if ResolvedIn(cur.nodes, r) {
        var next := cur.(networks := cur.networks[k0 := ReloadedNetwork(cur.nodes, r)]);
        NetworksLoaded(m, rest, rs, next);
        if forall k :: k in ks ==> ResolvedIn(cur.nodes, m[k]) {
          WithNetworksStep(cur.networks, cur.nodes, m, ks);
        }
      }
    }
  }

  lemma NoNetworksLoaded(m: map<bytes, NetworkRecord>, rs: map<bytes, seq<bytes>>, cur: Store)
    ensures Relates(m, [], rs) && LoadNetworks(cur, NetworkTokens(m, [], rs), 0) == Loading(cur, [], true)
  {
  }

  lemma SavableStep(m: map<bytes, NetworkRecord>, ks: seq<bytes>, rs: map<bytes, seq<bytes>>)
    requires Savable(m, ks, rs) && ks != []
    ensures var (k0, rest) := (ks[0], ks[1..]);
      && k0 in m && k0 in rs && k0 !in rest && m[k0].description.name == k0
      && (forall k :: k in ks <==> k == k0 || k in rest)
      && Savable(m, rest, rs) && Relates(m, rest, rs) && Relates(m, ks, rs)
      && Enumerates(rs[k0], m[k0].associated.Keys) && (forall a :: a in rs[k0] ==> a in m[k0].associated)
      && (forall a :: a in m[k0].associated ==> m[k0].associated[a].name == a)
      && NetworkTokens(m, ks, rs) ==
         [NetworkToken(m[k0].description), RelatedToken(Related(m[k0].associated, rs[k0]))] + NetworkTokens(m, rest, rs)
  {
    assert ks[0] in ks;
  }

  lemma {:induction false} EnumerationLength(ks: seq<bytes>, s: set<bytes>)
    requires Enumerates(ks, s)
    ensures |ks| == |s|
  {
    if ks == [] {
      assert s == {};
    } else {
      var rest := s - {ks[0]};
      forall k ensures k in ks[1..] <==> k in rest {}
      EnumerationLength(ks[1..], rest);
    }
  }

  /** What loading a saved store makes of it: every name once, with the description and the user
      of a node that bears it, and every network with its associations. */
  ghost predicate Restores(st: Store, r: Store) {
    && (forall x :: x in r.nodes <==> HasNode(st.nodes, x))
    && (forall x :: x in r.nodes ==> exists k :: k in st.nodes && SameNode(st.nodes[k], x, r.nodes[x]))
    && r.networks.Keys == st.networks.Keys
    && (forall k :: k in st.networks ==>
          ResolvedIn(r.nodes, st.networks[k]) && r.networks[k] == ReloadedNetwork(r.nodes, st.networks[k]))
  }

  ghost predicate SameNode(saved: NodeRecord, name: bytes, loaded: NodeRecord) {
    name == saved.description.name && loaded.description == saved.description && loaded.user == saved.user
  }

  /** Saving and loading again succeeds exactly when the counts fit an `int` and every associated
      name is the name of some node, renamed or not. It then restores the networks, the
      associations, and the nodes: all of them exactly when no two bear the same name. */
  lemma SaveLoad(st: Store, ts: seq<Token>)
    requires NetworksKeyed(st) && Prints(st, ts)
    ensures var l := Load(ts);
      && (l.ok <==> |st.nodes| < TWO31 && |st.networks| < TWO31 && AllNamed(st))
      && (l.ok ==> l.rest == [] && Restores(st, l.store))
      && (l.ok ==> (|l.store.nodes| == |st.nodes| <==> DistinctNames(st.nodes)))
  {
    hide Load, Print, IsOrder, NetworksKeyed, AllNamed, Restores, DistinctNames;
    var o :| IsOrder(st, o) && ts == Print(st, o);
    SaveLoadInOrder(st, o);
  }

  lemma SaveLoadInOrder(st: Store, o: Order)
    requires NetworksKeyed(st) && IsOrder(st, o)
    ensures var l := Load(Print(st, o));
      && (l.ok <==> |st.nodes| < TWO31 && |st.networks| < TWO31 && AllNamed(st))
      && (l.ok ==> l.rest == [] && Restores(st, l.store))
      && (l.ok ==> (|l.store.nodes| == |st.nodes| <==> DistinctNames(st.nodes)))
  {
    hide Load, Print, IsOrder, NetworksKeyed, AllNamed, DistinctNames, FileAll, WithNetworks, ResolvedIn, ReloadedNetwork,
      HasNode, SameNode;
    PrintLoad(st, o);
    var nodes := FileAll(map[], st.nodes, o.nodes);
    RestoredNames(st, o, nodes);
    RestoredCount(st, o);
    RestoredNetworks(st, o, nodes);
  }

  /** If no node was renamed, what is restored is the same nodes, users, networks and
      associations, every key now being the description of what it leads to. */
  lemma SaveLoadKeyed(st: Store, ts: seq<Token>)
    requires Keyed(st) && Prints(st, ts)
    ensures var l := Load(ts);
      && (l.ok <==> |st.nodes| < TWO31 && |st.networks| < TWO31 && Resolved(st))
      && (l.ok ==> l.store == Reloaded(st) && l.rest == [])
  {
    hide Load, Print, IsOrder, Keyed, NetworksKeyed, Resolved, Reloaded;
    var o :| IsOrder(st, o) && ts == Print(st, o);
    SaveLoadKeyedInOrder(st, o);
  }

  lemma SaveLoadKeyedInOrder(st: Store, o: Order)
    requires Keyed(st) && IsOrder(st, o)
    ensures var l := Load(Print(st, o));
      && (l.ok <==> |st.nodes| < TWO31 && |st.networks| < TWO31 && Resolved(st))
      && (l.ok ==> l.store == Reloaded(st) && l.rest == [])
  {
    hide *;
    KeyedParts(st);
    PrintLoad(st, o);
    KeyedNodes(st, o);
    var nodes := FileAll(map[], st.nodes, o.nodes);
    RestoredNetworks(st, o, nodes);
    KeyedNetworks(st, o, nodes);
  }

  lemma KeyedParts(st: Store)
    requires Keyed(st)
    ensures NetworksKeyed(st)
  {
  }

  /** Loading a printed store, in terms of what its nodes become. */
  lemma PrintLoad(st: Store, o: Order)
    requires NetworksKeyed(st) && IsOrder(st, o)
    ensures forall k :: k in o.nodes ==> k in st.nodes
    ensures forall k :: k in o.networks ==> k in st.networks
    ensures var nodes := FileAll(map[], st.nodes, o.nodes);
      var l := Load(Print(st, o));
      && (l.ok <==> |st.nodes| < TWO31 && |st.networks| < TWO31 &&
                    forall k :: k in o.networks ==> ResolvedIn(nodes, st.networks[k]))
      && (l.ok ==> l == Loading(Store(nodes, WithNetworks(map[], nodes, st.networks, o.networks)), [], true))
  {
    hide NodeTokens, NetworkTokens, LoadNodes, LoadNetworks, FileAll, WithNetworks, ResolvedIn, Enumerates, ToString, Stoi, Load,
      NetworksKeyed;
    PrintedNodes(st, o);
    PrintedNetworks(st, o);
    CountRoundTrip(|st.nodes|);
    CountRoundTrip(|st.networks|);
    var nets := NetworkTokens(st.networks, o.networks, o.related);
    var body := NodeTokens(st.nodes, o.nodes) + ([Text(ToString(|st.networks|))] + nets);
    LoadParts(Print(st, o), |st.nodes|, body, FileAll(map[], st.nodes, o.nodes), |st.networks|, nets);
  }

  lemma PrintedNodes(st: Store, o: Order)
    requires IsOrder(st, o)
    ensures forall k :: k in o.nodes ==> k in st.nodes
    ensures Relates(st.networks, o.networks, o.related)
    ensures var tail := [Text(ToString(|st.networks|))] + NetworkTokens(st.networks, o.networks, o.related);
      LoadNodes(EMPTY, NodeTokens(st.nodes, o.nodes) + tail, |st.nodes|) ==
      Loading(Store(FileAll(map[], st.nodes, o.nodes), map[]), tail, true)
  {
    hide LoadNodes, NodeTokens, NetworkTokens, FileAll, ToString;
    var tail := [Text(ToString(|st.networks|))] + NetworkTokens(st.networks, o.networks, o.related);
    EnumerationLength(o.nodes, st.nodes.Keys);
    NodesLoaded(st.nodes, o.nodes, EMPTY, tail);
  }

  lemma PrintedNetworks(st: Store, o: Order)
    requires NetworksKeyed(st) && IsOrder(st, o)
    ensures forall k :: k in o.nodes ==> k in st.nodes
    ensures Relates(st.networks, o.networks, o.related)
    ensures var nodes := FileAll(map[], st.nodes, o.nodes);
      var l := LoadNetworks(Store(nodes, map[]), NetworkTokens(st.networks, o.networks, o.related), |st.networks|);
      && (l.ok <==> forall k :: k in o.networks ==> ResolvedIn(nodes, st.networks[k]))
      && (l.ok ==> l == Loading(Store(nodes, WithNetworks(map[], nodes, st.networks, o.networks)), [], true))
  {
    hide LoadNetworks, NetworkTokens, WithNetworks, ResolvedIn, FileAll, Savable;
    var nodes := FileAll(map[], st.nodes, o.nodes);
    EnumerationLength(o.networks, st.networks.Keys);
    PrintedSavable(st, o);
    FiledUnderNames(st, o, nodes);
    NetworksLoaded(st.networks, o.networks, o.related, Store(nodes, map[]));
  }

  lemma PrintedSavable(st: Store, o: Order)
    requires NetworksKeyed(st) && IsOrder(st, o)
    ensures Savable(st.networks, o.networks, o.related)
  {
  }

  lemma FiledUnderNames(st: Store, o: Order, nodes: map<bytes, NodeRecord>)
    requires forall k :: k in o.nodes ==> k in st.nodes
    requires nodes == FileAll(map[], st.nodes, o.nodes)
    ensures forall x :: x in nodes ==> nodes[x].description.name == x
  {
    hide FileAll;
    forall x | x in nodes ensures nodes[x].description.name == x {
      FiledNames(map[], st.nodes, o.nodes, x);
    }
  }

  lemma LoadParts(ts: seq<Token>, n: nat, body: seq<Token>, nodes: map<bytes, NodeRecord>, m: nat, nets: seq<Token>)
    requires ts == [Text(ToString(n))] + body
    requires Stoi(ToString(n)) == if n < TWO31 then Some(n) else None
    requires Stoi(ToString(m)) == if m < TWO31 then Some(m) else None
    requires LoadNodes(EMPTY, body, n) == Loading(Store(nodes, map[]), [Text(ToString(m))] + nets, true)
    ensures n >= TWO31 ==> !Load(ts).ok
    ensures n < TWO31 && m >= TWO31 ==> !Load(ts).ok
    ensures n < TWO31 && m < TWO31 ==> Load(ts) == LoadNetworks(Store(nodes, map[]), nets, m)
  {
    hide LoadNodes, LoadNetworks, ToString, Stoi;
    assert ts[1..] == body;
    assert ([Text(ToString(m))] + nets)[1..] == nets;
  }

  /** The names that were filed, and what they were filed with. */
  lemma RestoredNames(st: Store, o: Order, nodes: map<bytes, NodeRecord>)
    requires IsOrder(st, o)
    requires forall k :: k in o.nodes ==> k in st.nodes
    requires nodes == FileAll(map[], st.nodes, o.nodes)
    ensures forall x :: x in nodes <==> HasNode(st.nodes, x)
    ensures forall x :: x in nodes ==> exists k :: k in st.nodes && SameNode(st.nodes[k], x, nodes[x])
    ensures (forall k :: k in st.networks ==> ResolvedIn(nodes, st.networks[k])) <==> AllNamed(st)
  {
    hide FileAll;
    forall x ensures x in nodes <==> HasNode(st.nodes, x) {
      FiledNames(map[], st.nodes, o.nodes, x);
      assert Named(st.nodes, o.nodes, x) <==> HasNode(st.nodes, x);
    }
    forall x | x in nodes ensures exists k :: k in st.nodes && SameNode(st.nodes[k], x, nodes[x]) {
      FiledNames(map[], st.nodes, o.nodes, x);
      var k :| k in o.nodes && k in st.nodes && x == st.nodes[k].description.name
        && nodes[x].description == st.nodes[k].description && nodes[x].user == st.nodes[k].user;
      assert SameNode(st.nodes[k], x, nodes[x]);
    }
    forall k | k in st.networks ensures ResolvedIn(nodes, st.networks[k]) <==> AssociatesNamed(st.nodes, st.networks[k]) {
      hide HasNode;
    }
  }

  lemma RestoredCount(st: Store, o: Order)
    requires IsOrder(st, o)
    requires forall k :: k in o.nodes ==> k in st.nodes
    ensures |FileAll(map[], st.nodes, o.nodes)| == |st.nodes| <==> DistinctNames(st.nodes)
  {
    hide FileAll;
    EnumerationLength(o.nodes, st.nodes.Keys);
    FiledSize(map[], st.nodes, o.nodes);
    var ks, m := o.nodes, st.nodes;
    if AllFresh(map[], m, ks) {
      forall i, j | i in m && j in m && m[i].description.name == m[j].description.name ensures i == j {
        var x :| 0 <= x < |ks| && ks[x] == i;
        var y :| 0 <= y < |ks| && ks[y] == j;
      }
    }
  }

  lemma RestoredNetworks(st: Store, o: Order, nodes: map<bytes, NodeRecord>)
    requires IsOrder(st, o)
    ensures forall k :: k in o.networks <==> k in st.networks
    ensures (forall k :: k in o.networks ==> ResolvedIn(nodes, st.networks[k])) ==>
      var ns := WithNetworks(map[], nodes, st.networks, o.networks);
      ns.Keys == st.networks.Keys && forall k :: k in ns ==> ns[k] == ReloadedNetwork(nodes, st.networks[k])
  {
    hide ResolvedIn, ReloadedNetwork;
  }

  lemma KeyedNodes(st: Store, o: Order)
    requires Keyed(st) && IsOrder(st, o)
    ensures forall k :: k in o.nodes ==> k in st.nodes
    ensures FileAll(map[], st.nodes, o.nodes) == map k | k in st.nodes :: ReloadedNode(st.nodes[k])
  {
    hide FileAll, ReloadedNode;
    FiledKeyed(map[], st.nodes, o.nodes);
  }

  lemma NetworkRestored(a: map<bytes, NodeRecord>, b: map<bytes, NodeRecord>, r: NetworkRecord)
    requires b == map k | k in a :: ReloadedNode(a[k])
    ensures ResolvedIn(a, r) <==> ResolvedIn(b, r)
    ensures ResolvedIn(a, r) ==> ReloadedNetwork(a, r) == ReloadedNetwork(b, r)
  {
  }

  lemma KeyedNetworks(st: Store, o: Order, nodes: map<bytes, NodeRecord>)
    requires forall k :: k in o.networks <==> k in st.networks
    requires nodes == map k | k in st.nodes :: ReloadedNode(st.nodes[k])
    ensures (forall k :: k in o.networks ==> ResolvedIn(nodes, st.networks[k])) <==> Resolved(st)
    ensures Resolved(st) ==> forall ns: map<bytes, NetworkRecord> ::
      ns.Keys == st.networks.Keys
      && (forall k :: k in ns ==> ResolvedIn(nodes, st.networks[k]) && ns[k] == ReloadedNetwork(nodes, st.networks[k]))
      ==> Store(nodes, ns) == Reloaded(st)
  {
    hide ReloadedNode, ResolvedIn, ReloadedNetwork;
    forall k | k in st.networks
      ensures ResolvedIn(nodes, st.networks[k]) <==> ResolvedIn(st.nodes, st.networks[k])
      ensures ResolvedIn(nodes, st.networks[k]) ==>
        ReloadedNetwork(nodes, st.networks[k]) == ReloadedNetwork(st.nodes, st.networks[k])
    {
      NetworkRestored(st.nodes, nodes, st.networks[k]);
    }
    if Resolved(st) {
      forall ns: map<bytes, NetworkRecord> |
        ns.Keys == st.networks.Keys
        && (forall k :: k in ns ==> ResolvedIn(nodes, st.networks[k]) && ns[k] == ReloadedNetwork(nodes, st.networks[k]))
        ensures Store(nodes, ns) == Reloaded(st)
      {
        assert ns == Reloaded(st).networks;
      }
    }
  }

  /** Every key is the very description of what it leads to. */
  ghost predicate Current(st: Store) {
    && (forall k :: k in st.nodes ==> st.nodes[k].key == st.nodes[k].description)
    && (forall k :: k in st.networks ==> st.networks[k].key == st.networks[k].description)
    && (forall k :: k in st.networks ==> Points(st.networks[k].associated, st.nodes))
  }

  /** What comes back is the store itself exactly when no key was out of date. */
  lemma SameAfterReload(st: Store)
    requires Resolved(st)
    ensures Reloaded(st) == st <==> Current(st)
  {
    forall k | k in st.networks
      ensures ResolvedIn(st.nodes, st.networks[k])
      ensures ReloadedNetwork(st.nodes, st.networks[k]).associated == st.networks[k].associated <==>
              Points(st.networks[k].associated, st.nodes)
    {
      assert ResolvedIn(st.nodes, st.networks[k]);
      PointsExactly(st.nodes, st.networks[k]);
    }
    hide ResolvedIn, Points;
    var r := Reloaded(st);
    if Current(st) {
      assert r.nodes == st.nodes;
      assert r.networks == st.networks;
    }
    if r == st {
      assert forall k :: k in st.nodes ==> r.nodes[k] == st.nodes[k];
      assert forall k :: k in st.networks ==> r.networks[k] == st.networks[k];
    }
  }

  lemma PointsExactly(nodes: map<bytes, NodeRecord>, r: NetworkRecord)
    requires ResolvedIn(nodes, r)
    ensures ReloadedNetwork(nodes, r).associated == r.associated <==> Points(r.associated, nodes)
  {
    var a := ReloadedNetwork(nodes, r).associated;
    assert a.Keys == r.associated.Keys;
    if a == r.associated {
      forall k | k in r.associated ensures r.associated[k] == nodes[k].description {
        assert a[k] == r.associated[k];
      }
    }
  }

  /** Removing a node does not detach it from networks: what is saved afterwards can be loaded
      exactly when no network was associated with its name, or another node bears it too. */
  lemma RemovedNodeReloads(st: Store, name: bytes, ts: seq<Token>)
    requires NetworksKeyed(st) && AllNamed(st) && |st.nodes| < TWO31 && |st.networks| < TWO31
    requires name in st.nodes && Prints(st.(nodes := st.nodes - {name}), ts)
    ensures var d := st.nodes[name].description.name;
      Load(ts).ok <==>
        HasNode(st.nodes - {name}, d) || forall k :: k in st.networks ==> d !in st.networks[k].associated
  {
    hide Load, Prints;
    var removed, d := st.(nodes := st.nodes - {name}), st.nodes[name].description.name;
    SaveLoad(removed, ts);
    Fewer(st.nodes, name);
    forall x ensures HasNode(st.nodes, x) <==> HasNode(removed.nodes, x) || x == d {
      if HasNode(st.nodes, x) && x != d {
        var k :| k in st.nodes && st.nodes[k].description.name == x;
        assert k in removed.nodes;
      }
    }
    forall k | k in st.networks
      ensures AssociatesNamed(removed.nodes, st.networks[k]) <==>
              HasNode(removed.nodes, d) || d !in st.networks[k].associated
    {
      assert AssociatesNamed(st.nodes, st.networks[k]);
    }
  }

  /** A node "a", a network "n" associated with it, and the node removed: the archive written
      before loads, the one written after does not. */
  lemma RemovedNodeIsMissed(d: NodeDescription, u: MyUser, n: NetworkDescription)
    ensures var st := Store(map[d.name := NodeRecord(d, d, u)], map[n.name := NetworkRecord(n, n, map[d.name := d])]);
      var (before, after) := (Order([d.name], [n.name], map[n.name := [d.name]]), Order([], [n.name], map[n.name := [d.name]]));
      && IsOrder(st, before) && Load(Print(st, before)).ok
      && IsOrder(st.(nodes := map[]), after) && !Load(Print(st.(nodes := map[]), after)).ok
  {
    hide Load, Print, IsOrder, NetworksKeyed, AllNamed, Restores, DistinctNames;
    var st := Store(map[d.name := NodeRecord(d, d, u)], map[n.name := NetworkRecord(n, n, map[d.name := d])]);
    OneNetwork(st, [d.name], d, n);
    OneNetwork(st.(nodes := map[]), [], d, n);
    SaveLoadInOrder(st, Order([d.name], [n.name], map[n.name := [d.name]]));
    SaveLoadInOrder(st.(nodes := map[]), Order([], [n.name], map[n.name := [d.name]]));
    Small(st.nodes, d.name);
    Small(st.networks, n.name);
  }

  lemma OneNetwork(st: Store, ks: seq<bytes>, d: NodeDescription, n: NetworkDescription)
    requires st.networks == map[n.name := NetworkRecord(n, n, map[d.name := d])]
    requires if ks == [] then st.nodes == map[] else ks == [d.name] && st.nodes.Keys == {d.name} && st.nodes[d.name].description == d
    ensures IsOrder(st, Order(ks, [n.name], map[n.name := [d.name]])) && NetworksKeyed(st)
    ensures AllNamed(st) <==> ks != []
  {
    hide Enumerates, HasNode;
    EnumeratesOne(n.name);
    EnumeratesOne(d.name);
    EnumeratesNothing();
    var r := st.networks[n.name];
    assert r.associated.Keys == {d.name} && st.networks.Keys == {n.name};
    assert n.name in st.networks && d.name in r.associated;
    OneName(st.nodes, ks, d);
    assert st.nodes.Keys == if ks == [] then {} else {d.name};
  }

  lemma EnumeratesOne(k: bytes)
    ensures Enumerates([k], {k})
  {
  }

  lemma EnumeratesNothing()
    ensures Enumerates([], {})
  {
  }

  lemma OneName(nodes: map<bytes, NodeRecord>, ks: seq<bytes>, d: NodeDescription)
    requires if ks == [] then nodes == map[] else nodes.Keys == {d.name} && nodes[d.name].description == d
    ensures HasNode(nodes, d.name) <==> ks != []
  {
    if ks != [] { assert d.name in nodes; }
  }

  lemma Small<V>(m: map<bytes, V>, k: bytes)
    requires m.Keys <= {k}
    ensures |m| <= 1
  {
    if m.Keys == {} {
      assert |m.Keys| == 0;
    } else {
      assert m.Keys == {k};
    }
    assert |m| == |m.Keys|;
  }

  lemma Fewer(m: map<bytes, NodeRecord>, name: bytes)
    ensures |m - {name}| <= |m|
  {
    var keys := (m - {name}).Keys;
    assert keys == m.Keys - {name};
    assert |keys| == |m - {name}| && |m.Keys| == |m|;
  }

  /** Whatever was loaded, from whatever source, can be saved and loaded again. */
  lemma LoadedStoresReload(source: seq<Token>, ts: seq<Token>)
    requires Prints(Load(source).store, ts)
    requires |Load(source).store.nodes| < TWO31 && |Load(source).store.networks| < TWO31
    ensures var st := Load(source).store;
      Resolved(st) && Load(ts).ok && Load(ts).store == Reloaded(st)
  {
    hide *;
    LoadClosed(source);
    var st := Load(source).store;
    ClosedIsFit(st);
    SaveLoadKeyed(st, ts);
  }

  lemma ClosedIsFit(st: Store)
    requires Closed(st)
    ensures Keyed(st) && Resolved(st)
  {
    forall k | k in st.networks ensures ResolvedIn(st.nodes, st.networks[k]) {
      assert Points(st.networks[k].associated, st.nodes);
    }
    forall k, a | k in st.networks && a in st.networks[k].associated ensures st.networks[k].associated[a].name == a {
      assert Points(st.networks[k].associated, st.nodes);
    }
  }
}
