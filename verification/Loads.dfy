/** Which archives load, and what is then in the store, read off the tokens by their places. */
module Loads {
  import opened Bytes
  import opened ClientTypes
  import opened Archive

  // ---- Numbers ---------------------------------------------------------------------------

  predicate Digits(s: bytes) { forall i :: 0 <= i < |s| ==> IsDigit(s[i]) }

  predicate Spaces(s: bytes) { forall i :: 0 <= i < |s| ==> IsSpace(s[i]) }

  /** The number a string of digits stands for. */
  function Decimal(s: bytes): nat
    requires Digits(s)
  {
    if s == [] then 0 else 10 * Decimal(s[..|s| - 1]) + (s[|s| - 1] - 48)
  }

  lemma {:induction false} ReadDigitsExactly(s: bytes, rest: bytes)
    requires Digits(s) && (rest == [] || !IsDigit(rest[0]))
    ensures ReadDigits(s + rest, 0) == Decimal(s)
  {
    ReadDigitsStops(s, rest, 0);
    ReadDecimal(s);
  }

  lemma {:induction false} ReadDigitsStops(s: bytes, rest: bytes, acc: nat)
    requires Digits(s) && (rest == [] || !IsDigit(rest[0]))
    ensures ReadDigits(s + rest, acc) == ReadDigits(s, acc)
  {
    if s == [] {
      assert s + rest == rest;
    } else {
      assert (s + rest)[1..] == s[1..] + rest;
      ReadDigitsStops(s[1..], rest, 10 * acc + (s[0] - 48));
    }
  }

  lemma {:induction false} ReadDecimal(s: bytes)
    requires Digits(s)
    ensures ReadDigits(s, 0) == Decimal(s)
  {
    if s != [] {
      var n := |s| - 1;
      assert s == s[..n] + [s[n]];
      ReadDecimal(s[..n]);
      ReadLastDigit(s[..n], s[n], 0);
    }
  }

  lemma {:induction false} SpacesSkipped(s: bytes, rest: bytes)
    requires Spaces(s) && (rest == [] || !IsSpace(rest[0]))
    ensures SkipSpaces(s + rest) == rest
  {
    if s == [] {
      assert s + rest == rest;
    } else {
      assert (s + rest)[1..] == s[1..] + rest;
      SpacesSkipped(s[1..], rest);
    }
  }

  /** Spaces, an optional sign, all the digits there are, and anything. */
  lemma StoiExactly(spaces: bytes, sign: bytes, digits: bytes, rest: bytes)
    requires Spaces(spaces) && sign in {[], [43], [45]} && Digits(digits) && (rest == [] || !IsDigit(rest[0]))
    ensures var magnitude: int := Decimal(digits);
      var v := if sign == [45] then -magnitude else magnitude;
      digits != [] ==> Stoi(spaces + (sign + (digits + rest))) == if IsInt32(v) then Some(v) else None
    ensures digits == [] && (sign == [] ==> rest == [] || (!IsSpace(rest[0]) && rest[0] != 43 && rest[0] != 45)) ==>
      Stoi(spaces + (sign + (digits + rest))) == None
  {
    var u := digits + rest;
    var t := sign + u;
    if digits != [] || sign != [] || rest == [] || !IsSpace(rest[0]) {
      SpacesSkipped(spaces, t);
      if sign != [] { assert t[1..] == u; } else { assert t == u; }
      ReadDigitsExactly(digits, rest);
    }
  }

  // ---- Nodes -----------------------------------------------------------------------------

  predicate NodesFirst(ts: seq<Token>, n: nat) {
    n <= |ts| && forall i :: 0 <= i < n ==> ts[i].NodeToken?
  }

  predicate Bearer(ts: seq<Token>, n: nat, i: nat, x: bytes) {
    i < n <= |ts| && ts[i].NodeToken? && ts[i].node.name == x
  }

  predicate SomeBearer(ts: seq<Token>, n: nat, x: bytes) {
    exists i: nat | i < n :: Bearer(ts, n, i, x)
  }

  /** Of the entries with key `x`, the first gave the key, the last the contents. */
  ghost predicate FiledFrom(ts: seq<Token>, n: nat, x: bytes, r: NodeRecord) {
    && (exists i: nat :: Bearer(ts, n, i, x) && (forall j: nat :: Bearer(ts, n, j, x) ==> i <= j) && r.key == ts[i].node)
    && (exists i: nat :: Bearer(ts, n, i, x) && (forall j: nat :: Bearer(ts, n, j, x) ==> j <= i)
          && r.description == ts[i].node && r.user == ts[i].user)
  }

  lemma {:induction false} NodesMissing(st: Store, ts: seq<Token>, n: nat)
    ensures var l := LoadNodes(st, ts, n);
      && (l.ok <==> NodesFirst(ts, n))
      && (l.ok ==> l.rest == ts[n..] && l.store.networks == st.networks)
    decreases n
  {
    if n > 0 && ts != [] && ts[0].NodeToken? {
      NodesMissing(PutNode(st, ts[0].node, ts[0].user), ts[1..], n - 1);
      assert forall i :: 1 <= i < |ts| ==> ts[i] == ts[1..][i - 1];
      if NodesFirst(ts, n) { assert ts[1..][n - 1..] == ts[n..]; }
    }
  }

  /** The entries read last: one more does what `nodes_map[...] =` does. */
  lemma {:induction false} NodesStep(st: Store, ts: seq<Token>, n: nat)
    requires NodesFirst(ts, n + 1)
    ensures LoadNodes(st, ts, n + 1).store == PutNode(LoadNodes(st, ts, n).store, ts[n].node, ts[n].user)
    decreases n
  {
    if n > 0 {
      NodesStep(PutNode(st, ts[0].node, ts[0].user), ts[1..], n - 1);
      assert ts[1..][n - 1] == ts[n];
    } else {
      assert LoadNodes(PutNode(st, ts[0].node, ts[0].user), ts[1..], 0).store == PutNode(st, ts[0].node, ts[0].user);
    }
  }

  lemma {:induction false} NodesExactly(ts: seq<Token>, n: nat, x: bytes)
    requires NodesFirst(ts, n)
    ensures var nodes := LoadNodes(EMPTY, ts, n).store.nodes;
      && (x in nodes <==> SomeBearer(ts, n, x))
      && (x in nodes ==> FiledFrom(ts, n, x, nodes[x]) && nodes[x].description.name == x)
  {
    if n > 0 {
      var k: nat := n - 1;
      NodesExactly(ts, k, x);
      NodesStep(EMPTY, ts, k);
      hide LoadNodes;
      var nodes := LoadNodes(EMPTY, ts, k).store.nodes;
      assert forall i: nat :: Bearer(ts, n, i, x) <==> Bearer(ts, k, i, x) || (i == k && ts[k].node.name == x);
      if ts[k].node.name == x {
        assert Bearer(ts, n, k, x);
        assert forall j: nat :: Bearer(ts, n, j, x) ==> j <= k;
        if x in nodes {
          var i: nat :| Bearer(ts, k, i, x) && (forall j: nat :: Bearer(ts, k, j, x) ==> i <= j) && nodes[x].key == ts[i].node;
          assert Bearer(ts, n, i, x) && forall j: nat :: Bearer(ts, n, j, x) ==> i <= j;
        }
      }
    }
  }

  // ---- Networks --------------------------------------------------------------------------

  /** The loop over related nodes: which are associated, and where it ends. */
  lemma {:induction false} AssociateExactly(nodes: map<bytes, NodeRecord>, m: map<bytes, NodeDescription>, ds: seq<NodeDescription>)
    requires forall k :: k in nodes ==> nodes[k].description.name == k
    requires Points(m, nodes)
    ensures var (a, ok) := Associate(nodes, m, ds);
      && (ok <==> forall d :: d in ds ==> d.name in nodes)
      && (ok ==> Points(a, nodes) && forall k :: k in a <==> k in m || exists d :: d in ds && d.name == k)
    decreases |ds|
  {
    if ds != [] && ds[0].name in nodes {
      AssociateExactly(nodes, Insert(m, nodes[ds[0].name].description), ds[1..]);
    }
  }

  predicate Known(nodes: map<bytes, NodeRecord>, ds: seq<NodeDescription>) {
    forall d :: d in ds ==> d.name in nodes
  }

  /** Networks and related nodes alternate. */
  function Network(ts: seq<Token>, i: nat): Token
    requires 2 * i + 1 < |ts|
  {
    ts[2 * i]
  }

  function RelatedNodes(ts: seq<Token>, i: nat): Token
    requires 2 * i + 1 < |ts|
  {
    ts[2 * i + 1]
  }

  /** The `i`th network, and after it nodes that are all known. */
  predicate PairAt(nodes: map<bytes, NodeRecord>, ts: seq<Token>, i: nat) {
    && 2 * i + 1 < |ts|
    && Network(ts, i).NetworkToken? && RelatedNodes(ts, i).RelatedToken? && Known(nodes, RelatedNodes(ts, i).related)
  }

  predicate NetworksFirst(nodes: map<bytes, NodeRecord>, ts: seq<Token>, m: nat) {
    forall i: nat :: i < m ==> PairAt(nodes, ts, i)
  }

  predicate NetworkBearer(nodes: map<bytes, NodeRecord>, ts: seq<Token>, m: nat, i: nat, x: bytes) {
    i < m && PairAt(nodes, ts, i) && Network(ts, i).network.name == x
  }

  predicate SomeNetworkBearer(nodes: map<bytes, NodeRecord>, ts: seq<Token>, m: nat, x: bytes) {
    exists i: nat | i < m :: NetworkBearer(nodes, ts, m, i, x)
  }

  /** The description and the associations, which are the very nodes of the store, are those of
      the `i`th network. */
  ghost predicate IsNetwork(nodes: map<bytes, NodeRecord>, ts: seq<Token>, i: nat, r: NetworkRecord)
    requires PairAt(nodes, ts, i)
  {
    && r.description == Network(ts, i).network
    && Points(r.associated, nodes)
    && forall k :: k in r.associated <==> exists d :: d in RelatedNodes(ts, i).related && d.name == k
  }

  /** The last network of its name is in the store. */
  ghost predicate NetworkFiledFrom(nodes: map<bytes, NodeRecord>, ts: seq<Token>, m: nat, x: bytes, r: NetworkRecord) {
    exists i: nat :: NetworkBearer(nodes, ts, m, i, x) && IsNetwork(nodes, ts, i, r)
      && forall j: nat :: NetworkBearer(nodes, ts, m, j, x) ==> j <= i
  }

  ghost predicate NamesKept(nodes: map<bytes, NodeRecord>) {
    forall k :: k in nodes ==> nodes[k].description.name == k
  }

  lemma OneRound(st: Store, ts: seq<Token>, m: nat)
    requires m > 0 && NamesKept(st.nodes)
    ensures PairAt(st.nodes, ts, 0) ==>
      LoadNetworks(st, ts, m) == LoadNetworks(PutNetwork(st, ts[0].network, Associate(st.nodes, map[], ts[1].related).0), ts[2..], m - 1)
    ensures !PairAt(st.nodes, ts, 0) ==> !LoadNetworks(st, ts, m).ok && LoadNetworks(st, ts, m).store.nodes == st.nodes
  {
    if |ts| > 1 && ts[1].RelatedToken? { AssociateExactly(st.nodes, map[], ts[1].related); }
  }

  lemma ShiftedPairs(nodes: map<bytes, NodeRecord>, ts: seq<Token>)
    requires |ts| > 1
    ensures forall i: nat :: PairAt(nodes, ts[2..], i) <==> PairAt(nodes, ts, i + 1)
  {
    forall i: nat ensures PairAt(nodes, ts[2..], i) <==> PairAt(nodes, ts, i + 1) {
      if 2 * i + 3 < |ts| {
        assert ts[2..][2 * i] == ts[2 * (i + 1)] && ts[2..][2 * i + 1] == ts[2 * (i + 1) + 1];
      }
    }
  }

  lemma {:induction false} NetworksMissing(st: Store, ts: seq<Token>, m: nat)
    requires NamesKept(st.nodes)
    ensures var l := LoadNetworks(st, ts, m);
      (l.ok <==> NetworksFirst(st.nodes, ts, m)) && l.store.nodes == st.nodes
    decreases m
  {
    hide LoadNetworks, Associate, PairAt, NamesKept;
    if m == 0 {
      NoRound(st, ts);
    } else {
      OneRound(st, ts, m);
      if PairAt(st.nodes, ts, 0) {
        HasTwo(st.nodes, ts);
        NetworksMissing(PutNetwork(st, ts[0].network, Associate(st.nodes, map[], ts[1].related).0), ts[2..], m - 1);
        ShiftedPairs(st.nodes, ts);
        if NetworksFirst(st.nodes, ts[2..], m - 1) {
          forall i: nat | i < m ensures PairAt(st.nodes, ts, i) {
            if i > 0 { assert PairAt(st.nodes, ts[2..], i - 1); }
          }
        }
        if NetworksFirst(st.nodes, ts, m) {
          forall i: nat | i < m - 1 ensures PairAt(st.nodes, ts[2..], i) { assert PairAt(st.nodes, ts, i + 1); }
        }
      }
    }
  }

  lemma NoRound(st: Store, ts: seq<Token>)
    ensures LoadNetworks(st, ts, 0) == Loading(st, ts, true)
  {
  }

  lemma HasTwo(nodes: map<bytes, NodeRecord>, ts: seq<Token>)
    requires PairAt(nodes, ts, 0)
    ensures |ts| > 1 && ts[0].NetworkToken? && ts[1].RelatedToken?
  {
  }

  /** The store after one more network. */
  ghost predicate Adds(nodes: map<bytes, NodeRecord>, ts: seq<Token>, i: nat, before: map<bytes, NetworkRecord>, after: map<bytes, NetworkRecord>) {
    && PairAt(nodes, ts, i)
    && var name := Network(ts, i).network.name;
       name in after && after == before[name := after[name]] && IsNetwork(nodes, ts, i, after[name])
  }

  lemma FirstAdds(st: Store, ts: seq<Token>)
    requires NamesKept(st.nodes) && PairAt(st.nodes, ts, 0)
    ensures Adds(st.nodes, ts, 0, st.networks, PutNetwork(st, ts[0].network, Associate(st.nodes, map[], ts[1].related).0).networks)
  {
    AssociateExactly(st.nodes, map[], ts[1].related);
  }

  lemma {:induction false} NetworksStep(st: Store, ts: seq<Token>, m: nat)
    requires NamesKept(st.nodes) && NetworksFirst(st.nodes, ts, m + 1)
    ensures Adds(st.nodes, ts, m, LoadNetworks(st, ts, m).store.networks, LoadNetworks(st, ts, m + 1).store.networks)
    decreases m
  {
    hide LoadNetworks, Associate, NamesKept, Points;
    assert PairAt(st.nodes, ts, 0);
    OneRound(st, ts, m + 1);
    HasTwo(st.nodes, ts);
    var next := PutNetwork(st, ts[0].network, Associate(st.nodes, map[], ts[1].related).0);
    if m == 0 {
      NoRound(st, ts);
      NoRound(next, ts[2..]);
      FirstAdds(st, ts);
    } else {
      OneRound(st, ts, m);
      ShiftedPairs(st.nodes, ts);
      forall i: nat | i < m ensures PairAt(st.nodes, ts[2..], i) { assert PairAt(st.nodes, ts, i + 1); }
      NetworksStep(next, ts[2..], m - 1);
      assert Network(ts[2..], m - 1) == Network(ts, m) && RelatedNodes(ts[2..], m - 1) == RelatedNodes(ts, m);
    }
  }

  lemma {:induction false} NetworksExactly(st: Store, ts: seq<Token>, m: nat, x: bytes)
    requires st.networks == map[] && NamesKept(st.nodes) && NetworksFirst(st.nodes, ts, m)
    ensures var networks := LoadNetworks(st, ts, m).store.networks;
      && (x in networks <==> SomeNetworkBearer(st.nodes, ts, m, x))
      && (x in networks ==> NetworkFiledFrom(st.nodes, ts, m, x, networks[x]))
  {
    hide LoadNetworks, NamesKept, Adds, NetworkFiledFrom;
    if m == 0 {
      NoRound(st, ts);
    } else {
      var k: nat := m - 1;
      assert NetworksFirst(st.nodes, ts, k);
      NetworksExactly(st, ts, k, x);
      NetworksStep(st, ts, k);
      LastNetwork(st.nodes, ts, m, x, LoadNetworks(st, ts, k).store.networks, LoadNetworks(st, ts, m).store.networks);
    }
  }

  lemma LastNetwork(nodes: map<bytes, NodeRecord>, ts: seq<Token>, m: nat, x: bytes,
      before: map<bytes, NetworkRecord>, after: map<bytes, NetworkRecord>)
    requires m > 0 && Adds(nodes, ts, m - 1, before, after)
    requires x in before <==> SomeNetworkBearer(nodes, ts, m - 1, x)
    requires x in before ==> NetworkFiledFrom(nodes, ts, m - 1, x, before[x])
    ensures x in after <==> SomeNetworkBearer(nodes, ts, m, x)
    ensures x in after ==> NetworkFiledFrom(nodes, ts, m, x, after[x])
  {
    hide IsNetwork;
    var k: nat := m - 1;
    var name := Network(ts, k).network.name;
    assert forall i: nat :: NetworkBearer(nodes, ts, m, i, x) <==> NetworkBearer(nodes, ts, k, i, x) || (i == k && name == x);
    if name == x {
      assert NetworkBearer(nodes, ts, m, k, x);
    } else if x in before {
      var i: nat :| NetworkBearer(nodes, ts, k, i, x) && IsNetwork(nodes, ts, i, before[x])
        && forall j: nat :: NetworkBearer(nodes, ts, k, j, x) ==> j <= i;
      assert NetworkBearer(nodes, ts, m, i, x);
    }
  }

  // ---- Whole archives --------------------------------------------------------------------

  function Count(n: int): nat { if n < 0 then 0 else n }

  /** A count and as many nodes, a count and as many networks, each followed by related nodes
      that are all among the first. Whatever comes behind is not read. */
  ghost predicate Loadable(ts: seq<Token>, n: nat, m: nat) {
    && ReadCount(ts).Some? && n == Count(ReadCount(ts).value) && NodesFirst(ts[1..], n)
    && ReadCount(ts[n + 1..]).Some? && m == Count(ReadCount(ts[n + 1..]).value)
    && NetworksFirst(LoadNodes(EMPTY, ts[1..], n).store.nodes, ts[n + 2..], m)
  }

  lemma NegativeCount(st: Store, ts: seq<Token>, n: int)
    ensures LoadNodes(st, ts, n) == LoadNodes(st, ts, Count(n))
    ensures LoadNetworks(st, ts, n) == LoadNetworks(st, ts, Count(n))
  {
  }

  /** Loading succeeds exactly on archives of that shape. In the store are then the nodes and
      networks of the archive by name, the last of each name, associated as listed. */
  lemma LoadExactly(ts: seq<Token>)
    ensures Load(ts).ok <==> exists n: nat, m: nat :: Loadable(ts, n, m)
    ensures forall n: nat, m: nat :: Loadable(ts, n, m) ==> var st := Load(ts).store;
      && (forall x :: x in st.nodes <==> SomeBearer(ts[1..], n, x))
      && (forall x :: x in st.nodes ==> FiledFrom(ts[1..], n, x, st.nodes[x]))
      && (forall x :: x in st.networks <==> SomeNetworkBearer(st.nodes, ts[n + 2..], m, x))
      && (forall x :: x in st.networks ==> NetworkFiledFrom(st.nodes, ts[n + 2..], m, x, st.networks[x]))
  {
    hide LoadNodes, LoadNetworks, NodesFirst, NetworksFirst, FiledFrom, NetworkFiledFrom, SomeBearer, SomeNetworkBearer;
    if ReadCount(ts).Some? {
      var n := Count(ReadCount(ts).value);
      NegativeCount(EMPTY, ts[1..], ReadCount(ts).value);
      NodesMissing(EMPTY, ts[1..], n);
      if NodesFirst(ts[1..], n) {
        var nodes := LoadNodes(EMPTY, ts[1..], n).store;
        forall x ensures (x in nodes.nodes <==> SomeBearer(ts[1..], n, x))
            && (x in nodes.nodes ==> FiledFrom(ts[1..], n, x, nodes.nodes[x]) && nodes.nodes[x].description.name == x)
        {
          NodesExactly(ts[1..], n, x);
        }
        AfterNodes(ts, n);
        if ReadCount(ts[n + 1..]).Some? {
          var m := Count(ReadCount(ts[n + 1..]).value);
          NegativeCount(nodes, ts[n + 2..], ReadCount(ts[n + 1..]).value);
          NetworksMissing(nodes, ts[n + 2..], m);
          assert Load(ts) == LoadNetworks(nodes, ts[n + 2..], m);
          if NetworksFirst(nodes.nodes, ts[n + 2..], m) {
            assert Loadable(ts, n, m);
            forall x ensures (x in Load(ts).store.networks <==> SomeNetworkBearer(nodes.nodes, ts[n + 2..], m, x))
                && (x in Load(ts).store.networks ==> NetworkFiledFrom(nodes.nodes, ts[n + 2..], m, x, Load(ts).store.networks[x]))
            {
              NetworksExactly(nodes, ts[n + 2..], m, x);
            }
          }
        }
      }
    }
  }

  lemma AfterNodes(ts: seq<Token>, n: nat)
    requires ts != [] && NodesFirst(ts[1..], n)
    ensures n + 1 <= |ts| && ts[1..][n..] == ts[n + 1..]
    ensures n + 1 < |ts| ==> ts[n + 1..][1..] == ts[n + 2..]
  {
  }
}
