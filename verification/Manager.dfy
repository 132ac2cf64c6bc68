/** `Manager`: the client's nodes and networks, their creation and removal, and their saved
    state. */
module Managers {
  import opened Bytes
  import opened ClientTypes
  import opened Nodes
  import opened Networks
  import opened Archive

  datatype NodeEntry = NodeEntry(key: NodeDescription, node: Node)
  datatype NetworkEntry = NetworkEntry(key: NetworkDescription, network: Network)

  /** The user of a node created without one. */
  const DEFAULT_USER := MyUser([117, 115, 101, 114], [112, 97, 115, 115, 119, 111, 114, 100], [101, 109, 97, 105, 108], false)

  class Manager {
    var nodesMap: map<bytes, NodeEntry>
    var networksMap: map<bytes, NetworkEntry>

    constructor ()
      ensures Valid() && Snapshot() == EMPTY
    {
      nodesMap, networksMap := map[], map[];
    }

    /** The maps compare their keys by name. */
    ghost predicate Valid()
      reads this
    {
      && (forall k :: k in nodesMap ==> nodesMap[k].key.name == k)
      && (forall k :: k in networksMap ==> networksMap[k].key.name == k && networksMap[k].network.description.name == k)
    }

    /** Networks cannot be renamed, and each keeps its associations filed by name; nodes can. */
    lemma SnapshotKeyed()
      requires Valid() && forall k :: k in networksMap ==> networksMap[k].network.Named()
      ensures NetworksKeyed(Snapshot())
    {
    }

    static ghost function NodeAt(e: NodeEntry): NodeRecord
      reads e.node
    {
      NodeRecord(e.key, e.node.description, e.node.user)
    }

    static ghost function NetworkAt(e: NetworkEntry): NetworkRecord
      reads e.network
    {
      NetworkRecord(e.key, e.network.description, e.network.Associated())
    }

    ghost function NodesView(): map<bytes, NodeRecord>
      reads this`nodesMap, set k | k in nodesMap :: nodesMap[k].node
    {
      map k | k in nodesMap :: NodeAt(nodesMap[k])
    }

    ghost function NetworksView(): map<bytes, NetworkRecord>
      reads this`networksMap, set k | k in networksMap :: networksMap[k].network
    {
      map k | k in networksMap :: NetworkAt(networksMap[k])
    }

    ghost function Snapshot(): Store
      reads this, set k | k in nodesMap :: nodesMap[k].node, set k | k in networksMap :: networksMap[k].network
    {
      Store(NodesView(), NetworksView())
    }

    /** The associations of `network` lead to the very nodes of `nodes_map`. */
    ghost predicate LinkedTo(network: Network)
      reads this`nodesMap, network
    {
      forall a :: a in network.nodeSet ==> a in nodesMap && network.nodeSet[a].node == nodesMap[a].node
    }

    ghost predicate Linked()
      reads this, set k | k in networksMap :: networksMap[k].network
    {
      forall k :: k in networksMap ==> LinkedTo(networksMap[k].network)
    }

    lemma NodesInView()
      ensures NodesView().Keys == nodesMap.Keys
      ensures forall k :: k in nodesMap ==> NodesView()[k] == NodeAt(nodesMap[k])
    {
    }

    lemma NetworksInView()
      ensures NetworksView().Keys == networksMap.Keys
      ensures forall k :: k in networksMap ==> NetworksView()[k] == NetworkAt(networksMap[k])
    {
    }

    // ---- Nodes and networks --------------------------------------------------------------

    method CreateNode(description: NodeDescription, user: MyUser) returns (r: Option<Node>)
      requires Valid()
      modifies this`nodesMap
      ensures Valid()
      ensures r.Some? <==> description.name !in old(nodesMap)
      ensures r.Some? ==> fresh(r.value) && r.value.description == description && r.value.Current() == Session(user, false, [], false)
      ensures nodesMap == if r.Some? then old(nodesMap)[description.name := NodeEntry(description, r.value)] else old(nodesMap)
    {
      if description.name in nodesMap { return None; }
      var node := new Node(description, user);
      nodesMap := nodesMap[description.name := NodeEntry(description, node)];
      r := Some(node);
    }

    /** `createNode` without a user. */
    method CreateNodeOfDefault(description: NodeDescription) returns (r: Option<Node>)
      requires Valid()
      modifies this`nodesMap
      ensures Valid() && (r.Some? <==> description.name !in old(nodesMap))
      ensures r.Some? ==> fresh(r.value) && r.value.description == description && r.value.user == DEFAULT_USER
      ensures nodesMap == if r.Some? then old(nodesMap)[description.name := NodeEntry(description, r.value)] else old(nodesMap)
    {
      r := CreateNode(description, DEFAULT_USER);
    }

    /** The search through the map for an equal name. */
    method GetNode(name: bytes) returns (r: Option<Node>)
      requires Valid()
      ensures r == if name in nodesMap then Some(nodesMap[name].node) else None
    {
      var todo := nodesMap.Keys;
      while todo != {}
        invariant todo <= nodesMap.Keys && (name in nodesMap ==> name in todo)
        decreases todo
      {
        var k :| k in todo;
        if nodesMap[k].key.name == name { return Some(nodesMap[k].node); }
        todo := todo - {k};
      }
      r := None;
    }

    method RemoveNode(name: bytes) returns (found: bool)
      requires Valid()
      modifies this`nodesMap
      ensures Valid() && found == (name in old(nodesMap)) && nodesMap == old(nodesMap) - {name}
    {
      found := name in nodesMap;
      if found { nodesMap := nodesMap - {name}; }
    }

    method CreateNetwork(description: NetworkDescription) returns (r: Option<Network>)
      requires Valid()
      modifies this`networksMap
      ensures Valid()
      ensures r.Some? <==> description.name !in old(networksMap)
      ensures r.Some? ==> fresh(r.value) && r.value.description == description && r.value.nodeSet == map[]
      ensures networksMap ==
              if r.Some? then old(networksMap)[description.name := NetworkEntry(description, r.value)] else old(networksMap)
    {
      if description.name in networksMap { return None; }
      var network := new Network(description);
      networksMap := networksMap[description.name := NetworkEntry(description, network)];
      r := Some(network);
    }

    method RemoveNetwork(name: bytes) returns (found: bool)
      requires Valid()
      modifies this`networksMap
      ensures Valid() && found == (name in old(networksMap)) && networksMap == old(networksMap) - {name}
    {
      found := name in networksMap;
      if found { networksMap := networksMap - {name}; }
    }

    /** Every connection is stopped first. */
    method Clear()
      modifies this, set k | k in nodesMap :: nodesMap[k].node`active
      ensures nodesMap == map[] && networksMap == map[]
      ensures forall k :: k in old(nodesMap) ==> !old(nodesMap)[k].node.active
    {
      var todo := nodesMap.Keys;
      while todo != {}
        invariant todo <= nodesMap.Keys && nodesMap == old(nodesMap)
        invariant forall k :: k in nodesMap && k !in todo ==> !nodesMap[k].node.active
        decreases todo
      {
        var k :| k in todo;
        nodesMap[k].node.active := false;
        todo := todo - {k};
      }
      nodesMap, networksMap := map[], map[];
    }

    // ---- Saving --------------------------------------------------------------------------

    method SaveState() returns (sink: seq<Token>)
      ensures Prints(Snapshot(), sink)
    {
      hide Enumerates, NodeTokens, NetworkTokens, Relates, ToString;
      NodesInView();
      NetworksInView();
      var nodes, ks := SaveNodes();
      var networks, ns, rs := SaveNetworks();
      ghost var o := Order(ks, ns, rs);
      assert NodesView().Keys == nodesMap.Keys && NetworksView().Keys == networksMap.Keys;
      sink := [Text(ToString(|nodesMap|))] + (nodes + ([Text(ToString(|networksMap|))] + networks));
      SameSize(NodesView(), nodesMap);
      SameSize(NetworksView(), networksMap);
      assert IsOrder(Snapshot(), o) && sink == Print(Snapshot(), o);
    }

    static lemma SameSize<U, V>(a: map<bytes, U>, b: map<bytes, V>)
      requires a.Keys == b.Keys
      ensures |a| == |b|
    {
      assert |a.Keys| == |a| && |b.Keys| == |b|;
    }

    method SaveNodes() returns (sink: seq<Token>, ghost ks: seq<bytes>)
      ensures Enumerates(ks, NodesView().Keys) && (forall k :: k in ks ==> k in NodesView()) && sink == NodeTokens(NodesView(), ks)
    {
      hide Enumerates, NodeTokens;
      ghost var view := NodesView();
      NothingSaved(view, map[]);
      sink, ks := [], [];
      var todo := nodesMap.Keys;
      assert view.Keys - todo == {};
      while todo != {}
        invariant todo <= view.Keys == nodesMap.Keys && Enumerates(ks, view.Keys - todo)
        invariant forall k :: k in ks ==> k in view
        invariant sink == NodeTokens(view, ks)
        decreases todo
      {
        var k :| k in todo;
        NodeTokensAppend(view, ks, k);
        EnumeratesNext(ks, view.Keys, todo, k);
        todo := todo - {k};
        sink := sink + [NodeToken(nodesMap[k].node.description, nodesMap[k].node.user)];
        ks := ks + [k];
      }
      assert view.Keys - {} == view.Keys;
    }

    static lemma NothingSaved(nodes: map<bytes, NodeRecord>, networks: map<bytes, NetworkRecord>)
      ensures Enumerates([], {}) && NodeTokens(nodes, []) == []
      ensures Relates(networks, [], map[]) && NetworkTokens(networks, [], map[]) == []
    {
    }

    method SaveNetworks() returns (sink: seq<Token>, ghost ks: seq<bytes>, ghost rs: map<bytes, seq<bytes>>)
      ensures Enumerates(ks, NetworksView().Keys) && Relates(NetworksView(), ks, rs)
      ensures forall k :: k in NetworksView() ==> k in rs && Enumerates(rs[k], NetworksView()[k].associated.Keys)
      ensures sink == NetworkTokens(NetworksView(), ks, rs)
    {
      hide Enumerates, NetworkTokens, Relates;
      ghost var view := NetworksView();
      NetworksInView();
      NothingSaved(map[], view);
      sink, ks, rs := [], [], map[];
      var todo := networksMap.Keys;
      assert view.Keys - todo == {};
      while todo != {}
        invariant todo <= view.Keys == networksMap.Keys && Enumerates(ks, view.Keys - todo)
        invariant view == NetworksView() && rs.Keys == view.Keys - todo
        invariant forall k :: k in rs ==> Enumerates(rs[k], view[k].associated.Keys)
        invariant Relates(view, ks, rs)
        invariant sink == NetworkTokens(view, ks, rs)
        decreases todo
      {
        var k :| k in todo;
        var network := networksMap[k].network;
        NetworksInView();
        FiledAs(networksMap[k]);
        var related, names := SaveRelated(network);
        assert NetworksView() == view;
        EnumeratesNext(ks, view.Keys, todo, k);
        NetworkTokensAppend(view, ks, rs, k, names);
        todo := todo - {k};
        sink := sink + [NetworkToken(network.description), RelatedToken(related)];
        ks, rs := ks + [k], rs[k := names];
      }
      assert view.Keys - {} == view.Keys;
    }

    method SaveRelated(network: Network) returns (related: seq<NodeDescription>, ghost names: seq<bytes>)
      ensures Enumerates(names, network.Associated().Keys) && (forall a :: a in names ==> a in network.Associated())
      ensures related == Archive.Related(network.Associated(), names)
    {
      hide Enumerates;
      ghost var view := network.Associated();
      NothingSaved(map[], map[]);
      related, names := [], [];
      var todo := network.nodeSet.Keys;
      assert view.Keys - todo == {};
      while todo != {}
        invariant todo <= view.Keys == network.nodeSet.Keys && Enumerates(names, view.Keys - todo)
        invariant forall a :: a in names ==> a in view
        invariant related == Archive.Related(view, names)
        decreases todo
      {
        var a :| a in todo;
        EnumeratesNext(names, view.Keys, todo, a);
        todo := todo - {a};
        related := related + [network.nodeSet[a].key];
        names := names + [a];
      }
      assert view.Keys - {} == view.Keys;
    }

    // ---- Loading -------------------------------------------------------------------------

    /** Entries are filed under the names their objects have. */
    ghost predicate Named()
      reads this`nodesMap, set k | k in nodesMap :: nodesMap[k].node
    {
      forall k :: k in nodesMap ==> nodesMap[k].key.name == k && nodesMap[k].node.description.name == k
    }

    /** A new node under its name; a key already there stays. */
    method FileNode(description: NodeDescription, user: MyUser)
      requires Named()
      modifies this`nodesMap
      ensures Named()
      ensures NodesView() == PutNode(Store(old(NodesView()), map[]), description, user).nodes
    {
      hide NodeAt;
      ghost var before := NodesView();
      var name := description.name;
      if name in nodesMap { FiledNode(nodesMap[name]); }
      var node := new Node(description, user);
      var entry := NodeEntry(if name in nodesMap then nodesMap[name].key else description, node);
      nodesMap := nodesMap[name := entry];
      FiledNode(entry);
      assert NodesView() == before[name := NodeAt(entry)];
    }

    static lemma FiledNode(e: NodeEntry)
      ensures NodeAt(e) == NodeRecord(e.key, e.node.description, e.node.user)
    {
    }

    /** The loop over the nodes. */
    method ReadNodes(source: seq<Token>, nc: int) returns (rest: seq<Token>, ok: bool)
      requires Named()
      modifies this`nodesMap
      ensures Named()
      ensures var l := LoadNodes(Store(old(NodesView()), map[]), source, nc);
        NodesView() == l.store.nodes && rest == l.rest && ok == l.ok && l.store.networks == map[]
    {
      hide LoadNodes, NodesView, Named;
      rest, ok := source, true;
      var i := 0;
      while i < nc
        invariant 0 <= i && (i <= nc || nc < 0) && ok && Named()
        invariant LoadNodes(Store(NodesView(), map[]), rest, nc - i) == LoadNodes(Store(old(NodesView()), map[]), source, nc)
      {
        LoadNodesRound(Store(NodesView(), map[]), rest, nc - i);
        if rest == [] || !rest[0].NodeToken? { return rest, false; }
        FileNode(rest[0].node, rest[0].user);
        rest := rest[1..];
        i := i + 1;
      }
      LoadNodesRound(Store(NodesView(), map[]), rest, nc - i);
    }

    static lemma LoadNodesRound(st: Store, ts: seq<Token>, n: int)
      ensures n <= 0 ==> LoadNodes(st, ts, n) == Loading(st, ts, true)
      ensures n > 0 && (ts == [] || !ts[0].NodeToken?) ==> LoadNodes(st, ts, n) == Loading(st, ts, false)
      ensures n > 0 && ts != [] && ts[0].NodeToken? ==>
        LoadNodes(st, ts, n) == LoadNodes(PutNode(st, ts[0].node, ts[0].user), ts[1..], n - 1)
    {
    }

    /** The loop over the related nodes of a network. */
    method AssociateAll(network: Network, related: seq<NodeDescription>) returns (ok: bool)
      requires Named() && LinkedTo(network)
      modifies network`nodeSet
      ensures LinkedTo(network)
      ensures (network.Associated(), ok) == Associate(NodesView(), old(network.Associated()), related)
    {
      hide NodesView, Associate;
      NodesInView();
      ghost var view, all := NodesView(), Associate(NodesView(), network.Associated(), related);
      ok := true;
      assert related[0..] == related;
      for i := 0 to |related|
        invariant ok && LinkedTo(network) && NodesView() == view
        invariant Associate(view, network.Associated(), related[i..]) == all
      {
        AssociateRound(view, network.Associated(), related, i);
        var name := related[i].name;
        if name !in nodesMap { return false; }
        ghost var before := network.Associated();
        network.AssociateNode(nodesMap[name].node);
        assert network.Associated() == Insert(before, view[name].description);
      }
      AssociateRound(view, network.Associated(), related, |related|);
    }

    static lemma AssociateRound(nodes: map<bytes, NodeRecord>, m: map<bytes, NodeDescription>, ds: seq<NodeDescription>, i: nat)
      requires i <= |ds|
      ensures i == |ds| ==> Associate(nodes, m, ds[i..]) == (m, true)
      ensures i < |ds| && ds[i].name !in nodes ==> Associate(nodes, m, ds[i..]) == (m, false)
      ensures i < |ds| && ds[i].name in nodes ==>
        Associate(nodes, m, ds[i..]) == Associate(nodes, Insert(m, nodes[ds[i].name].description), ds[i + 1..])
    {
      if i < |ds| { assert ds[i..][0] == ds[i] && ds[i..][1..] == ds[i + 1..]; }
    }

    static lemma FiledAs(e: NetworkEntry)
      ensures NetworkAt(e) == NetworkRecord(e.key, e.network.description, e.network.Associated())
    {
    }

    lemma NothingLinked(network: Network)
      requires network.nodeSet == map[]
      ensures network.Associated() == map[] && LinkedTo(network)
    {
    }

    /** A new network under its name; a key already there stays. */
    method File(description: NetworkDescription) returns (network: Network)
      requires Valid() && Linked()
      modifies this`networksMap
      ensures Valid() && Linked()
      ensures fresh(network) && network.description == description && network.Associated() == map[]
      ensures description.name in networksMap && networksMap[description.name].network == network
      ensures forall k :: k in networksMap && k != description.name ==> networksMap[k].network != network
      ensures NetworksView() == PutNetwork(Store(map[], old(NetworksView())), description, map[]).networks
    {
      hide NetworkAt, LinkedTo;
      var name := description.name;
      if name in networksMap { FiledAs(networksMap[name]); }
      network := new Network(description);
      var entry := NetworkEntry(if name in networksMap then networksMap[name].key else description, network);
      networksMap := networksMap[name := entry];
      FiledAs(entry);
      NothingLinked(network);
      assert NetworksView() == old(NetworksView())[name := NetworkAt(entry)];
    }

    /** What is read of the related nodes goes into the network of that name. */
    method Fill(name: bytes, related: seq<NodeDescription>) returns (ok: bool)
      requires Valid() && Named() && Linked() && name in networksMap
      requires forall k :: k in networksMap && k != name ==> networksMap[k].network != networksMap[name].network
      modifies networksMap[name].network`nodeSet
      ensures Valid() && Linked()
      ensures var a := Associate(NodesView(), old(NetworksView()[name].associated), related);
        NetworksView() == old(NetworksView())[name := old(NetworksView()[name]).(associated := a.0)] && ok == a.1
    {
      hide NetworkAt, Associate, LinkedTo, NodeAt, Named, NodesView;
      ghost var before := NetworksView();
      var network := networksMap[name].network;
      FiledAs(networksMap[name]);
      ok := AssociateAll(network, related);
      FiledAs(networksMap[name]);
      forall k | k in networksMap && k != name
        ensures NetworkAt(networksMap[k]) == before[k] && LinkedTo(networksMap[k].network)
      {
        assert before[k] == old(NetworkAt(networksMap[k])) && old(LinkedTo(networksMap[k].network));
      }
      assert NetworksView() == before[name := NetworkAt(networksMap[name])];
    }

    /** The loop over the networks. */
    method ReadNetworks(source: seq<Token>, nc: int) returns (ok: bool)
      requires Valid() && Named() && Linked()
      modifies this`networksMap
      ensures Valid() && Linked()
      ensures var l := LoadNetworks(Store(NodesView(), old(NetworksView())), source, nc);
        Snapshot() == l.store && ok == l.ok
    {
      hide Associate, Named, Linked, NodesView, NetworksView, LoadNetworks;
      ok := true;
      var rest, i := source, 0;
      while i < nc
        invariant 0 <= i && (i <= nc || nc < 0) && ok && Valid() && Named() && Linked()
        invariant LoadNetworks(Snapshot(), rest, nc - i) == LoadNetworks(Store(NodesView(), old(NetworksView())), source, nc)
      {
        LoadNoNetworks(Snapshot(), rest, nc - i);
        if rest == [] || !rest[0].NetworkToken? { return false; }
        LoadNetworksRound(Snapshot(), rest, nc - i);
        var network := File(rest[0].network);
        if |rest| == 1 || !rest[1].RelatedToken? { return false; }
        ok := Fill(rest[0].network.name, rest[1].related);
        if !ok { return; }
        rest := rest[2..];
        i := i + 1;
      }
      LoadNoNetworks(Snapshot(), rest, nc - i);
    }

    static lemma LoadNoNetworks(st: Store, ts: seq<Token>, n: int)
      ensures n <= 0 ==> LoadNetworks(st, ts, n) == Loading(st, ts, true)
      ensures n > 0 && (ts == [] || !ts[0].NetworkToken?) ==> LoadNetworks(st, ts, n) == Loading(st, ts, false)
    {
    }

    /** Afterwards, even when it fails midway, every association leads to a node in the map. */
    method LoadState(source: seq<Token>) returns (ok: bool)
      modifies this, set k | k in nodesMap :: nodesMap[k].node`active
      ensures Snapshot() == Load(source).store && ok == Load(source).ok
      ensures Valid() && Linked()
    {
      Clear();
      assert Snapshot() == EMPTY;
      var nodes := ReadCount(source);
      if nodes.None? { return false; }
      var rest;
      rest, ok := ReadNodes(source[1..], nodes.value);
      if !ok { return; }
      var networks := ReadCount(rest);
      if networks.None? { return false; }
      ok := ReadNetworks(rest[1..], networks.value);
    }
  }
}
