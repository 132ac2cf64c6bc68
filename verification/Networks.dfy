/** `Network`: the nodes a network is known to exist on. */
module Networks {
  import opened Bytes
  import opened ClientTypes
  import opened Nodes

  /** An entry of `node_set`: its key, and the node it points to without owning it. */
  datatype Association = Association(key: NodeDescription, node: Node)

  class Network {
    const description: NetworkDescription
    var nodeSet: map<bytes, Association>

    constructor (description: NetworkDescription)
      ensures this.description == description && nodeSet == map[] && Named()
    {
      this.description, nodeSet := description, map[];
    }

    /** The keys of `node_set`, by name. */
    ghost function Associated(): map<bytes, NodeDescription>
      reads this`nodeSet
    {
      map a | a in nodeSet :: nodeSet[a].key
    }

    /** Associations are filed under the names of their keys. */
    ghost predicate Named()
      reads this`nodeSet
    {
      forall a :: a in nodeSet ==> nodeSet[a].key.name == a
    }

    /** An association of that name which is already there stays. */
    method AssociateNode(node: Node)
      modifies this`nodeSet
      ensures nodeSet == if node.description.name in old(nodeSet) then old(nodeSet)
                         else old(nodeSet)[node.description.name := Association(node.description, node)]
      ensures old(Named()) ==> Named()
    {
      var name := node.description.name;
      if name !in nodeSet {
        nodeSet := nodeSet[name := Association(node.description, node)];
      }
    }

    method DetachNode(node: NodeDescription)
      modifies this`nodeSet
      ensures nodeSet == old(nodeSet) - {node.name}
      ensures old(Named()) ==> Named()
    {
      nodeSet := nodeSet - {node.name};
    }

    /** `alive` are the nodes that still exist. Expired associations are dropped on the way. */
    method IsActive(alive: set<Node>) returns (active: bool)
      modifies this`nodeSet
      ensures nodeSet == map a | a in old(nodeSet) && old(nodeSet)[a].node in alive :: old(nodeSet)[a]
      ensures active <==> exists a :: a in nodeSet && nodeSet[a].node.active
      ensures old(Named()) ==> Named()
    {
      active := false;
      var todo := nodeSet.Keys;
      while todo != {}
        invariant todo <= nodeSet.Keys
        invariant forall a :: a in nodeSet ==> a in old(nodeSet) && nodeSet[a] == old(nodeSet)[a]
        invariant forall a :: a in old(nodeSet) && a !in todo ==> (a in nodeSet <==> old(nodeSet)[a].node in alive)
        invariant active <==> exists a :: a in nodeSet && a !in todo && nodeSet[a].node.active
        decreases todo
      {
        var it :| it in todo;
        todo := todo - {it};
        if nodeSet[it].node !in alive {
          nodeSet := nodeSet - {it};
        } else {
          active := active || nodeSet[it].node.active;
        }
      }
    }
  }
}
