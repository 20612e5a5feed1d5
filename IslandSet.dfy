/**
 The island set: a table from each registered node to the island (connected
 group) it belongs to, updated in place as fields are connected and
 disconnected.

 The island operations are not part of this model. They are the constants
 `singleton` (the island built for a newly added node), `join` (joining two
 islands) and `split` (splitting an island on a field), fixed when the set is
 created and otherwise unconstrained: each is a fixed function of its
 arguments for the life of the set. Island equality is `==` on the island type.
 */
module IslandSets {
  import opened IslandTable

  class IslandSet<Node(==), Island(==, !new)> {
    const singleton: Node -> Island
    const join: (Island, Island) -> Island
    const split: (Island, Field<Node>) -> Island

    /** Each registered node's current island. */
    var islandMap: map<Node, Island>

    /** A new island set has no registered node. */
    constructor (singleton: Node -> Island, join: (Island, Island) -> Island, split: (Island, Field<Node>) -> Island)
      ensures islandMap == map[]
      ensures Islands() == multiset{}
      ensures this.singleton == singleton && this.join == join && this.split == split
    {
      this.singleton := singleton;
      this.join := join;
      this.split := split;
      islandMap := map[];
    }

    /** The islands of all registered nodes, one per node, in no particular order. */
    ghost function Islands(): multiset<Island>
      reads this
    {
      ValuesOf(islandMap)
    }

    /** Registers `node` as its own singleton island. */
    method Add(node: Node)
      requires node !in islandMap
      modifies this
      ensures islandMap == AddEntry(old(islandMap), node, singleton)
      ensures islandMap.Keys == old(islandMap.Keys) + {node}
      ensures Islands() == old(Islands()) + multiset{singleton(node)}
    {
      IslandsAfterAdd(islandMap, node, singleton);
      islandMap := islandMap[node := singleton(node)];
    }

    /** Joins the islands of the field's endpoints and points both endpoints at the result. */
    method Connect(field: Field<Node>)
      requires field.parent in islandMap && field.connected in islandMap
      modifies this
      ensures islandMap == ConnectEntries(old(islandMap), field, join)
      ensures islandMap.Keys == old(islandMap.Keys)
      ensures IsConnected(field.parent, field.connected)
      ensures Islands() ==
                if field.parent == field.connected then
                  old(Islands()) - multiset{old(islandMap[field.parent])} + multiset{islandMap[field.parent]}
                else
                  old(Islands()) - multiset{old(islandMap[field.parent]), old(islandMap[field.connected])}
                  + multiset{islandMap[field.parent], islandMap[field.connected]}
    {
      var parent := field.parent;
      var connected := field.connected;
      var start := islandMap[parent];
      var end := islandMap[connected];
      IslandsAfterConnect(islandMap, field, join);

      var joinedIsland := join(start, end);

      islandMap := islandMap[parent := joinedIsland];
      islandMap := islandMap[connected := joinedIsland];
    }

    /**
     Does nothing when the field's endpoints are already in different islands;
     otherwise splits the parent's island on the field and points only the
     connected node at the result.
     */
    method Disconnect(field: Field<Node>)
      requires field.parent in islandMap && field.connected in islandMap
      modifies this
      ensures islandMap == DisconnectEntries(old(islandMap), field, split)
      ensures islandMap.Keys == old(islandMap.Keys)
      ensures old(islandMap[field.parent]) != old(islandMap[field.connected]) ==> islandMap == old(islandMap)
      ensures field.parent != field.connected ==> islandMap[field.parent] == old(islandMap[field.parent])
      ensures old(islandMap[field.parent]) == old(islandMap[field.connected]) ==>
                Islands() == old(Islands()) - multiset{old(islandMap[field.parent])} + multiset{islandMap[field.connected]}
    {
      var parent := field.parent;
      var connected := field.connected;
      var start := islandMap[parent];
      var end := islandMap[connected];
      IslandsAfterDisconnect(islandMap, field, split);

      if start != end {
        return;
      }

      var newIsland := split(start, field);

      islandMap := islandMap[connected := newIsland];
    }

    /** True if the two nodes are in the same island. */
    predicate IsConnected(start: Node, end: Node)
      reads this
      requires start in islandMap && end in islandMap
      ensures IsConnected(start, end) <==> start in Members(islandMap, islandMap[end])
      ensures IsConnected(start, end) <==> end in Members(islandMap, islandMap[start])
      ensures start == end ==> IsConnected(start, end)
    {
      Connected(islandMap, start, end)
    }

    /** Connectivity does not depend on the order of the two nodes. */
    lemma IsConnectedSymmetric(start: Node, end: Node)
      requires start in islandMap && end in islandMap
      ensures IsConnected(start, end) == IsConnected(end, start)
    {
    }
  }
}
