# IslandSet — a verified model of Nodule's island table

Nodule keeps track of which nodes of its puzzle graph are joined by fields
(arcs) through the class `IslandSet`. It holds a dictionary from each
registered node to the island (connected group) the node belongs to:

- `Add(node)` registers a node as its own singleton island;
- `Connect(field)` joins the islands of the field's two endpoints and points
  both endpoint entries at the joined island;
- `Disconnect(field)` does nothing when the endpoints' islands already differ,
  and otherwise splits the island on the field and points only the connected
  node's entry at the result;
- `IsConnected(start, end)` compares the two nodes' islands;
- `Islands` lists the island of every registered node.

This project models that class in Dafny:

- `IslandTable.dfy` (module `IslandTable`): the `Field` datatype (parent node,
  connected node), the table as a value `map<Node, Island>`, one function per
  rewrite of the table (`AddEntry`, `ConnectEntries`, `DisconnectEntries`),
  the connectivity test `Connected`, the islands view `ValuesOf` as a multiset
  with one island per registered node, and lemmas about them.
- `IslandSet.dfy` (module `IslandSets`): the class `IslandSet` with the field
  `islandMap` that its methods `Add`, `Connect` and `Disconnect` rewrite in
  place, the query `IsConnected` and the ghost view `Islands`. Each method's
  postcondition ties the new table to the function above applied to the old
  table, and says how the islands view changes.

The `Island` class and its `Join`, `Split` and `Equals` live in another file
of the repository, which is not part of this model. Nodes and islands are
therefore type parameters. The island constructor, `Join` and `Split` are the
class's constants `singleton`, `join` and `split`, supplied when the set is
created and otherwise unconstrained; island equality is `==`. Every property
proved here holds for any choice of these three operations, provided each is a
fixed function of its arguments: `split` of the island value and the field's
two endpoints, `join` of the two island values. Where a property depends
on them, the lemma names the condition it needs (`ConnectTwice`,
`ConnectThenDisconnect`, `ChainedConnect`, `AddIsolates`).

What the proofs show, in short: only `Add` changes the set of registered
nodes; `Connect` rewrites exactly the two endpoint entries and leaves them
connected; `Disconnect` is a no-op when the endpoints' islands differ and
otherwise rewrites exactly the connected node's entry; `IsConnected` is
reflexive and symmetric; the islands view holds one island per registered node
and changes exactly by the entries each operation rewrites. Because `Connect`
rewrites only two entries, connecting a–b and then b–c leaves a connected to c
only when `Join` hands back the first joined island (`ChainedConnect`). Nothing
here claims that islands partition the nodes or that connectivity is transitive.

`Add` on a registered node is excluded by a precondition, because
`Dictionary.Add` throws on a duplicate key (IslandSet.cs:18). `Connect` and
`Disconnect` rewrite only the endpoint entries (IslandSet.cs:31-32, 48); other
members of a joined or split island are not relabelled.

## Model

| member | source | states |
|---|---|---|
| IslandTable.AddEntry | Nodule/Assets/Scripts/Model/Data/IslandSet.cs:16-19 | the node must be new; afterwards the keys are the old keys plus the node, the node holds its singleton island and every old entry is kept |
| IslandTable.ConnectEntries | Nodule/Assets/Scripts/Model/Data/IslandSet.cs:21-33 | both endpoints must be registered; the keys are unchanged, both endpoints hold the join of their old islands, every other entry is kept |
| IslandTable.DisconnectEntries | Nodule/Assets/Scripts/Model/Data/IslandSet.cs:35-49 | both endpoints must be registered; the keys are unchanged; if the endpoints' islands differ the table is unchanged, otherwise the connected node holds the split of the parent's island; every entry other than the connected node's is kept |
| IslandTable.Connected | Nodule/Assets/Scripts/Model/Data/IslandSet.cs:54-58 | two registered nodes are connected iff the first is among the nodes holding the second's island; every node is connected to itself |
| IslandTable.ConnectedSymmetric | Nodule/Assets/Scripts/Model/Data/IslandSet.cs:54-58 | connectivity is symmetric |
| IslandTable.ConnectConnectsEndpoints | Nodule/Assets/Scripts/Model/Data/IslandSet.cs:29-32 | after a connect the field's endpoints are connected |
| IslandTable.ConnectTwice | Nodule/Assets/Scripts/Model/Data/IslandSet.cs:21-33 | connecting along the same field twice gives the same table as once, when joining the joined island with itself gives it back |
| IslandTable.ConnectThenDisconnect | Nodule/Assets/Scripts/Model/Data/IslandSet.cs:21-49 | after connect then disconnect of one field the keys are unchanged, the parent holds the joined island, the connected node holds its split, and the endpoints stay connected iff the split returns the joined island |
| IslandTable.ChainedConnect | Nodule/Assets/Scripts/Model/Data/IslandSet.cs:21-33 | after connecting a–b then b–c, a holds the a–b join, and a is connected to c iff joining that island with c's old island gives it back |
| IslandTable.AddIsolates | Nodule/Assets/Scripts/Model/Data/IslandSet.cs:16-19 | a node added with a singleton island no registered node holds is connected to no other registered node |
| IslandTable.ValuesOf | Nodule/Assets/Scripts/Model/Data/IslandSet.cs:12-14 | the islands view has one element per registered node, and each island occurs as often as nodes hold it |
| IslandTable.ValuesOfExactly | Nodule/Assets/Scripts/Model/Data/IslandSet.cs:14 | every registered node's island is in the islands view and every island in it is held by some node |
| IslandTable.IslandsAfterAdd | Nodule/Assets/Scripts/Model/Data/IslandSet.cs:16-19 | adding a node adds exactly its singleton island to the islands view |
| IslandTable.IslandsAfterConnect | Nodule/Assets/Scripts/Model/Data/IslandSet.cs:21-33 | a connect removes the endpoints' old islands from the islands view and adds the joined island once per rewritten entry |
| IslandTable.IslandsAfterDisconnect | Nodule/Assets/Scripts/Model/Data/IslandSet.cs:35-49 | a disconnect leaves the islands view unchanged when the endpoints' islands differ, and otherwise swaps one copy of that island for its split |
| IslandSets.IslandSet.constructor | Nodule/Assets/Scripts/Model/Data/IslandSet.cs:12 | a new island set has an empty table and no islands |
| IslandSets.IslandSet.Add | Nodule/Assets/Scripts/Model/Data/IslandSet.cs:16-19 | requires an unregistered node; the new table is AddEntry of the old one, the key set grows by exactly the node, the islands view gains its singleton island |
| IslandSets.IslandSet.Connect | Nodule/Assets/Scripts/Model/Data/IslandSet.cs:21-33 | requires both endpoints registered; the new table is ConnectEntries of the old one, the key set is unchanged, the endpoints are connected, and the islands view changes by the rewritten entries |
| IslandSets.IslandSet.Disconnect | Nodule/Assets/Scripts/Model/Data/IslandSet.cs:35-49 | requires both endpoints registered; the new table is DisconnectEntries of the old one, the key set is unchanged, nothing changes when the islands differ, the parent's entry is kept, and the islands view changes by the one rewritten entry |
| IslandSets.IslandSet.IsConnectedSymmetric | Nodule/Assets/Scripts/Model/Data/IslandSet.cs:54-58 | whether two registered nodes are connected does not depend on their order |
| IslandSets.IslandSet.IsConnected | Nodule/Assets/Scripts/Model/Data/IslandSet.cs:51-58 | reads the table only; true iff start is among the nodes holding end's island, iff end is among the nodes holding start's island; reflexive |

## Left out

- `Island`, `Island.Join`, `Island.Split` and `Island.Equals` are not part of this model: they are the constants `singleton`, `join`, `split` and equality `==` on a type parameter, so no property that depends on what those operations do (partition of the nodes, transitive connectivity, relabelling of every member of a joined or split island) is claimed.
- `Add` creates a new `Island` object with `new Island(node)`; the model gives the value `singleton(node)`, so the freshness of that object is not captured (`AddIsolates` takes it as a hypothesis instead).
- Islands are modelled as values, not shared objects: any change `Join` or `Split` makes to an island object that other entries also reference is not captured.
- The `Node` and `Field` game objects are reduced to node identity and the field's two endpoints.
- The exceptions of the .NET dictionary (a duplicate key in `Add`, a missing key in `Connect`, `Disconnect` and `IsConnected`) are preconditions, not modelled error paths.
- `Islands` is a ghost multiset: the enumeration order of `Dictionary.Values` is unspecified and is not modelled, and the view is not a compiled sequence.
- `Disconnect`/`Connect`: `split` and `join` are fixed functions of island values and of the field's two endpoints, so the model does not capture field identity (two parallel fields between the same nodes are the same `Field` value, and removing one of them is modelled exactly like removing the other), `Island.Split` reading the graph's current fields, or `Island.Join` returning a fresh object on each call.
