/**
 The node-to-island table of an island set, as a value. Each function here is
 one rewrite of the table performed by an operation of the class `IslandSet`
 (module IslandSets); the lemmas state what those rewrites guarantee.

 Islands are values of an uninterpreted type. The three island operations the
 table depends on (building a singleton island, joining two islands, splitting
 an island on a field) are passed in as functions about which nothing is
 assumed.
 */
module IslandTable {

  /** A field (arc) between two nodes: the node it hangs from and the node it connects. */
  datatype Field<Node> = Field(parent: Node, connected: Node)

  /** The nodes whose entry in `m` is island `i`. */
  ghost function Members<Node, Island>(m: map<Node, Island>, i: Island): set<Node>
  {
    set n | n in m && m[n] == i
  }

  /** Registering a node: it becomes a key holding its own singleton island. */
  function AddEntry<Node, Island>(m: map<Node, Island>, node: Node, singleton: Node -> Island): (r: map<Node, Island>)
    requires node !in m
    ensures r.Keys == m.Keys + {node}
    ensures r[node] == singleton(node)
    ensures forall n :: n in m ==> r[n] == m[n]
  {
    m[node := singleton(node)]
  }

  /** Connecting along a field: both endpoints are pointed at the join of their islands. */
  function ConnectEntries<Node, Island>(m: map<Node, Island>, field: Field<Node>, join: (Island, Island) -> Island): (r: map<Node, Island>)
    requires field.parent in m && field.connected in m
    ensures r.Keys == m.Keys
    ensures r[field.parent] == join(m[field.parent], m[field.connected])
    ensures r[field.connected] == join(m[field.parent], m[field.connected])
    ensures forall n :: n in m && n != field.parent && n != field.connected ==> r[n] == m[n]
  {
    var joined := join(m[field.parent], m[field.connected]);
    m[field.parent := joined][field.connected := joined]
  }

  /**
   Disconnecting a field: nothing happens when the endpoints are already in
   different islands; otherwise only the connected node's entry is replaced by
   the split of the parent's island.
   */
  function DisconnectEntries<Node, Island(==)>(m: map<Node, Island>, field: Field<Node>, split: (Island, Field<Node>) -> Island): (r: map<Node, Island>)
    requires field.parent in m && field.connected in m
    ensures r.Keys == m.Keys
    ensures m[field.parent] != m[field.connected] ==> r == m
    ensures m[field.parent] == m[field.connected] ==> r[field.connected] == split(m[field.parent], field)
    ensures forall n :: n in m && n != field.connected ==> r[n] == m[n]
  {
    var start := m[field.parent];
    var end := m[field.connected];
    if start != end then m
    else m[field.connected := split(start, field)]
  }

  /** Two registered nodes are connected when their entries hold the same island. */
  predicate Connected<Node, Island(==)>(m: map<Node, Island>, a: Node, b: Node)
    requires a in m && b in m
    ensures Connected(m, a, b) <==> a in Members(m, m[b])
    ensures a == b ==> Connected(m, a, b)
  {
    m[a] == m[b]
  }

  lemma ConnectedSymmetric<Node, Island>(m: map<Node, Island>, a: Node, b: Node)
    requires a in m && b in m
    ensures Connected(m, a, b) == Connected(m, b, a)
  {
  }

  /** After a connect, the two endpoints of the field are connected. */
  lemma ConnectConnectsEndpoints<Node, Island>(m: map<Node, Island>, field: Field<Node>, join: (Island, Island) -> Island)
    requires field.parent in m && field.connected in m
    ensures var r := ConnectEntries(m, field, join);
      Connected(r, field.parent, field.connected)
  {
  }

  /**
   Connecting along the same field twice leaves the same table as connecting
   once, provided joining the joined island with itself gives it back.
   */
  lemma ConnectTwice<Node, Island>(m: map<Node, Island>, field: Field<Node>, join: (Island, Island) -> Island)
    requires field.parent in m && field.connected in m
    requires var joined := join(m[field.parent], m[field.connected]); join(joined, joined) == joined
    ensures var once := ConnectEntries(m, field, join);
      ConnectEntries(once, field, join) == once
  {
  }

  /**
   A connect followed by a disconnect of the same field: the parent keeps the
   joined island, the connected node gets the split of it, and the endpoints
   stay connected exactly when the split hands back the joined island.
   */
  lemma ConnectThenDisconnect<Node, Island>(m: map<Node, Island>, field: Field<Node>,
                                            join: (Island, Island) -> Island, split: (Island, Field<Node>) -> Island)
    requires field.parent in m && field.connected in m
    ensures var joined := join(m[field.parent], m[field.connected]);
      var r := DisconnectEntries(ConnectEntries(m, field, join), field, split);
      && r.Keys == m.Keys
      && (field.parent != field.connected ==> r[field.parent] == joined)
      && r[field.connected] == split(joined, field)
      && (field.parent != field.connected ==>
            (Connected(r, field.parent, field.connected) <==> split(joined, field) == joined))
  {
  }

  /**
   Connecting a-b and then b-c rewrites only the entries of the fields'
   endpoints, so a ends up connected to c exactly when joining the first joined
   island with c's island gives the first joined island back.
   */
  lemma ChainedConnect<Node, Island>(m: map<Node, Island>, a: Node, b: Node, c: Node, join: (Island, Island) -> Island)
    requires a in m && b in m && c in m
    requires a != b && b != c && a != c
    ensures var first := ConnectEntries(m, Field(a, b), join);
      var second := ConnectEntries(first, Field(b, c), join);
      var ab := join(m[a], m[b]);
      && second[a] == ab
      && (Connected(second, a, c) <==> join(ab, m[c]) == ab)
  {
  }

  /**
   A node added with a singleton island that no registered node holds is
   connected to no other node.
   */
  lemma AddIsolates<Node, Island>(m: map<Node, Island>, node: Node, singleton: Node -> Island)
    requires node !in m
    requires singleton(node) !in m.Values
    ensures var r := AddEntry(m, node, singleton);
      forall n :: n in m ==> !Connected(r, node, n)
  {
  }

  // ---------------------------------------------------------------------------
  // The islands view: one island value per registered node.

  /** The entries of `m` without the one for `k`, split off the nodes of island `i`. */
  lemma MembersRemove<Node, Island>(m: map<Node, Island>, k: Node, i: Island)
    requires k in m
    ensures |Members(m, i)| == |Members(m - {k}, i)| + (if m[k] == i then 1 else 0)
  {
    var rest := Members(m - {k}, i);
    assert k !in rest;
    if m[k] == i {
      assert Members(m, i) == rest + {k};
    } else {
      assert Members(m, i) == rest;
    }
  }

  /**
   The island values of a table, one per registered node: island `i` occurs
   as often as there are nodes whose entry is `i`.
   */
  ghost function ValuesOf<Node, Island(!new)>(m: map<Node, Island>): (r: multiset<Island>)
    ensures |r| == |m|
    ensures forall i :: r[i] == |Members(m, i)|
    decreases |m|
  {
    if |m| == 0 then
      assert forall i :: Members(m, i) == {};
      multiset{}
    else
      var k :| k in m;
      assert (m - {k}).Keys == m.Keys - {k};
      assert forall i :: |Members(m, i)| == |Members(m - {k}, i)| + (if m[k] == i then 1 else 0) by {
        forall i ensures |Members(m, i)| == |Members(m - {k}, i)| + (if m[k] == i then 1 else 0) {
          MembersRemove(m, k, i);
        }
      }
      multiset{m[k]} + ValuesOf(m - {k})
  }

  /** Every registered node's island is among the values, and every value is some node's island. */
  lemma ValuesOfExactly<Node, Island(!new)>(m: map<Node, Island>)
    ensures forall n :: n in m ==> m[n] in ValuesOf(m)
    ensures forall i :: i in ValuesOf(m) ==> exists n :: n in m && m[n] == i
  {
    forall n | n in m
      ensures m[n] in ValuesOf(m)
    {
      assert n in Members(m, m[n]);
    }
    forall i | i in ValuesOf(m)
      ensures exists n :: n in m && m[n] == i
    {
      var n :| n in Members(m, i);
    }
  }

  /** Taking a registered key out of the table takes one copy of its island out of the values. */
  lemma ValuesOfRemove<Node, Island(!new)>(m: map<Node, Island>, k: Node)
    requires k in m
    ensures ValuesOf(m) == ValuesOf(m - {k}) + multiset{m[k]}
  {
    forall i
      ensures ValuesOf(m)[i] == (ValuesOf(m - {k}) + multiset{m[k]})[i]
    {
      MembersRemove(m, k, i);
    }
  }

  /** Adding a key adds its island to the values. */
  lemma ValuesOfAdd<Node, Island(!new)>(m: map<Node, Island>, k: Node, x: Island)
    requires k !in m
    ensures ValuesOf(m[k := x]) == ValuesOf(m) + multiset{x}
  {
    assert m[k := x] - {k} == m;
    ValuesOfRemove(m[k := x], k);
  }

  /** Rewriting the entry of a registered key swaps its old island for the new one in the values. */
  lemma ValuesOfUpdate<Node, Island(!new)>(m: map<Node, Island>, k: Node, x: Island)
    requires k in m
    ensures ValuesOf(m[k := x]) == ValuesOf(m) - multiset{m[k]} + multiset{x}
  {
    var rest := m - {k};
    assert m[k := x] - {k} == rest;
    ValuesOfRemove(m[k := x], k);
    ValuesOfRemove(m, k);
    SwapOne(ValuesOf(m), ValuesOf(m[k := x]), ValuesOf(rest), m[k], x);
  }

  /** A multiset that is `rest` plus `a`, with `a` swapped for `x`, is `rest` plus `x`. */
  lemma SwapOne<T>(before: multiset<T>, after: multiset<T>, rest: multiset<T>, a: T, x: T)
    requires before == rest + multiset{a}
    requires after == rest + multiset{x}
    ensures after == before - multiset{a} + multiset{x}
  {
    assert before - multiset{a} == rest;
  }

  /** Adding a node adds exactly its singleton island to the islands view. */
  lemma IslandsAfterAdd<Node, Island(!new)>(m: map<Node, Island>, node: Node, singleton: Node -> Island)
    requires node !in m
    ensures ValuesOf(AddEntry(m, node, singleton)) == ValuesOf(m) + multiset{singleton(node)}
  {
    ValuesOfAdd(m, node, singleton(node));
  }

  /**
   Connecting replaces the endpoints' islands by the joined island in the
   islands view, once per rewritten entry, and changes nothing else there.
   */
  lemma IslandsAfterConnect<Node, Island(!new)>(m: map<Node, Island>, field: Field<Node>, join: (Island, Island) -> Island)
    requires field.parent in m && field.connected in m
    ensures var joined := join(m[field.parent], m[field.connected]);
      var r := ConnectEntries(m, field, join);
      if field.parent == field.connected then
        ValuesOf(r) == ValuesOf(m) - multiset{m[field.parent]} + multiset{joined}
      else
        ValuesOf(r) == ValuesOf(m) - multiset{m[field.parent], m[field.connected]} + multiset{joined, joined}
  {
    var p, c := field.parent, field.connected;
    var joined := join(m[p], m[c]);
    assert ConnectEntries(m, field, join) == m[p := joined][c := joined];
    if p == c {
      assert m[p := joined][c := joined] == m[p := joined];
      ValuesOfUpdate(m, p, joined);
    } else {
      ValuesOfUpdateTwo(m, p, c, joined);
    }
  }

  /** Rewriting two distinct registered keys to the same island, as seen in the values. */
  lemma ValuesOfUpdateTwo<Node, Island(!new)>(m: map<Node, Island>, p: Node, c: Node, x: Island)
    requires p in m && c in m && p != c
    ensures ValuesOf(m[p := x][c := x]) == ValuesOf(m) - multiset{m[p], m[c]} + multiset{x, x}
  {
    var mid := m[p := x];
    ValuesOfUpdate(m, p, x);
    ValuesOfUpdate(mid, c, x);
    assert mid[c] == m[c];
    ValuesOfHoldsTwo(m, p, c);
    var before := ValuesOf(m);
    SwapTwo(before, ValuesOf(mid), ValuesOf(mid[c := x]), m[p], m[c], x);
  }

  /** The islands of two distinct registered keys are both among the values. */
  lemma ValuesOfHoldsTwo<Node, Island(!new)>(m: map<Node, Island>, p: Node, c: Node)
    requires p in m && c in m && p != c
    ensures multiset{m[p], m[c]} <= ValuesOf(m)
  {
    forall i
      ensures multiset{m[p], m[c]}[i] <= ValuesOf(m)[i]
    {
      MembersOfTwo(m, p, c, i);
    }
  }

  /** Swapping `a` then `b` for `x` in a multiset holding both removes both and adds `x` twice. */
  lemma SwapTwo<T>(before: multiset<T>, middle: multiset<T>, after: multiset<T>, a: T, b: T, x: T)
    requires multiset{a, b} <= before
    requires middle == before - multiset{a} + multiset{x}
    requires after == middle - multiset{b} + multiset{x}
    ensures after == before - multiset{a, b} + multiset{x, x}
  {
    var target := before - multiset{a, b} + multiset{x, x};
    forall i
      ensures after[i] == target[i]
    {
      assert before[i] >= multiset{a, b}[i];
    }
  }

  /** Two distinct registered keys holding island `i` make two of its members. */
  lemma MembersOfTwo<Node, Island>(m: map<Node, Island>, p: Node, c: Node, i: Island)
    requires p in m && c in m && p != c
    ensures |Members(m, i)| >= (if m[p] == i then 1 else 0) + (if m[c] == i then 1 else 0)
  {
    MembersRemove(m, p, i);
    MembersRemove(m - {p}, c, i);
  }

  /**
   Disconnecting leaves the islands view alone when the endpoints are in
   different islands, and otherwise swaps one copy of their island for its split.
   */
  lemma IslandsAfterDisconnect<Node, Island(!new)>(m: map<Node, Island>, field: Field<Node>, split: (Island, Field<Node>) -> Island)
    requires field.parent in m && field.connected in m
    ensures var r := DisconnectEntries(m, field, split);
      var island := m[field.parent];
      if island != m[field.connected] then
        ValuesOf(r) == ValuesOf(m)
      else
        ValuesOf(r) == ValuesOf(m) - multiset{island} + multiset{split(island, field)}
  {
    if m[field.parent] == m[field.connected] {
      ValuesOfUpdate(m, field.connected, split(m[field.parent], field));
    }
  }
}
