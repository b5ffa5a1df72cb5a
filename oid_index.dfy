/** The OID index of miburi/find.go (`makeOidMap`): every node of every
    loaded module, keyed by its dotted OID string. Nodes are visited module
    by module and, within a module, in declaration order; a node whose OID
    string was already indexed replaces the earlier one. */
module OidIndex {
  import opened Smi

  type OidMap = map<string, SmiNodeWithIndex>

  /** All nodes of all entries, in the order makeOidMap visits them. */
  function Flatten(entries: seq<SmiEntry>): seq<SmiNodeWithIndex> {
    if entries == [] then []
    else Flatten(entries[..|entries| - 1]) + entries[|entries| - 1].nodes
  }

  /** The map obtained by inserting `nodes` one after the other. */
  function IndexOf(nodes: seq<SmiNodeWithIndex>): OidMap {
    if nodes == [] then map[]
    else
      var last := nodes[|nodes| - 1];
      IndexOf(nodes[..|nodes| - 1])[last.oidString := last]
  }

  function OidMapOf(entries: seq<SmiEntry>): OidMap {
    IndexOf(Flatten(entries))
  }

  /** Every key maps to a node carrying that key as its OID string. */
  ghost predicate WellKeyed(m: OidMap) {
    forall k | k in m :: m[k].oidString == k
  }

  method MakeOidMap(entries: seq<SmiEntry>) returns (oidMap: OidMap)
    ensures oidMap == OidMapOf(entries)
  {
    oidMap := map[];
    for e := 0 to |entries|
      invariant oidMap == IndexOf(Flatten(entries[..e]))
    {
      var nodes := entries[e].nodes;
      ghost var before := Flatten(entries[..e]);
      assert before + nodes[..0] == before;
      for i := 0 to |nodes|
        invariant oidMap == IndexOf(before + nodes[..i])
      {
        IndexStep(before, nodes, i);
        oidMap := oidMap[nodes[i].oidString := nodes[i]];
      }
      FlattenStep(entries, e);
    }
    assert entries[..|entries|] == entries;
  }

  lemma IndexStep(before: seq<SmiNodeWithIndex>, nodes: seq<SmiNodeWithIndex>, i: nat)
    requires i < |nodes|
    ensures IndexOf(before + nodes[..i + 1]) == IndexOf(before + nodes[..i])[nodes[i].oidString := nodes[i]]
  {
    var next := before + nodes[..i + 1];
    assert next[..|next| - 1] == before + nodes[..i];
    assert next[|next| - 1] == nodes[i];
  }

  lemma FlattenStep(entries: seq<SmiEntry>, e: nat)
    requires e < |entries|
    ensures Flatten(entries[..e + 1]) == Flatten(entries[..e]) + entries[e].nodes[..|entries[e].nodes|]
  {
    assert entries[..e + 1][..e] == entries[..e];
    assert entries[e].nodes[..|entries[e].nodes|] == entries[e].nodes;
  }

  /** The keys are exactly the OID strings of the indexed nodes. */
  lemma {:induction false} IndexKeys(nodes: seq<SmiNodeWithIndex>)
    ensures IndexOf(nodes).Keys == set i | 0 <= i < |nodes| :: nodes[i].oidString
  {
    if nodes != [] {
      var init := nodes[..|nodes| - 1];
      IndexKeys(init);
      assert forall i | 0 <= i < |init| :: init[i] == nodes[i];
    }
  }

  /** Every key of the index maps to a node whose OID string is that key. */
  lemma {:induction false} IndexWellKeyed(nodes: seq<SmiNodeWithIndex>)
    ensures WellKeyed(IndexOf(nodes))
  {
    if nodes != [] {
      IndexWellKeyed(nodes[..|nodes| - 1]);
    }
  }

  /** Last writer wins: a node that no later node shares its OID string
      with is the one the index holds for that string. */
  lemma {:induction false} IndexLastWins(nodes: seq<SmiNodeWithIndex>, i: nat)
    requires i < |nodes|
    requires forall j | i < j < |nodes| :: nodes[j].oidString != nodes[i].oidString
    ensures nodes[i].oidString in IndexOf(nodes)
    ensures IndexOf(nodes)[nodes[i].oidString] == nodes[i]
  {
    if i < |nodes| - 1 {
      var init := nodes[..|nodes| - 1];
      IndexLastWins(init, i);
    }
  }

  /** Every indexed node was visited, and nothing visited after it has
      the same OID string. */
  lemma {:induction false} IndexValueIsLast(nodes: seq<SmiNodeWithIndex>, k: string)
    requires k in IndexOf(nodes)
    ensures exists i | 0 <= i < |nodes| ::
              nodes[i] == IndexOf(nodes)[k] &&
              forall j | i < j < |nodes| :: nodes[j].oidString != k
  {
    var init := nodes[..|nodes| - 1];
    var last := nodes[|nodes| - 1];
    if last.oidString == k {
      assert nodes[|nodes| - 1] == IndexOf(nodes)[k];
    } else {
      IndexValueIsLast(init, k);
      var i :| 0 <= i < |init| && init[i] == IndexOf(init)[k] &&
               forall j | i < j < |init| :: init[j].oidString != k;
      assert nodes[i] == IndexOf(nodes)[k];
    }
  }

  /** A node of the last module that no later node of that module shadows
      is what the index holds for its OID string, whatever earlier modules
      define at the same OID. */
  lemma LastEntryWins(entries: seq<SmiEntry>, i: nat)
    requires entries != []
    requires i < |entries[|entries| - 1].nodes|
    requires var nodes := entries[|entries| - 1].nodes;
             forall j | i < j < |nodes| :: nodes[j].oidString != nodes[i].oidString
    ensures var n := entries[|entries| - 1].nodes[i];
            n.oidString in OidMapOf(entries) && OidMapOf(entries)[n.oidString] == n
  {
    var before := Flatten(entries[..|entries| - 1]);
    var nodes := entries[|entries| - 1].nodes;
    IndexLastWins(before + nodes, |before| + i);
  }
}
