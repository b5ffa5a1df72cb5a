/** Longest-prefix resolution of miburi/find.go (`findNodeByOID`, `find`)
    and the lookup part of `exportTextFindedNode`.

    The resolver looks the whole OID up first; on a miss it moves the last
    ".component" of the OID onto an unresolved tail and tries again, so the
    first hit is the deepest ancestor that the index knows. The reference
    definition below states that outcome without the string surgery: a
    "cut" of an OID is the OID itself or a non-empty prefix of it that is
    followed by a dot, and the answer is the node of the longest cut the
    index holds, named with the rest of the OID appended. */
module Resolver {
  import opened Common
  import opened Smi
  import opened OidIndex
  import Normalize

  /** The pair (name, node) that findNodeByOID returns. */
  datatype Resolution = Resolution(name: string, node: SmiNodeWithIndex)

  /** The miss result ("", SmiNodeWithIndex{}). */
  const NotFound := Resolution("", ZeroNode)

  /** Go's map index `oidMap[s]`: a missing key yields the zero node. */
  function Lookup(m: OidMap, s: string): SmiNodeWithIndex {
    if s in m then m[s] else ZeroNode
  }

  /** The resolver's hit test: `oidMap[s].OIDString != ""`. */
  predicate Found(m: OidMap, s: string) {
    Lookup(m, s).oidString != ""
  }

  /** strings.LastIndex(s, string(c)): the last position of c, or -1. */
  function LastIndex(s: string, c: char): (i: int)
    ensures -1 <= i < |s|
    ensures 0 <= i ==> s[i] == c
    ensures forall j | i < j < |s| :: s[j] != c
    decreases |s|
  {
    if s == [] then -1
    else if s[|s| - 1] == c then |s| - 1
    else LastIndex(s[..|s| - 1], c)
  }

  /** k is the length of a cut of oid: the whole OID, or a non-empty prefix
      followed by a dot. */
  predicate IsCut(oid: string, k: int) {
    k == |oid| || (0 < k < |oid| && oid[k] == '.')
  }

  /** The cut of length k exists and the index has a node for it. */
  predicate Hit(m: OidMap, oid: string, k: int) {
    0 <= k <= |oid| && IsCut(oid, k) && Found(m, oid[..k])
  }

  /** The longest cut of length at most k that the index has a node for. */
  function DeepestHit(m: OidMap, oid: string, k: nat): (r: Option<nat>)
    requires k <= |oid|
    ensures r.Some? ==> r.value <= k && Hit(m, oid, r.value)
    ensures r.Some? ==> forall j | r.value < j <= k :: !Hit(m, oid, j)
    ensures r.None? ==> forall j | 0 <= j <= k :: !Hit(m, oid, j)
    decreases k
  {
    if Hit(m, oid, k) then Some(k)
    else if k == 0 then None
    else DeepestHit(m, oid, k - 1)
  }

  /** Reference definition of the resolver's result. */
  function Resolve(m: OidMap, oid: string): Resolution {
    match DeepestHit(m, oid, |oid|)
    case None => NotFound
    case Some(k) => Resolution(Lookup(m, oid[..k]).node.name + oid[k..], Lookup(m, oid[..k]))
  }

  /** Skipping a stretch of cuts that are all misses does not change the
      deepest hit. */
  lemma {:induction false} DeepestHitSkip(m: OidMap, oid: string, j: nat, k: nat)
    requires j <= k <= |oid|
    requires forall p | j < p <= k :: !Hit(m, oid, p)
    ensures DeepestHit(m, oid, k) == DeepestHit(m, oid, j)
    decreases k
  {
    if j < k {
      DeepestHitSkip(m, oid, j, k - 1);
    }
  }

  /** findNodeByOID: the loop that strips one component per miss. */
  method FindNodeByOid(oidMap: OidMap, oid: string) returns (name: string, node: SmiNodeWithIndex)
    ensures Resolution(name, node) == Resolve(oidMap, oid)
  {
    var s := oid;
    var tail := "";
    while true
      invariant |s| <= |oid| && s == oid[..|s|] && tail == oid[|s|..]
      invariant IsCut(oid, |s|)
      invariant DeepestHit(oidMap, oid, |oid|) == DeepestHit(oidMap, oid, |s|)
      decreases |s|
    {
      if Lookup(oidMap, s).oidString == "" {
        var i := LastIndex(s, '.');
        if i < 0 {
          DeepestHitSkip(oidMap, oid, 0, |s|);
          return "", ZeroNode;
        }
        assert forall p | i < p <= |s| :: !Hit(oidMap, oid, p);
        DeepestHitSkip(oidMap, oid, i, |s|);
        tail := s[i..] + tail;
        s := s[..i];
        if s == "" {
          return "", ZeroNode;
        }
      } else {
        return Lookup(oidMap, s).node.name + tail, Lookup(oidMap, s);
      }
    }
  }

  /** An OID that is itself indexed resolves to its own node and name,
      with nothing unresolved. */
  lemma ResolveExact(m: OidMap, oid: string)
    requires Found(m, oid)
    ensures Resolve(m, oid) == Resolution(Lookup(m, oid).node.name, Lookup(m, oid))
  {
    assert oid[..|oid|] == oid;
    assert Hit(m, oid, |oid|);
  }

  /** The resolver misses exactly when no cut of the OID is indexed. */
  lemma ResolveMiss(m: OidMap, oid: string)
    ensures Resolve(m, oid) == NotFound <==> forall k | 0 <= k <= |oid| :: !Hit(m, oid, k)
  {
    match DeepestHit(m, oid, |oid|)
    case None =>
    case Some(k) =>
      assert Resolve(m, oid).node.oidString != "";
  }

  /** The resolver picks the deepest indexed cut and appends the rest of
      the OID to that node's name. */
  lemma ResolveDeepest(m: OidMap, oid: string, k: nat)
    requires Hit(m, oid, k)
    requires forall j | k < j <= |oid| :: !Hit(m, oid, j)
    ensures Resolve(m, oid) == Resolution(Lookup(m, oid[..k]).node.name + oid[k..], Lookup(m, oid[..k]))
  {
    DeepestHitSkip(m, oid, k, |oid|);
  }

  /** Over a well-keyed index (one built by makeOidMap), a hit returns a
      node whose OID string is a cut `s` of the OID, the unresolved tail
      `t` satisfies s + t == oid and is empty or starts with '.', the name
      is the node's name followed by t, and no longer cut is indexed. */
  lemma ResolveShape(m: OidMap, oid: string)
    requires WellKeyed(m)
    requires Resolve(m, oid) != NotFound
    ensures var r := Resolve(m, oid);
            var s := r.node.oidString;
            var t := oid[|s|..];
            && s != ""
            && HasPrefix(oid, s)
            && IsCut(oid, |s|)
            && s + t == oid
            && (t == "" || t[0] == '.')
            && r.name == r.node.node.name + t
            && forall j | |s| < j <= |oid| :: !Hit(m, oid, j)
  {
    match DeepestHit(m, oid, |oid|)
    case Some(k) =>
      assert oid[..k] in m;
      assert Resolve(m, oid).node.oidString == oid[..k];
      assert oid[..k] + oid[k..] == oid;
  }

  /** Over a well-keyed index the empty OID never resolves. */
  lemma ResolveEmptyMisses(m: OidMap)
    requires WellKeyed(m)
    ensures Resolve(m, "") == NotFound
  {
    if "" in m {
      assert m[""].oidString == "";
    }
  }

  /** An instance OID (an indexed OID `p` followed by instance components
      `t`) resolves to p's node, named with t appended, when nothing
      between p and the full OID is indexed. */
  lemma ResolveInstance(m: OidMap, p: string, t: string)
    requires p != "" && Found(m, p)
    requires t != "" && t[0] == '.'
    requires forall k | |p| < k <= |p + t| :: !Hit(m, p + t, k)
    ensures Resolve(m, p + t) == Resolution(Lookup(m, p).node.name + t, Lookup(m, p))
  {
    var oid := p + t;
    assert oid[..|p|] == p && oid[|p|..] == t;
    assert oid[|p|] == t[0];
    ResolveDeepest(m, oid, |p|);
  }

  /** find: build the index, normalise the OID, resolve it. */
  function FindSpec(edition: Edition, entries: seq<SmiEntry>, oid: string): Resolution {
    Resolve(OidMapOf(entries), Normalize.NormalizeFor(edition, oid))
  }

  method Find(edition: Edition, entries: seq<SmiEntry>, oid: string) returns (name: string, node: SmiNodeWithIndex)
    ensures Resolution(name, node) == FindSpec(edition, entries, oid)
  {
    var oidMap := MakeOidMap(entries);
    name, node := FindNodeByOid(oidMap, Normalize.NormalizeFor(edition, oid));
  }

  /** The textual root and the numeric root, with or without a leading
      dot, find the same node under the same name (both editions). */
  lemma FindRootAliases(edition: Edition, entries: seq<SmiEntry>, rest: string)
    ensures FindSpec(edition, entries, "iso." + rest) == FindSpec(edition, entries, "1." + rest)
    ensures FindSpec(edition, entries, ".1." + rest) == FindSpec(edition, entries, "1." + rest)
  {
    Normalize.NormalizeRootAliases(rest);
    Normalize.LegacyRootAliases(rest);
  }

  /** A node that nothing indexed after it shadows is found under its own
      OID string (when the edition's normaliser leaves that string as it
      is), with its own name and nothing unresolved. */
  lemma FindIndexedNode(edition: Edition, entries: seq<SmiEntry>, i: nat)
    requires i < |Flatten(entries)|
    requires var nodes := Flatten(entries);
             forall j | i < j < |nodes| :: nodes[j].oidString != nodes[i].oidString
    requires var n := Flatten(entries)[i];
             n.oidString != "" && Normalize.NormalizeFor(edition, n.oidString) == n.oidString
    ensures var n := Flatten(entries)[i];
            FindSpec(edition, entries, n.oidString) == Resolution(n.node.name, n)
  {
    var n := Flatten(entries)[i];
    IndexLastWins(Flatten(entries), i);
    ResolveExact(OidMapOf(entries), n.oidString);
  }

  /** When two modules define a node at the same OID, the module indexed
      last wins the lookup. */
  lemma FindLaterModuleWins(edition: Edition, entries: seq<SmiEntry>, i: nat)
    requires entries != []
    requires i < |entries[|entries| - 1].nodes|
    requires var nodes := entries[|entries| - 1].nodes;
             forall j | i < j < |nodes| :: nodes[j].oidString != nodes[i].oidString
    requires var n := entries[|entries| - 1].nodes[i];
             n.oidString != "" && Normalize.NormalizeFor(edition, n.oidString) == n.oidString
    ensures var n := entries[|entries| - 1].nodes[i];
            FindSpec(edition, entries, n.oidString) == Resolution(n.node.name, n)
  {
    var n := entries[|entries| - 1].nodes[i];
    LastEntryWins(entries, i);
    ResolveExact(OidMapOf(entries), n.oidString);
  }

  /** miburi forces a leading dot, so it can only ever hit nodes whose OID
      string starts with '.': the format of the index keys decides whether
      lookups succeed at all. */
  lemma FindHitsOnlyAbsoluteKeys(entries: seq<SmiEntry>, oid: string)
    requires FindSpec(Miburi, entries, oid) != NotFound
    ensures var s := FindSpec(Miburi, entries, oid).node.oidString;
            s != "" && s[0] == '.'
  {
    IndexWellKeyed(Flatten(entries));
    var m := OidMapOf(entries);
    var norm := Normalize.NormalizeOid(oid);
    if norm == "" {
      ResolveEmptyMisses(m);
    } else {
      ResolveShape(m, norm);
    }
  }

  /** The legacy copy strips the leading dot, so (unless the input starts
      with two dots) it only ever hits nodes whose OID string does not
      start with '.'. */
  lemma LegacyFindHitsOnlyRelativeKeys(entries: seq<SmiEntry>, oid: string)
    requires !HasPrefix(oid, "..")
    requires FindSpec(Legacy, entries, oid) != NotFound
    ensures var s := FindSpec(Legacy, entries, oid).node.oidString;
            s != "" && s[0] != '.'
  {
    IndexWellKeyed(Flatten(entries));
    var m := OidMapOf(entries);
    var norm := Normalize.LegacyNormalizeOid(oid);
    if norm == "" {
      ResolveEmptyMisses(m);
    } else {
      ResolveShape(m, norm);
    }
  }

  /** What exportTextFindedNode reports in verbose mode. */
  datatype Detail =
    | Terse
    | Verbose(typeName: string, enum: Option<string>, unit: Option<string>, description: string)
    | NilTypeDereference   // verbose mode on a node without a type: the Go code dereferences nil

  /** What exportTextFindedNode reports for one OID. */
  datatype Report =
    | NameNotFound(oid: string)
    | Reported(oid: string, name: string, mib: string, detail: Detail)

  /** The lookup and enum-join of exportTextFindedNode; printing is left to
      the caller. */
  method FindReport(edition: Edition, entries: seq<SmiEntry>, oid: string, verbose: bool) returns (report: Report)
    ensures var r := FindSpec(edition, entries, oid);
            report.NameNotFound? <==> r.name == ""
    ensures report.NameNotFound? ==> report.oid == oid
    ensures report.Reported? ==>
              var r := FindSpec(edition, entries, oid);
              && report.oid == oid && report.name == r.name && report.mib == r.node.mib
              && (report.detail.Terse? <==> !verbose)
              && (report.detail.NilTypeDereference? <==> verbose && r.node.node.smiType.None?)
              && (report.detail.Verbose? ==>
                    var t := r.node.node.smiType.value;
                    && report.detail.typeName == t.name
                    && report.detail.description == r.node.node.description
                    && report.detail.enum == (if t.enum.Some? then Some(EnumText(t.enum.value)) else None)
                    && report.detail.unit == (if t.units != "" then Some(t.units) else None))
  {
    var name, node := Find(edition, entries, oid);
    if name == "" {
      return NameNotFound(oid);
    }
    if !verbose {
      return Reported(oid, name, node.mib, Terse);
    }
    match node.node.smiType
    case None =>
      report := Reported(oid, name, node.mib, NilTypeDereference);
    case Some(t) =>
      var enum: Option<string> := None;
      if t.enum.Some? {
        var text := FormatEnum(t.enum.value);
        enum := Some(text);
      }
      var unit: Option<string> := if t.units != "" then Some(t.units) else None;
      report := Reported(oid, name, node.mib, Verbose(t.name, enum, unit, node.node.description));
  }
}
