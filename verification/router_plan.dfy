/**
 Checks the SQL router makes on compiled plans: whether a procedure's declared parameters
 match the compiled input schema, whether a physical plan computes only constants, and
 which tables a plan reads.
 */
module RouterPlan {
  import opened Wrappers
  import T = TableSchema

  // ---------------------------------------------------------------- parameter check

  /** Equal length, and at every position the same column name and data type. */
  predicate SameSignature(parameter: seq<T.ColumnDesc>, input: seq<T.ColumnDesc>) {
    && |parameter| == |input|
    && forall i :: 0 <= i < |parameter| ==>
         parameter[i].name == input[i].name && parameter[i].dataType == input[i].dataType
  }

  /**
   Compare a procedure's declared parameters with the input schema the engine compiled,
   column by column, stopping at the first difference.
   */
  method CheckParameter(parameter: seq<T.ColumnDesc>, input: seq<T.ColumnDesc>) returns (ok: bool)
    ensures ok <==> SameSignature(parameter, input)
  {
    if |parameter| != |input| {
      return false;
    }
    var i := 0;
    while i < |parameter|
      invariant i <= |parameter|
      invariant forall k :: 0 <= k < i ==>
        parameter[k].name == input[k].name && parameter[k].dataType == input[k].dataType
    {
      if parameter[i].name != input[i].name {
        return false;
      }
      if parameter[i].dataType != input[i].dataType {
        return false;
      }
      i := i + 1;
    }
    return true;
  }

  /** The same columns with any constancy flags. */
  predicate SameButConstancy(a: seq<T.ColumnDesc>, b: seq<T.ColumnDesc>) {
    && |a| == |b|
    && forall i :: 0 <= i < |a| ==>
         a[i].name == b[i].name && a[i].dataType == b[i].dataType && a[i].notNull == b[i].notNull
  }

  /** The check never looks at whether a parameter is declared constant. */
  lemma SignatureIgnoresConstancy(parameter: seq<T.ColumnDesc>, other: seq<T.ColumnDesc>, input: seq<T.ColumnDesc>)
    requires SameButConstancy(parameter, other)
    ensures SameSignature(parameter, input) <==> SameSignature(other, input)
  {
  }

  /** Matching signatures is an equivalence: it is symmetric and chains. */
  lemma SignatureEquivalence(a: seq<T.ColumnDesc>, b: seq<T.ColumnDesc>, c: seq<T.ColumnDesc>)
    ensures SameSignature(a, a)
    ensures SameSignature(a, b) ==> SameSignature(b, a)
    ensures SameSignature(a, b) && SameSignature(b, c) ==> SameSignature(a, c)
  {
  }

  // ---------------------------------------------------------------- physical plans

  datatype ProviderType = TableProvider | PartitionProvider | RequestProvider

  /** The operator kinds the router distinguishes; every other kind is `OtherOp`. */
  datatype OpKind =
    | ConstProject
    | DataProvider(provider: ProviderType, table: string)
    | OtherOp

  /** A physical plan node and the nodes it consumes. */
  datatype PhysicalOp = PhysicalOp(kind: OpKind, producers: seq<PhysicalOp>)

  /** A constant projection, or an operator with at least one producer all of whose producers are constant. */
  predicate IsConstQuery(node: PhysicalOp)
    decreases node
  {
    if node.kind.ConstProject? then true
    else if |node.producers| == 0 then false
    else forall i :: 0 <= i < |node.producers| ==> IsConstQuery(node.producers[i])
  }

  /** The node reached by following producer indices from `node`. */
  function NodeAt(node: PhysicalOp, path: seq<nat>): (r: Option<PhysicalOp>)
    decreases |path|
  {
    if |path| == 0 then Some(node)
    else if path[0] < |node.producers| then NodeAt(node.producers[path[0]], path[1..])
    else None
  }

  /** The node reached by following producer indices without descending below a constant projection. */
  function Frontier(node: PhysicalOp, path: seq<nat>): (r: Option<PhysicalOp>)
    decreases |path|
  {
    if |path| == 0 then Some(node)
    else if !node.kind.ConstProject? && path[0] < |node.producers| then Frontier(node.producers[path[0]], path[1..])
    else None
  }

  /** A leaf of the plan above every constant projection that is not itself one. */
  predicate NonConstLeaf(node: PhysicalOp, path: seq<nat>) {
    Frontier(node, path).Some? && |Frontier(node, path).value.producers| == 0
    && !Frontier(node, path).value.kind.ConstProject?
  }

  /** A constant plan has no non-constant leaf above its constant projections. */
  lemma {:induction false} ConstHasNoBadLeaf(node: PhysicalOp, path: seq<nat>)
    requires IsConstQuery(node)
    ensures !NonConstLeaf(node, path)
    decreases |path|
  {
    if |path| > 0 && !node.kind.ConstProject? && path[0] < |node.producers| {
      ConstHasNoBadLeaf(node.producers[path[0]], path[1..]);
    }
  }

  /** A path to a non-constant leaf of a plan that is not constant. */
  ghost function BadPath(node: PhysicalOp): (path: seq<nat>)
    requires !IsConstQuery(node)
    decreases node
  {
    if |node.producers| == 0 then []
    else
      var i :| 0 <= i < |node.producers| && !IsConstQuery(node.producers[i]);
      [i] + BadPath(node.producers[i])
  }

  lemma {:induction false} BadPathReachesLeaf(node: PhysicalOp)
    requires !IsConstQuery(node)
    ensures NonConstLeaf(node, BadPath(node))
    decreases node
  {
    if |node.producers| > 0 {
      var path := BadPath(node);
      var i := path[0];
      BadPathReachesLeaf(node.producers[i]);
      assert path[1..] == BadPath(node.producers[i]);
    }
  }

  /** A plan is constant exactly when every leaf above its constant projections is a constant projection. */
  lemma ConstQueryMeaning(node: PhysicalOp)
    ensures IsConstQuery(node) <==> forall path :: !NonConstLeaf(node, path)
  {
    if IsConstQuery(node) {
      forall path
        ensures !NonConstLeaf(node, path)
      {
        ConstHasNoBadLeaf(node, path);
      }
    } else {
      BadPathReachesLeaf(node);
    }
  }

  // ---------------------------------------------------------------- tables read

  /** A data provider over a table or a table partition; a request provider reads no table. */
  predicate ProvidesTable(node: PhysicalOp) {
    node.kind.DataProvider? && node.kind.provider in {TableProvider, PartitionProvider}
  }

  predicate ReadsTable(node: PhysicalOp, table: string) {
    ProvidesTable(node) && node.kind.table == table
  }

  /** Add to `tables` the names read by `node` and, recursively, by its producers. */
  function GetTables(node: PhysicalOp, tables: set<string>): (r: set<string>)
    ensures tables <= r
    decreases node, 1
  {
    var own := if ProvidesTable(node) then tables + {node.kind.table} else tables;
    ProducerTables(node, 0, own)
  }

  /** Add the names read by the producers of `node` from position `i` on. */
  function ProducerTables(node: PhysicalOp, i: nat, tables: set<string>): (r: set<string>)
    requires i <= |node.producers|
    ensures tables <= r
    decreases node, 0, |node.producers| - i
  {
    if i == |node.producers| then tables
    else ProducerTables(node, i + 1, GetTables(node.producers[i], tables))
  }

  /** Some node of the plan reads `table`. */
  ghost predicate ReadSomewhere(node: PhysicalOp, table: string) {
    exists path :: NodeAt(node, path).Some? && ReadsTable(NodeAt(node, path).value, table)
  }

  /** Some producer of `node` at position `i` or later reads `table` somewhere. */
  ghost predicate ReadBelow(node: PhysicalOp, i: nat, table: string) {
    exists j :: i <= j < |node.producers| && ReadSomewhere(node.producers[j], table)
  }

  /** A path into a producer, extended by that producer's position, is a path into the node. */
  lemma PathIntoProducer(node: PhysicalOp, j: nat, path: seq<nat>)
    requires j < |node.producers|
    ensures NodeAt(node, [j] + path) == NodeAt(node.producers[j], path)
  {
    assert ([j] + path)[1..] == path;
  }

  /** A table is read somewhere in the plan when the root reads it or some producer does. */
  lemma ReadSomewhereSplit(node: PhysicalOp, table: string)
    ensures ReadSomewhere(node, table) <==> ReadsTable(node, table) || ReadBelow(node, 0, table)
  {
    if ReadSomewhere(node, table) {
      var path :| NodeAt(node, path).Some? && ReadsTable(NodeAt(node, path).value, table);
      if |path| > 0 {
        var j := path[0];
        assert [j] + path[1..] == path;
        PathIntoProducer(node, j, path[1..]);
        assert ReadSomewhere(node.producers[j], table);
      }
    }
    if ReadBelow(node, 0, table) {
      var j :| 0 <= j < |node.producers| && ReadSomewhere(node.producers[j], table);
      var path :| NodeAt(node.producers[j], path).Some? && ReadsTable(NodeAt(node.producers[j], path).value, table);
      PathIntoProducer(node, j, path);
    }
    if ReadsTable(node, table) {
      assert NodeAt(node, []) == Some(node);
    }
  }

  /** `GetTables` adds exactly the tables read anywhere in the plan. */
  lemma {:induction false} GetTablesExact(node: PhysicalOp, tables: set<string>, table: string)
    ensures table in GetTables(node, tables) <==> table in tables || ReadSomewhere(node, table)
    decreases node, 1
  {
    var own := if ProvidesTable(node) then tables + {node.kind.table} else tables;
    ProducerTablesExact(node, 0, own, table);
    ReadSomewhereSplit(node, table);
  }

  lemma {:induction false} ProducerTablesExact(node: PhysicalOp, i: nat, tables: set<string>, table: string)
    requires i <= |node.producers|
    ensures table in ProducerTables(node, i, tables) <==> table in tables || ReadBelow(node, i, table)
    decreases node, 0, |node.producers| - i
  {
    if i < |node.producers| {
      GetTablesExact(node.producers[i], tables, table);
      ProducerTablesExact(node, i + 1, GetTables(node.producers[i], tables), table);
      if ReadBelow(node, i, table) && !ReadSomewhere(node.producers[i], table) {
        var j :| i <= j < |node.producers| && ReadSomewhere(node.producers[j], table);
        assert j > i;
      }
    }
  }
}
