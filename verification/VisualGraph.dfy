/** The node-graph model and its load-time validation. */
module VisualGraph {
  import opened Dfs
  import opened Graphs
  import opened Options

  datatype Direction = Input | Output

  datatype Kind = Execution | Data

  /** A pin or property value; Nil is the absent value. */
  datatype Value = Nil | Datum(n: nat)

  datatype Pin = Pin(id: string, dataType: string, direction: Direction, kind: Kind, default: Value)

  datatype Node = Node(id: string, typ: string, pins: seq<Pin>, props: map<string, Value>)

  datatype Connection = Connection(fromNode: string, fromPin: string, toNode: string, toPin: string)

  datatype GraphDef = GraphDef(nodes: seq<Node>, conns: seq<Connection>)

  /** The first node with the given ID. */
  function FindNode(nodes: seq<Node>, id: string): (n: Option<Node>)
    ensures n.Some? ==>
      exists i :: 0 <= i < |nodes| && nodes[i] == n.value && n.value.id == id && forall j :: 0 <= j < i ==>
        nodes[j].id != id
    ensures n.None? ==> forall m :: m in nodes ==> m.id != id
  {
    if nodes == [] then None
    else if nodes[0].id == id then Some(nodes[0])
    else FindNode(nodes[1..], id)
  }

  function FindPin(pins: seq<Pin>, id: string): (p: Option<Pin>)
    ensures p.Some? ==>
      exists i :: 0 <= i < |pins| && pins[i] == p.value && p.value.id == id && forall j :: 0 <= j < i ==>
        pins[j].id != id
    ensures p.None? ==> forall q :: q in pins ==> q.id != id
  {
    if pins == [] then None
    else if pins[0].id == id then Some(pins[0])
    else FindPin(pins[1..], id)
  }

  datatype GraphError = UnknownNode | UnknownPin | PinDirection | KindMismatch | TypeMismatch | GraphCycle(at: string)

  /** An input typed "any", or not typed, takes anything. */
  predicate Assignable(outType: string, inType: string)
  {
    inType == "" || inType == "any" || outType == inType
  }

  /** What a well-formed connection is: known ends, output to input, one kind, and for
      data a type the input takes. */
  predicate WellFormed(g: GraphDef, c: Connection)
  {
    var from, dest := FindNode(g.nodes, c.fromNode), FindNode(g.nodes, c.toNode);
    from.Some? && dest.Some? &&
    var fp, tp := FindPin(from.value.pins, c.fromPin), FindPin(dest.value.pins, c.toPin);
    && fp.Some? && tp.Some?
    && fp.value.direction == Output && tp.value.direction == Input
    && fp.value.kind == tp.value.kind
    && (fp.value.kind == Data ==> Assignable(fp.value.dataType, tp.value.dataType))
  }

  /** The connection comes out of a pin of the given kind. */
  predicate Leaves(g: GraphDef, c: Connection, kind: Kind)
  {
    var from := FindNode(g.nodes, c.fromNode);
    from.Some? &&
    var p := FindPin(from.value.pins, c.fromPin);
    p.Some? && p.value.kind == kind
  }

  /** Node `a` pulls data from node `b`. */
  predicate Pulls(g: GraphDef, conns: seq<Connection>, a: string, b: string)
  {
    exists c :: c in conns && c.toNode == a && c.fromNode == b &&
      var from := FindNode(g.nodes, b);
      from.Some? &&
      var p := FindPin(from.value.pins, c.fromPin);
      p.Some? && p.value.kind == Data
  }

  function AddDep(g: GraphDef, deps: Graph<string>, c: Connection): (r: Graph<string>)
    ensures forall a, b :: Edge(r, a, b) <==>
      Edge(deps, a, b) || (Leaves(g, c, Data) && a == c.toNode && b == c.fromNode)
    ensures r.Keys == deps.Keys + (if Leaves(g, c, Data) then {c.toNode} else {})
  {
    if !Leaves(g, c, Data) then deps
    else deps[c.toNode := (if c.toNode in deps then deps[c.toNode] else []) + [c.fromNode]]
  }

  /** The dependency lists: a node's upstream nodes, in connection order. */
  function DataDeps(g: GraphDef, conns: seq<Connection>): Graph<string>
  {
    if conns == [] then map[] else AddDep(g, DataDeps(g, conns[..|conns| - 1]), conns[|conns| - 1])
  }

  /** They are the pulls along data connections, and nothing else. */
  lemma {:induction false} DepsArePulls(g: GraphDef, conns: seq<Connection>, a: string, b: string)
    ensures Edge(DataDeps(g, conns), a, b) <==> Pulls(g, conns, a, b)
  {
    if conns != [] {
      var front, c := conns[..|conns| - 1], conns[|conns| - 1];
      DepsArePulls(g, front, a, b);
      assert forall x :: x in conns <==> x in front || x == c;
    }
  }

  lemma {:induction false} DepsAreUsed(g: GraphDef, conns: seq<Connection>, a: string)
    requires a in DataDeps(g, conns)
    ensures exists c :: c in conns && c.toNode == a && Leaves(g, c, Data)
  {
    var front, c := conns[..|conns| - 1], conns[|conns| - 1];
    assert forall x :: x in conns <==> x in front || x == c;
    if a in DataDeps(g, front) {
      DepsAreUsed(g, front, a);
    }
  }

  /** The data-dependency graph that both validation and evaluation follow. */
  function Deps(g: GraphDef): Graph<string>
  {
    DataDeps(g, g.conns)
  }

  function IDs(nodes: seq<Node>): (ids: seq<string>)
    ensures |ids| == |nodes| && forall i :: 0 <= i < |ids| ==> ids[i] == nodes[i].id
  {
    seq(|nodes|, i requires 0 <= i < |nodes| => nodes[i].id)
  }

  lemma Rooted(g: GraphDef, a: string)
    requires (forall c :: c in g.conns ==> WellFormed(g, c)) && a in Deps(g)
    ensures a in IDs(g.nodes)
  {
    DepsAreUsed(g, g.conns, a);
    var c :| c in g.conns && c.toNode == a && Leaves(g, c, Data);
    var n := FindNode(g.nodes, a).value;
    var i :| 0 <= i < |g.nodes| && g.nodes[i] == n;
    assert IDs(g.nodes)[i] == a;
  }

  method CheckDataAcyclic(g: GraphDef) returns (err: Option<string>)
    requires forall c :: c in g.conns ==> WellFormed(g, c)
    ensures err.None? <==> Acyclic(Deps(g))
    ensures err.Some? ==> Reaches(Deps(g), err.value, err.value)
    ensures err == FirstBack(Deps(g), [], IDs(g.nodes))
  {
    var deps: Graph<string> := map[];
    for i := 0 to |g.conns|
      invariant deps == DataDeps(g, g.conns[..i])
    {
      assert g.conns[..i + 1][..i] == g.conns[..i];
      deps := AddDep(g, deps, g.conns[i]);
    }
    assert g.conns[..|g.conns|] == g.conns;
    forall a | a in deps ensures a in IDs(g.nodes) {
      Rooted(g, a);
    }
    err := FindCycle(deps, IDs(g.nodes));
  }

  /** Connection i is not well formed, and every one before it is. */
  ghost predicate FirstBad(g: GraphDef, i: int)
  {
    0 <= i < |g.conns| && !WellFormed(g, g.conns[i]) && forall j :: 0 <= j < i ==> WellFormed(g, g.conns[j])
  }

  /** The error a malformed connection is reported with: the first test it fails. */
  function Fault(g: GraphDef, c: Connection): GraphError
    requires !WellFormed(g, c)
  {
    var from, dest := FindNode(g.nodes, c.fromNode), FindNode(g.nodes, c.toNode);
    if from.None? || dest.None? then UnknownNode
    else
      var fp, tp := FindPin(from.value.pins, c.fromPin), FindPin(dest.value.pins, c.toPin);
      if fp.None? || tp.None? then UnknownPin
      else if fp.value.direction != Output || tp.value.direction != Input then PinDirection
      else if fp.value.kind != tp.value.kind then KindMismatch
      else TypeMismatch
  }

  /** ValidateGraph accepts exactly the graphs whose connections are all well formed and
      whose data dependencies have no cycle. A reported cycle node lies on one, and is the one that
      following the dependencies node by node first comes back to. */
  method ValidateGraph(g: GraphDef) returns (err: Option<GraphError>)
    ensures err.None? <==> (forall c :: c in g.conns ==> WellFormed(g, c)) && Acyclic(Deps(g))
    ensures err.Some? && err.value.GraphCycle? ==>
      && (forall c :: c in g.conns ==> WellFormed(g, c)) && Reaches(Deps(g), err.value.at, err.value.at)
      && Some(err.value.at) == FirstBack(Deps(g), [], IDs(g.nodes))
    ensures err.None? ==> forall c :: c in g.conns ==>
      var from, dest := FindNode(g.nodes, c.fromNode), FindNode(g.nodes, c.toNode);
      from.Some? && dest.Some? &&
      var fp, tp := FindPin(from.value.pins, c.fromPin), FindPin(dest.value.pins, c.toPin);
      && fp.Some? && tp.Some? && fp.value.direction == Output && tp.value.direction == Input
      && fp.value.kind == tp.value.kind
      && (fp.value.kind == Data ==>
            fp.value.dataType == tp.value.dataType || tp.value.dataType == "" || tp.value.dataType == "any")
    ensures err.Some? && !err.value.GraphCycle? ==> exists i ::
      FirstBad(g, i) && err.value == Fault(g, g.conns[i]) &&
      var c := g.conns[i];
      var from, dest := FindNode(g.nodes, c.fromNode), FindNode(g.nodes, c.toNode);
      if from.None? || dest.None? then err.value == UnknownNode
      else
        var fp, tp := FindPin(from.value.pins, c.fromPin), FindPin(dest.value.pins, c.toPin);
        if fp.None? || tp.None? then err.value == UnknownPin
        else if fp.value.direction == Input || tp.value.direction == Output then err.value == PinDirection
        else if fp.value.kind != tp.value.kind then err.value == KindMismatch
        else
          && err.value == TypeMismatch && fp.value.kind == Data
          && tp.value.dataType !in ["", "any", fp.value.dataType]
  {
    for i := 0 to |g.conns|
      invariant forall j :: 0 <= j < i ==> WellFormed(g, g.conns[j])
    {
      var c := g.conns[i];
      var from := FindNode(g.nodes, c.fromNode);
      var bad := None;
      if from.None? {
        bad := Some(UnknownNode);
      } else {
        var dest := FindNode(g.nodes, c.toNode);
        if dest.None? {
          bad := Some(UnknownNode);
        } else {
          var fp := FindPin(from.value.pins, c.fromPin);
          var tp := FindPin(dest.value.pins, c.toPin);
          if fp.None? || tp.None? {
            bad := Some(UnknownPin);
          } else if fp.value.direction != Output || tp.value.direction != Input {
            bad := Some(PinDirection);
          } else if fp.value.kind != tp.value.kind {
            bad := Some(KindMismatch);
          } else if fp.value.kind == Data && !Assignable(fp.value.dataType, tp.value.dataType) {
            bad := Some(TypeMismatch);
          }
        }
      }
      if bad.Some? {
        assert FirstBad(g, i) && bad.value == Fault(g, g.conns[i]);
        return bad;
      }
    }
    var cycle := CheckDataAcyclic(g);
    if cycle.Some? {
      return Some(GraphCycle(cycle.value));
    }
    return None;
  }
}
