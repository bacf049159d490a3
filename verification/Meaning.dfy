/** What a validated graph means: data evaluated by plain recursion, without a memo. */
module Meaning {
  import opened Graphs
  import opened Options
  import opened VisualGraph

  type PinMap = map<string, Value>

  datatype Command = Command(op: string, args: PinMap)

  /** What running an execution node does: the pin to follow (empty for none), the
      commands it emitted, and whether it failed. */
  datatype ExecResult = ExecResult(next: string, cmds: seq<Command>, failed: bool)

  /** A node type's behaviour. Eval and Exec are functions of their arguments. */
  datatype Behavior = Behavior(eval: Option<(PinMap, PinMap) -> PinMap>, exec: Option<(PinMap, PinMap) -> ExecResult>)

  type Handlers = map<string, Behavior>

  function Get(m: PinMap, pin: string): Value
  {
    if pin in m then m[pin] else Nil
  }

  /** Connection i is the first into the given pin from a data pin. */
  ghost predicate FirstInto(g: GraphDef, conns: seq<Connection>, node: string, pin: string, i: int)
  {
    && 0 <= i < |conns| && conns[i].toNode == node && conns[i].toPin == pin && Leaves(g, conns[i], Data)
    && forall j :: 0 <= j < i && conns[j].toNode == node && conns[j].toPin == pin ==> !Leaves(g, conns[j], Data)
  }

  /** The (node, pin) feeding a data input: the first connection into it from a data pin. */
  function DataSource(g: GraphDef, conns: seq<Connection>, toNode: string, toPin: string): (r: Option<(string, string)>)
    ensures r.Some? ==>
      exists i :: FirstInto(g, conns, toNode, toPin, i) && r.value == (conns[i].fromNode, conns[i].fromPin)
    ensures r.None? ==> forall c :: c in conns && c.toNode == toNode && c.toPin == toPin ==> !Leaves(g, c, Data)
  {
    if conns == [] then None
    else
      var c := conns[0];
      if c.toNode == toNode && c.toPin == toPin && Leaves(g, c, Data) then Some((c.fromNode, c.fromPin))
      else DataSource(g, conns[1..], toNode, toPin)
  }

  function Source(g: GraphDef, node: string, pin: string): Option<(string, string)>
  {
    DataSource(g, g.conns, node, pin)
  }

  /** It is a dependency, so on an accepted graph it reaches fewer nodes. */
  lemma SourceFalls(g: GraphDef, node: string, pin: string)
    requires Acyclic(Deps(g)) && Source(g, node, pin).Some?
    ensures Rank(Deps(g), Source(g, node, pin).value.0) < Rank(Deps(g), node)
  {
    var up := Source(g, node, pin).value.0;
    assert Pulls(g, g.conns, node, up);
    DepsArePulls(g, g.conns, node, up);
    RankFalls(Deps(g), node, up);
  }

  predicate IsDataInput(p: Pin)
  {
    p.direction == Input && p.kind == Data
  }

  /** The outputs of node `id` when recursion may go `fuel` deep: nothing if that is not
      deep enough. */
  function Eval(g: GraphDef, h: Handlers, fuel: nat, id: string): Option<PinMap>
    decreases fuel, 0
  {
    if fuel == 0 then None
    else
      var n := FindNode(g.nodes, id);
      if n.None? then Some(map[])
      else if n.value.typ !in h || h[n.value.typ].eval.None? then Some(map[])
      else
        var inputs := Inputs(g, h, fuel - 1, n.value, n.value.pins);
        if inputs.None? then None else Some(h[n.value.typ].eval.value(n.value.props, inputs.value))
  }

  /** The data inputs of node n among the given pins; a later pin of the same ID wins. */
  function Inputs(g: GraphDef, h: Handlers, fuel: nat, n: Node, pins: seq<Pin>): Option<PinMap>
    decreases fuel, 1, |pins|
  {
    if pins == [] then Some(map[])
    else
      var before := Inputs(g, h, fuel, n, pins[..|pins| - 1]);
      var p := pins[|pins| - 1];
      if before.None? then None
      else if !IsDataInput(p) then before
      else
        var v := InputValue(g, h, fuel, n, p);
        if v.None? then None else Some(before.value[p.id := v.value])
  }

  /** A connected input takes its source's output; an unconnected one its default. */
  function InputValue(g: GraphDef, h: Handlers, fuel: nat, n: Node, p: Pin): Option<Value>
    decreases fuel, 1, 0
  {
    var src := Source(g, n.id, p.id);
    if src.None? then Some(p.default)
    else
      var out := Eval(g, h, fuel, src.value.0);
      if out.None? then None else Some(Get(out.value, src.value.1))
  }

  /** Deeper recursion does not change an answer already found. */
  lemma {:induction false} EvalDeeper(g: GraphDef, h: Handlers, fuel: nat, more: nat, id: string)
    requires fuel <= more && Eval(g, h, fuel, id).Some?
    ensures Eval(g, h, more, id) == Eval(g, h, fuel, id)
    decreases fuel, 0
  {
    var n := FindNode(g.nodes, id);
    if n.Some? && n.value.typ in h && h[n.value.typ].eval.Some? {
      InputsDeeper(g, h, fuel - 1, more - 1, n.value, n.value.pins);
    }
  }

  lemma {:induction false} InputsDeeper(g: GraphDef, h: Handlers, fuel: nat, more: nat, n: Node, pins: seq<Pin>)
    requires fuel <= more && Inputs(g, h, fuel, n, pins).Some?
    ensures Inputs(g, h, more, n, pins) == Inputs(g, h, fuel, n, pins)
    decreases fuel, 1, |pins|
  {
    if pins != [] {
      var front, p := pins[..|pins| - 1], pins[|pins| - 1];
      InputsDeeper(g, h, fuel, more, n, front);
      if IsDataInput(p) {
        var src := Source(g, n.id, p.id);
        if src.Some? {
          EvalDeeper(g, h, fuel, more, src.value.0);
        }
      }
    }
  }

  /** On an acyclic graph recursion as deep as the node's rank always finds an answer. */
  lemma {:induction false} EvalEnds(g: GraphDef, h: Handlers, id: string)
    requires Acyclic(Deps(g))
    ensures Eval(g, h, Rank(Deps(g), id) + 1, id).Some?
    decreases Rank(Deps(g), id), 0
  {
    var n := FindNode(g.nodes, id);
    if n.Some? {
      InputsEnd(g, h, n.value, n.value.pins);
    }
  }

  lemma DeepEnough(g: GraphDef, h: Handlers, fuel: nat, more: nat, n: Node, p: Pin)
    requires fuel <= more && InputValue(g, h, fuel, n, p).Some?
    ensures InputValue(g, h, more, n, p).Some?
  {
    var src := Source(g, n.id, p.id);
    if src.Some? {
      EvalDeeper(g, h, fuel, more, src.value.0);
    }
  }

  lemma {:induction false} InputsEnd(g: GraphDef, h: Handlers, n: Node, pins: seq<Pin>)
    requires Acyclic(Deps(g))
    ensures Inputs(g, h, Rank(Deps(g), n.id), n, pins).Some?
    decreases Rank(Deps(g), n.id), 0, |pins|
  {
    if pins != [] {
      InputsEnd(g, h, n, pins[..|pins| - 1]);
      if IsDataInput(pins[|pins| - 1]) {
        InputEnds(g, h, n, pins[|pins| - 1]);
      }
    }
  }

  lemma {:induction false} InputEnds(g: GraphDef, h: Handlers, n: Node, p: Pin)
    requires Acyclic(Deps(g))
    ensures InputValue(g, h, Rank(Deps(g), n.id), n, p).Some?
    decreases Rank(Deps(g), n.id), 0, 0
  {
    var src := Source(g, n.id, p.id);
    if src.Some? {
      var up := src.value.0;
      SourceFalls(g, n.id, p.id);
      EvalEnds(g, h, up);
      DeepEnough(g, h, Rank(Deps(g), up) + 1, Rank(Deps(g), n.id), n, p);
    }
  }

  lemma FoundIsFirst(nodes: seq<Node>, id: string)
    ensures var n := FindNode(nodes, id); n.Some? ==> FindNode(nodes, n.value.id) == n
  {
  }

  /** Two depths that both find an answer find the same one. */
  lemma EvalsAlike(g: GraphDef, h: Handlers, fuel: nat, other: nat, id: string)
    requires Eval(g, h, fuel, id).Some? && Eval(g, h, other, id).Some?
    ensures Eval(g, h, fuel, id) == Eval(g, h, other, id)
  {
    if fuel <= other {
      EvalDeeper(g, h, fuel, other, id);
    } else {
      EvalDeeper(g, h, other, fuel, id);
    }
  }

  /** The outputs plain recursion gives node `id`, at a depth that finds an answer. */
  ghost function Outputs(g: GraphDef, h: Handlers, id: string): PinMap
    requires Acyclic(Deps(g))
  {
    EvalEnds(g, h, id);
    var fuel: nat :| Eval(g, h, fuel, id).Some?;
    Eval(g, h, fuel, id).value
  }

  /** Whatever depth finds an answer, it is the same answer. */
  lemma OutputsAnyDepth(g: GraphDef, h: Handlers, fuel: nat, id: string)
    requires Acyclic(Deps(g)) && Eval(g, h, fuel, id).Some?
    ensures Eval(g, h, fuel, id) == Some(Outputs(g, h, id))
  {
    forall other: nat | Eval(g, h, other, id).Some? ensures Eval(g, h, other, id) == Eval(g, h, fuel, id) {
      EvalsAlike(g, h, fuel, other, id);
    }
  }

  /** The value of one data input: the source's output, or the default. */
  ghost function PinValue(g: GraphDef, h: Handlers, n: Node, p: Pin): Value
    requires Acyclic(Deps(g))
  {
    var src := Source(g, n.id, p.id);
    if src.None? then p.default else Get(Outputs(g, h, src.value.0), src.value.1)
  }

  /** The data inputs plain recursion gives node n; a later pin of the same ID wins. */
  ghost function Pulled(g: GraphDef, h: Handlers, n: Node, pins: seq<Pin>): PinMap
    requires Acyclic(Deps(g))
  {
    if pins == [] then map[]
    else
      var before, p := Pulled(g, h, n, pins[..|pins| - 1]), pins[|pins| - 1];
      if IsDataInput(p) then before[p.id := PinValue(g, h, n, p)] else before
  }

  lemma InputValueIs(g: GraphDef, h: Handlers, fuel: nat, n: Node, p: Pin)
    requires Acyclic(Deps(g)) && InputValue(g, h, fuel, n, p).Some?
    ensures InputValue(g, h, fuel, n, p).value == PinValue(g, h, n, p)
  {
    var src := Source(g, n.id, p.id);
    if src.Some? {
      OutputsAnyDepth(g, h, fuel, src.value.0);
    }
  }

  lemma {:induction false} InputsAnyDepth(g: GraphDef, h: Handlers, fuel: nat, n: Node, pins: seq<Pin>)
    requires Acyclic(Deps(g)) && Inputs(g, h, fuel, n, pins).Some?
    ensures Inputs(g, h, fuel, n, pins) == Some(Pulled(g, h, n, pins))
  {
    if pins != [] {
      var p := pins[|pins| - 1];
      InputsAnyDepth(g, h, fuel, n, pins[..|pins| - 1]);
      if IsDataInput(p) {
        InputValueIs(g, h, fuel, n, p);
      }
    }
  }

  /** A node without an evaluator has no outputs; another has those of its inputs. */
  lemma OutputsAt(g: GraphDef, h: Handlers, id: string)
    requires Acyclic(Deps(g))
    ensures var n := FindNode(g.nodes, id);
      Outputs(g, h, id) ==
        if n.None? || n.value.typ !in h || h[n.value.typ].eval.None? then map[]
        else h[n.value.typ].eval.value(n.value.props, Pulled(g, h, n.value, n.value.pins))
  {
    var fuel := Rank(Deps(g), id);
    EvalEnds(g, h, id);
    OutputsAnyDepth(g, h, fuel + 1, id);
    var n := FindNode(g.nodes, id);
    if n.Some? {
      InputsEnd(g, h, n.value, n.value.pins);
      InputsAnyDepth(g, h, fuel, n.value, n.value.pins);
    }
  }

  /** What each pin adds, as a loop over the pins meets them. */
  lemma PulledAt(g: GraphDef, h: Handlers, n: Node, i: nat)
    requires Acyclic(Deps(g)) && i < |n.pins|
    ensures Pulled(g, h, n, n.pins[..i + 1]) ==
      if IsDataInput(n.pins[i]) then Pulled(g, h, n, n.pins[..i])[n.pins[i].id := PinValue(g, h, n, n.pins[i])]
      else Pulled(g, h, n, n.pins[..i])
  {
    assert n.pins[..i + 1][..i] == n.pins[..i];
  }

  lemma PulledAll(g: GraphDef, h: Handlers, n: Node)
    requires Acyclic(Deps(g))
    ensures Pulled(g, h, n, n.pins[..|n.pins|]) == Pulled(g, h, n, n.pins) && Pulled(g, h, n, n.pins[..0]) == map[]
  {
    assert n.pins[..|n.pins|] == n.pins;
  }

  /** The first connection from the given pin of the given node, if that is an execution pin. */
  ghost predicate FirstFrom(g: GraphDef, conns: seq<Connection>, node: string, pin: string, i: int)
  {
    && 0 <= i < |conns| && conns[i].fromNode == node && conns[i].fromPin == pin && Leaves(g, conns[i], Execution)
    && forall j :: 0 <= j < i ==> conns[j].fromNode != node || conns[j].fromPin != pin
  }

  /** The node an execution pin leads to: the target of the first connection from it. */
  function ExecTarget(g: GraphDef, conns: seq<Connection>, fromNode: string, fromPin: string): (r: Option<Node>)
    ensures r.Some? ==> r.value in g.nodes && FindNode(g.nodes, r.value.id) == r
  {
    if conns == [] then None
    else
      var c := conns[0];
      if c.fromNode == fromNode && c.fromPin == fromPin && Leaves(g, c, Execution) then
        FoundIsFirst(g.nodes, c.toNode);
        FindNode(g.nodes, c.toNode)
      else ExecTarget(g, conns[1..], fromNode, fromPin)
  }

  /** It is the target of the first connection from the pin, or nothing leads on from there. */
  lemma {:induction false} TargetIsFirst(g: GraphDef, conns: seq<Connection>, node: string, pin: string)
    ensures var r := ExecTarget(g, conns, node, pin);
      if r.Some? then exists i :: FirstFrom(g, conns, node, pin, i) && r.value.id == conns[i].toNode
      else forall i, n :: FirstFrom(g, conns, node, pin, i) && n in g.nodes ==> n.id != conns[i].toNode
  {
    if conns != [] {
      var c := conns[0];
      if c.fromNode == node && c.fromPin == pin && Leaves(g, c, Execution) {
        assert FirstFrom(g, conns, node, pin, 0);
      } else {
        TargetIsFirst(g, conns[1..], node, pin);
        forall i ensures FirstFrom(g, conns, node, pin, i) <==> FirstFrom(g, conns[1..], node, pin, i - 1) {
          assert 1 <= i < |conns| ==> conns[1..][i - 1] == conns[i];
        }
        var r := ExecTarget(g, conns[1..], node, pin);
        if r.Some? {
          var i :| FirstFrom(g, conns[1..], node, pin, i) && r.value.id == conns[1..][i].toNode;
          assert FirstFrom(g, conns, node, pin, i + 1);
        }
      }
    }
  }

  datatype Outcome = Done | StepLimit | NoHandler | Failed

  /** The number of a step in the trace, a 32-bit word. */
  function StepIndex(step: nat): nat { step % 0x1_0000_0000 }

  /** One executed step, as a trace shows it. */
  datatype Frame = Frame(inputs: PinMap, id: string, typ: string, index: nat)

  datatype Pass = Pass(outcome: Outcome, cmds: seq<Command>, frames: seq<Frame>)

  /** What one turn of the execution loop does: the end of the pass, or the node to
      execute next. */
  datatype Turn =
    | Stop(outcome: Outcome, cmds: seq<Command>, frames: seq<Frame>)
    | Go(cmds: seq<Command>, frame: Frame, next: Node)

  function AfterExec(g: GraphDef, cur: Node, r: ExecResult, f: Frame): Turn
  {
    if r.failed then Stop(Failed, r.cmds, [f])
    else
      var next := if r.next == "" then None else ExecTarget(g, g.conns, cur.id, r.next);
      if next.None? then Stop(Done, r.cmds, [f]) else Go(r.cmds, f, next.value)
  }

  /** The turn at node `cur` with `steps` nodes already counted, every input taken from
      plain recursion. */
  ghost function TurnAt(g: GraphDef, h: Handlers, limit: nat, steps: nat, cur: Node): Turn
    requires Acyclic(Deps(g)) && steps <= limit
  {
    if steps == limit then Stop(StepLimit, [], [])
    else if cur.typ !in h || h[cur.typ].exec.None? then Stop(NoHandler, [], [])
    else
      var inputs := Pulled(g, h, cur, cur.pins);
      AfterExec(g, cur, h[cur.typ].exec.value(cur.props, inputs), Frame(inputs, cur.id, cur.typ, StepIndex(steps + 1)))
  }

  /** The whole pass from node `cur`. */
  ghost function Chain(g: GraphDef, h: Handlers, limit: nat, steps: nat, cur: Node): Pass
    requires Acyclic(Deps(g)) && steps <= limit
    decreases limit - steps
  {
    match TurnAt(g, h, limit, steps, cur)
    case Stop(outcome, cmds, frames) => Pass(outcome, cmds, frames)
    case Go(cmds, frame, next) =>
      var rest := Chain(g, h, limit, steps + 1, next);
      Pass(rest.outcome, cmds + rest.cmds, [frame] + rest.frames)
  }

  /** The frames are numbered in order from `first`. */
  ghost predicate Numbered(frames: seq<Frame>, first: nat)
  {
    forall i :: 0 <= i < |frames| ==> frames[i].index == (first + i) % 0x1_0000_0000
  }

  lemma NumberedNext(frame: Frame, rest: seq<Frame>, first: nat)
    requires frame.index == StepIndex(first) && Numbered(rest, first + 1)
    ensures Numbered([frame] + rest, first)
  {
    var frames := [frame] + rest;
    forall i | 0 <= i < |frames| ensures frames[i].index == (first + i) % 0x1_0000_0000 {
      if i > 0 {
        assert frames[i] == rest[i - 1] && first + 1 + (i - 1) == first + i;
      }
    }
  }

  lemma TurnNumbered(g: GraphDef, h: Handlers, limit: nat, steps: nat, cur: Node)
    requires Acyclic(Deps(g)) && steps <= limit
    ensures match TurnAt(g, h, limit, steps, cur)
      case Stop(outcome, _, frames) =>
        && Numbered(frames, steps + 1) && |frames| <= limit - steps
        && (outcome == StepLimit ==> frames == [] && steps == limit)
      case Go(_, frame, _) => frame.index == StepIndex(steps + 1) && steps < limit
  {
  }

  /** A pass executes no more nodes than the limit leaves, numbers them in order, and has
      used the limit up when it reports it. */
  lemma {:induction false} ChainBounded(g: GraphDef, h: Handlers, limit: nat, steps: nat, cur: Node)
    requires Acyclic(Deps(g)) && steps <= limit
    ensures var p := Chain(g, h, limit, steps, cur);
      && |p.frames| <= limit - steps && Numbered(p.frames, steps + 1)
      && (p.outcome == StepLimit ==> |p.frames| == limit - steps)
    decreases limit - steps
  {
    TurnNumbered(g, h, limit, steps, cur);
    match TurnAt(g, h, limit, steps, cur) {
      case Stop(_, _, _) =>
      case Go(_, frame, next) =>
        ChainBounded(g, h, limit, steps + 1, next);
        NumberedNext(frame, Chain(g, h, limit, steps + 1, next).frames, steps + 1);
    }
  }

  /** Frame f is of a node that was executed on the inputs plain recursion gives it, and r is
      what its Exec answered. */
  ghost predicate Answered(g: GraphDef, h: Handlers, f: Frame, r: ExecResult)
    requires Acyclic(Deps(g))
  {
    var n := FindNode(g.nodes, f.id);
    n.Some? && n.value.typ == f.typ && f.typ in h && h[f.typ].exec.Some?
    && f.inputs == Pulled(g, h, n.value, n.value.pins) && r == h[f.typ].exec.value(n.value.props, f.inputs)
  }

  /** The first connection from the pin that r names leads to node `id`. */
  ghost predicate LeadsTo(g: GraphDef, f: Frame, r: ExecResult, id: string)
  {
    !r.failed && r.next != "" && exists i :: FirstFrom(g, g.conns, f.id, r.next, i) && g.conns[i].toNode == id
  }

  /** r names no pin, or one with no connection to a node. */
  ghost predicate LeadsNowhere(g: GraphDef, f: Frame, r: ExecResult)
  {
    !r.failed && (r.next == "" || forall n :: n in g.nodes ==> !LeadsTo(g, f, r, n.id))
  }

  function AllCmds(rs: seq<ExecResult>): seq<Command>
  {
    if rs == [] then [] else rs[0].cmds + AllCmds(rs[1..])
  }

  /** Node n is where a pass from `start` stands after its last frame. */
  ghost predicate StandsAt(g: GraphDef, start: string, frames: seq<Frame>, rs: seq<ExecResult>, n: Node)
    requires |rs| == |frames|
  {
    && FindNode(g.nodes, n.id) == Some(n)
    && if rs == [] then n.id == start else LeadsTo(g, frames[|rs| - 1], rs[|rs| - 1], n.id)
  }

  /** The frames start at node `start`, and each is of the node that the answer before it
      leads to. */
  ghost predicate Joined(g: GraphDef, h: Handlers, start: string, frames: seq<Frame>, rs: seq<ExecResult>)
    requires Acyclic(Deps(g))
  {
    && |rs| == |frames| && (rs != [] ==> frames[0].id == start)
    && (forall i :: 0 <= i < |rs| ==> Answered(g, h, frames[i], rs[i]))
    && (forall i :: 0 < i < |rs| ==> LeadsTo(g, frames[i - 1], rs[i - 1], frames[i].id))
  }

  /** The outcome is what the last answer, or the node it leads to, calls for. */
  ghost predicate Concluded(g: GraphDef, h: Handlers, start: string, outcome: Outcome, frames: seq<Frame>,
                            rs: seq<ExecResult>)
    requires |rs| == |frames|
  {
    match outcome
    case Done => rs != [] && LeadsNowhere(g, frames[|rs| - 1], rs[|rs| - 1])
    case Failed => rs != [] && rs[|rs| - 1].failed
    case StepLimit => exists n :: StandsAt(g, start, frames, rs, n)
    case NoHandler => exists n :: StandsAt(g, start, frames, rs, n) && (n.typ !in h || h[n.typ].exec.None?)
  }

  /** A pass from node `start` in which the nodes executed answered `rs`. */
  ghost predicate Follows(g: GraphDef, h: Handlers, start: string, p: Pass, rs: seq<ExecResult>)
    requires Acyclic(Deps(g))
  {
    && Joined(g, h, start, p.frames, rs) && p.cmds == AllCmds(rs)
    && Concluded(g, h, start, p.outcome, p.frames, rs)
  }

  lemma TargetLeads(g: GraphDef, f: Frame, r: ExecResult)
    requires !r.failed && r.next != ""
    ensures var next := ExecTarget(g, g.conns, f.id, r.next);
      if next.Some? then LeadsTo(g, f, r, next.value.id) && FindNode(g.nodes, next.value.id) == next
      else LeadsNowhere(g, f, r)
  {
    TargetIsFirst(g, g.conns, f.id, r.next);
  }

  lemma StopFollows(g: GraphDef, h: Handlers, limit: nat, steps: nat, cur: Node) returns (rs: seq<ExecResult>)
    requires Acyclic(Deps(g)) && steps <= limit && FindNode(g.nodes, cur.id) == Some(cur)
    requires TurnAt(g, h, limit, steps, cur).Stop?
    ensures Follows(g, h, cur.id, Chain(g, h, limit, steps, cur), rs)
  {
    var turn := TurnAt(g, h, limit, steps, cur);
    if turn.frames == [] {
      rs := [];
      assert StandsAt(g, cur.id, [], [], cur);
    } else {
      var f := turn.frames[0];
      var r := h[cur.typ].exec.value(cur.props, f.inputs);
      rs := [r];
      assert AllCmds(rs) == r.cmds + AllCmds([]);
      if !r.failed && r.next != "" {
        TargetLeads(g, f, r);
      }
    }
  }

  lemma StandsMore(g: GraphDef, f: Frame, r: ExecResult, next: string, frames: seq<Frame>, rs: seq<ExecResult>, n: Node)
    requires LeadsTo(g, f, r, next) && |rs| == |frames| && StandsAt(g, next, frames, rs, n)
    ensures StandsAt(g, f.id, [f] + frames, [r] + rs, n)
  {
  }

  lemma JoinedMore(g: GraphDef, h: Handlers, f: Frame, r: ExecResult, next: string, frames: seq<Frame>,
                   rs: seq<ExecResult>)
    requires Acyclic(Deps(g)) && Answered(g, h, f, r) && LeadsTo(g, f, r, next) && Joined(g, h, next, frames, rs)
    ensures Joined(g, h, f.id, [f] + frames, [r] + rs)
  {
    var fs, all := [f] + frames, [r] + rs;
    forall i | 0 < i < |all|
      ensures Answered(g, h, fs[i], all[i]) && LeadsTo(g, fs[i - 1], all[i - 1], fs[i].id)
    {
      assert fs[i] == frames[i - 1] && all[i] == rs[i - 1];
      assert i > 1 ==> fs[i - 1] == frames[i - 2] && all[i - 1] == rs[i - 2];
    }
  }

  lemma ConcludedMore(g: GraphDef, h: Handlers, f: Frame, r: ExecResult, next: string, outcome: Outcome,
                      frames: seq<Frame>, rs: seq<ExecResult>)
    requires LeadsTo(g, f, r, next) && |rs| == |frames| && Concluded(g, h, next, outcome, frames, rs)
    ensures Concluded(g, h, f.id, outcome, [f] + frames, [r] + rs)
  {
    if outcome == StepLimit || outcome == NoHandler {
      var n :| StandsAt(g, next, frames, rs, n) && (outcome == NoHandler ==> n.typ !in h || h[n.typ].exec.None?);
      StandsMore(g, f, r, next, frames, rs, n);
    }
  }

  lemma FollowsMore(g: GraphDef, h: Handlers, f: Frame, r: ExecResult, next: string, p: Pass, rs: seq<ExecResult>)
    requires Acyclic(Deps(g)) && Answered(g, h, f, r) && LeadsTo(g, f, r, next) && Follows(g, h, next, p, rs)
    ensures Follows(g, h, f.id, Pass(p.outcome, r.cmds + p.cmds, [f] + p.frames), [r] + rs)
  {
    assert ([r] + rs)[1..] == rs;
    JoinedMore(g, h, f, r, next, p.frames, rs);
    ConcludedMore(g, h, f, r, next, p.outcome, p.frames, rs);
  }

  /** A pass follows the connections from the pins that the nodes' own answers name, and ends
      for the reason its outcome gives. */
  lemma {:induction false} ChainFollows(g: GraphDef, h: Handlers, limit: nat, steps: nat, cur: Node)
    returns (rs: seq<ExecResult>)
    requires Acyclic(Deps(g)) && steps <= limit && FindNode(g.nodes, cur.id) == Some(cur)
    ensures Follows(g, h, cur.id, Chain(g, h, limit, steps, cur), rs)
    decreases limit - steps
  {
    match TurnAt(g, h, limit, steps, cur) {
      case Stop(_, _, _) => rs := StopFollows(g, h, limit, steps, cur);
      case Go(_, f, next) =>
        var r := h[cur.typ].exec.value(cur.props, f.inputs);
        TargetLeads(g, f, r);
        rs := ChainFollows(g, h, limit, steps + 1, next);
        FollowsMore(g, h, f, r, next.id, Chain(g, h, limit, steps + 1, next), rs);
        rs := [r] + rs;
    }
  }

  // ----- the inputs of a node -----

  /** The value of data input k is that of the connection that feeds it, absent outputs being
      nil, or its default; of several with one ID the last counts. */
  lemma {:induction false} PulledPin(g: GraphDef, h: Handlers, n: Node, pins: seq<Pin>, k: nat)
    requires Acyclic(Deps(g)) && k < |pins| && pins[k].direction == Input && pins[k].kind == Data
    requires forall j :: k < j < |pins| && pins[j].direction == Input && pins[j].kind == Data ==>
      pins[j].id != pins[k].id
    ensures pins[k].id in Pulled(g, h, n, pins)
    ensures forall i :: FirstInto(g, g.conns, n.id, pins[k].id, i) ==>
      var out := Outputs(g, h, g.conns[i].fromNode);
      Pulled(g, h, n, pins)[pins[k].id] == if g.conns[i].fromPin in out then out[g.conns[i].fromPin] else Nil
    ensures (forall i :: !FirstInto(g, g.conns, n.id, pins[k].id, i)) ==>
      Pulled(g, h, n, pins)[pins[k].id] == pins[k].default
  {
    var last := |pins| - 1;
    if k < last {
      assert pins[..last][k] == pins[k];
      PulledPin(g, h, n, pins[..last], k);
    }
  }

  /** Nothing else is an input. */
  lemma {:induction false} PulledOnly(g: GraphDef, h: Handlers, n: Node, pins: seq<Pin>, id: string)
    requires Acyclic(Deps(g)) && id in Pulled(g, h, n, pins)
    ensures exists k :: 0 <= k < |pins| && pins[k].id == id && pins[k].direction == Input && pins[k].kind == Data
  {
    var last := |pins| - 1;
    if id in Pulled(g, h, n, pins[..last]) {
      PulledOnly(g, h, n, pins[..last], id);
      var k :| 0 <= k < last && pins[..last][k].id == id && pins[..last][k].direction == Input &&
        pins[..last][k].kind == Data;
      assert pins[k].id == id;
    }
  }
}
