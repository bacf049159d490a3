/** The graph interpreter: data outputs are evaluated lazily and remembered for the
    pass, and the execution chain is followed up to a step limit. */
module Interpreter {
  import opened Graphs
  import opened Meaning
  import opened Options
  import opened VisualGraph

  const DEFAULT_STEP_LIMIT := 10000

  /** The limit in force: none, or a non-positive one, means the default. */
  function StepLimitOf(requested: int): nat
  {
    if requested <= 0 then DEFAULT_STEP_LIMIT else requested
  }

  /** What RunTraced returns. */
  datatype Result = Ran(outcome: Outcome) | UnknownEntry

  /** The state of one pass. `evaluated` records the nodes whose Eval has been called. */
  class Run {
    const g: GraphDef
    const h: Handlers
    const stepLimit: nat
    const traced: bool
    var memo: map<string, PinMap>
    var steps: nat
    var sink: seq<Command>
    var frames: seq<Frame>
    ghost var evaluated: seq<string>
    /** A number for each node, smaller for what it pulls data from. */
    ghost const rank: string -> nat

    ghost predicate Ranked()
    {
      forall id: string, pin: string {:trigger Source(g, id, pin)} ::
        Source(g, id, pin).Some? ==> rank(Source(g, id, pin).value.0) < rank(id)
    }

    /** What is remembered is what plain recursion gives, and no node was evaluated twice. */
    ghost predicate MemoOk()
      requires Acyclic(Deps(g))
      reads `memo, `evaluated
    {
      && Ranked()
      && (forall id :: id in memo ==> memo[id] == Outputs(g, h, id))
      && (forall i, j :: 0 <= i < j < |evaluated| ==> evaluated[i] != evaluated[j])
      && (forall id :: id in evaluated ==> id in memo)
    }

    constructor (g: GraphDef, h: Handlers, stepLimit: nat, traced: bool)
      requires Acyclic(Deps(g))
      ensures this.g == g && this.h == h && this.stepLimit == stepLimit && this.traced == traced
      ensures memo == map[] && steps == 0 && sink == [] && frames == [] && evaluated == []
      ensures MemoOk()
    {
      this.g, this.h, this.stepLimit, this.traced := g, h, stepLimit, traced;
      memo, steps, sink, frames, evaluated := map[], 0, [], [], [];
      rank := (id: string) => Rank(Deps(g), id);
      new;
      forall id: string, pin: string {:trigger Source(g, id, pin)} | Source(g, id, pin).Some?
        ensures rank(Source(g, id, pin).value.0) < rank(id)
      {
        SourceFalls(g, id, pin);
      }
    }

    /** New entries of the memo rank at most `r`. */
    twostate predicate Remembers(r: int)
      reads `memo
    {
      && (forall id :: id in old(memo) ==> id in memo)
      && (forall id :: id in memo && id !in old(memo) ==> rank(id) <= r)
    }

    /** `evalData`: the outputs of a data node, evaluated once per pass. */
    method EvalData(id: string) returns (out: PinMap)
      requires Acyclic(Deps(g)) && MemoOk()
      modifies `memo, `evaluated
      ensures MemoOk() && out == Outputs(g, h, id) && Remembers(rank(id))
      decreases rank(id), 2
    {
      OutputsAt(g, h, id);
      if id in memo {
        return memo[id];
      }
      var node := FindNode(g.nodes, id);
      if node.None? {
        return map[];
      }
      if node.value.typ in h && h[node.value.typ].eval.Some? {
        var inputs := PullDataInputs(node.value);
        out := h[node.value.typ].eval.value(node.value.props, inputs);
        evaluated := evaluated + [id];
      } else {
        out := map[];
      }
      memo := memo[id := out];
    }

    /** One pin of `pullDataInputs`, evaluating what it is connected to. */
    method PullPin(node: Node, pin: Pin, inputs0: PinMap) returns (inputs: PinMap)
      requires Acyclic(Deps(g)) && MemoOk()
      modifies `memo, `evaluated
      ensures MemoOk() && Remembers(rank(node.id) - 1)
      ensures inputs == if IsDataInput(pin) then inputs0[pin.id := PinValue(g, h, node, pin)] else inputs0
      decreases rank(node.id), 0
    {
      inputs := inputs0;
      if IsDataInput(pin) {
        var src := Source(g, node.id, pin.id);
        if src.Some? {
          var out := EvalData(src.value.0);
          inputs := inputs[pin.id := Get(out, src.value.1)];
        } else {
          inputs := inputs[pin.id := pin.default];
        }
      }
    }

    /** `pullDataInputs`: a node's data inputs, pin by pin. */
    method PullDataInputs(node: Node) returns (inputs: PinMap)
      requires Acyclic(Deps(g)) && MemoOk()
      modifies `memo, `evaluated
      ensures MemoOk() && inputs == Pulled(g, h, node, node.pins) && Remembers(rank(node.id) - 1)
      decreases rank(node.id), 1
    {
      inputs := map[];
      PulledAll(g, h, node);
      for i := 0 to |node.pins|
        invariant MemoOk() && inputs == Pulled(g, h, node, node.pins[..i])
        invariant Remembers(rank(node.id) - 1)
      {
        PulledAt(g, h, node, i);
        inputs := PullPin(node, node.pins[i], inputs);
      }
    }

    /** The frames a recorder sees. */
    function Shown(f: seq<Frame>): seq<Frame>
    {
      if traced then f else []
    }

    lemma Regroup<T>(a: seq<T>, b: seq<T>, c: seq<T>)
      ensures (a + b) + c == a + (b + c)
    {
    }

    /** The frames of one turn. */
    function FramesOf(turn: Turn): seq<Frame>
    {
      if turn.Go? then [turn.frame] else turn.frames
    }

    /** One turn of the execution loop at `cur`. */
    method ExecNode(cur: Node) returns (turn: Turn)
      requires Acyclic(Deps(g)) && MemoOk() && steps <= stepLimit
      modifies this
      ensures MemoOk() && turn == TurnAt(g, h, stepLimit, old(steps), cur)
      ensures turn.Go? ==> steps == old(steps) + 1 <= stepLimit
      ensures sink == old(sink) + turn.cmds
      ensures frames == old(frames) + Shown(FramesOf(turn))
    {
      if steps + 1 > stepLimit {
        return Stop(StepLimit, [], []);
      }
      steps := steps + 1;
      if cur.typ !in h || h[cur.typ].exec.None? {
        return Stop(NoHandler, [], []);
      }
      var inputs := PullDataInputs(cur);
      var frame := Frame(inputs, cur.id, cur.typ, StepIndex(steps));
      if traced {
        frames := frames + [frame];
      }
      var r := h[cur.typ].exec.value(cur.props, inputs);
      sink := sink + r.cmds;
      if r.failed {
        return Stop(Failed, r.cmds, [frame]);
      }
      if r.next == "" {
        return Stop(Done, r.cmds, [frame]);
      }
      var next := ExecTarget(g, g.conns, cur.id, r.next);
      if next.None? {
        return Stop(Done, r.cmds, [frame]);
      }
      return Go(r.cmds, frame, next.value);
    }

    /** The whole pass `p` is `cmds` and `shown`, then the pass from `cur`. */
    ghost predicate SoFar(p: Pass, at: nat, cur: Node, cmds: seq<Command>, shown: seq<Frame>)
      requires Acyclic(Deps(g)) && at <= stepLimit
    {
      var rest := Chain(g, h, stepLimit, at, cur);
      p == Pass(rest.outcome, cmds + rest.cmds, shown + rest.frames)
    }

    lemma FollowStop(p: Pass, at: nat, cur: Node, cmds: seq<Command>, shown: seq<Frame>, t: Turn)
      requires Acyclic(Deps(g)) && at <= stepLimit && SoFar(p, at, cur, cmds, shown)
      requires t == TurnAt(g, h, stepLimit, at, cur) && t.Stop?
      ensures p == Pass(t.outcome, cmds + t.cmds, shown + FramesOf(t))
    {
    }

    lemma FollowNext(p: Pass, at: nat, cur: Node, cmds: seq<Command>, shown: seq<Frame>, t: Turn)
      requires Acyclic(Deps(g)) && at <= stepLimit && SoFar(p, at, cur, cmds, shown)
      requires t == TurnAt(g, h, stepLimit, at, cur) && t.Go?
      ensures at + 1 <= stepLimit && SoFar(p, at + 1, t.next, cmds + t.cmds, shown + FramesOf(t))
    {
      var rest := Chain(g, h, stepLimit, at + 1, t.next);
      Regroup(cmds, t.cmds, rest.cmds);
      Regroup(shown, [t.frame], rest.frames);
    }

    lemma ShownJoins(before: seq<Frame>, shown: seq<Frame>, f: seq<Frame>)
      ensures (before + Shown(shown)) + Shown(f) == before + Shown(shown + f)
    {
    }

    lemma NothingBefore(cur: Node)
      requires Acyclic(Deps(g)) && steps <= stepLimit
      ensures SoFar(Chain(g, h, stepLimit, steps, cur), steps, cur, [], [])
    {
    }

    /** `execChain`: the same outcome, commands and trace as the pass that evaluates
        without a memo. */
    method ExecChain(node: Node) returns (outcome: Outcome)
      requires Acyclic(Deps(g)) && MemoOk() && steps <= stepLimit
      modifies this
      ensures MemoOk()
      ensures var p := Chain(g, h, stepLimit, old(steps), node);
        && outcome == p.outcome
        && sink == old(sink) + p.cmds
        && frames == old(frames) + Shown(p.frames)
    {
      var cur := node;
      ghost var p := Chain(g, h, stepLimit, steps, node);
      ghost var cmds: seq<Command>, shown: seq<Frame> := [], [];
      NothingBefore(node);
      while true
        invariant steps <= stepLimit && MemoOk()
        invariant sink == old(sink) + cmds && frames == old(frames) + Shown(shown)
        invariant SoFar(p, steps, cur, cmds, shown)
        decreases stepLimit - steps
      {
        ghost var at := steps;
        var turn := ExecNode(cur);
        Regroup(old(sink), cmds, turn.cmds);
        ShownJoins(old(frames), shown, FramesOf(turn));
        match turn {
          case Stop(o, _, _) =>
            FollowStop(p, at, cur, cmds, shown, turn);
            return o;
          case Go(_, _, next) =>
            FollowNext(p, at, cur, cmds, shown, turn);
            cmds, shown := cmds + turn.cmds, shown + FramesOf(turn);
            cur := next;
        }
      }
    }
  }

  /** RunTraced on a graph ValidateGraph accepts: the pass ends within the step limit and
      does exactly what evaluation without a memo would do, traced or not. */
  method RunTraced(g: GraphDef, h: Handlers, requested: int, entry: string, traced: bool)
    returns (r: Result, sink: seq<Command>, frames: seq<Frame>)
    requires Acyclic(Deps(g))
    ensures r.UnknownEntry? <==> FindNode(g.nodes, entry).None?
    ensures r.UnknownEntry? ==> sink == [] && frames == []
    ensures r.Ran? ==>
      var p := Chain(g, h, StepLimitOf(requested), 0, FindNode(g.nodes, entry).value);
      && r.outcome == p.outcome && sink == p.cmds && frames == (if traced then p.frames else [])
      && |p.frames| <= (if requested <= 0 then 10000 else requested)
      && (r.outcome == StepLimit ==> |p.frames| == if requested <= 0 then 10000 else requested)
      && exists rs :: Follows(g, h, entry, p, rs)
  {
    var node := FindNode(g.nodes, entry);
    if node.None? {
      return UnknownEntry, [], [];
    }
    var run := new Run(g, h, StepLimitOf(requested), traced);
    var outcome := run.ExecChain(node.value);
    ChainBounded(g, h, StepLimitOf(requested), 0, node.value);
    FoundIsFirst(g.nodes, entry);
    ghost var rs := ChainFollows(g, h, StepLimitOf(requested), 0, node.value);
    return Ran(outcome), run.sink, run.frames;
  }
}
