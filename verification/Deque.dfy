/** The work-stealing deque as a transition system: one step per atomic load,
    store or compare-and-swap of `pushBottom`, `popBottom` and `steal`, one owner
    and any number of thieves, in any interleaving. */
module Deque {
  import opened Options
  import opened Ring
  import Bits

  /** A task, named by a number. */
  type Task = nat

  /** What the owner does next. Each constructor holds the locals it has read. */
  datatype Owner =
    | Idle
    | PushLoadBottom(c: Cell)
    | PushLoadTop(c: Cell, b: int)
    | PushLoadArray(c: Cell, b: int, tp: nat)
    | PushGrow(c: Cell, b: int, tp: nat, a: nat, i: nat, n: Ring)
    | PushSlot(c: Cell, b: int, a: nat)
    | PushPublish(c: Cell, b: int)
    | PopLoadArray(b: int)
    | PopStoreBottom(b: int, a: nat)
    | PopLoadTop(b: int, a: nat)
    | PopRestore(b: int)
    | PopLoadSlot(b: int, a: nat, tp: nat)
    | PopCas(b: int, tp: nat, p: Option<Cell>)
    | PopUnlock(b: int, p: Option<Cell>, won: bool)
    | PopConsume(p: Option<Cell>)

  /** What a thief does next. */
  datatype Thief =
    | Free
    | LoadBottom(tp: nat)
    | LoadArray(tp: nat)
    | LoadSlot(tp: nat, a: nat)
    | Cas(tp: nat, p: Option<Cell>)
    | Consume(p: Option<Cell>)

  /** Who may touch a cell. */
  datatype Place = Pooled | Live(i: int) | OwnerHas | ThiefHas(k: nat)

  datatype Agent = TheOwner | AThief(k: nat)

  /** The moment an operation takes effect, and what it took. */
  datatype Event = Pushed(t: Task) | Popped(t: Task) | PopMissed | Stole(k: nat, t: Task)

  /** The shared memory (`top` ... `pool`), the locals of every goroutine, and four
      records of the run: who owns each cell, the tasks pushBottom was called with,
      the operations in the order they took effect, and the tasks handed back.
      `rings` lists every ring ever published, since a thief may still read an old
      one; `current` is the published one. */
  datatype State = State(
    top: nat, bottom: int, current: nat, rings: seq<Ring>,
    cells: map<Cell, Option<Task>>, pool: set<Cell>,
    owner: Owner, thieves: seq<Thief>, crashed: bool,
    place: map<Cell, Place>, calls: seq<Task>, events: seq<Event>, returned: seq<(Agent, Task)>)

  datatype Action =
    | Push(t: Task, c: Cell)   // start pushBottom(t), sync.Pool handing out c
    | Pop                      // start popBottom
    | OwnerStep                // the owner's next atomic operation
    | Steal(k: nat)            // thief k starts steal
    | ThiefStep(k: nat)        // thief k's next atomic operation

  function Init(logSize: nat, thieves: nat): State
  {
    State(0, 0, 0, [Blank(Bits.Pow2(logSize))], map[], {}, Idle, seq(thieves, _ => Free), false, map[], [], [], [])
  }

  /** sync.Pool hands out a cell it holds, or a new one. */
  predicate Enabled(s: State, a: Action)
  {
    match a
    case Push(t, c) => s.owner.Idle? && (c in s.pool || c !in s.cells)
    case Pop => s.owner.Idle?
    case OwnerStep => !s.owner.Idle?
    case Steal(k) => k < |s.thieves| && s.thieves[k].Free?
    case ThiefStep(k) => k < |s.thieves| && !s.thieves[k].Free?
  }

  /** A nil or wild dereference. */
  function Crash(s: State): State
  {
    s.(crashed := true)
  }

  /** The task in the cell `p` points to. */
  function TaskOf(s: State, p: Option<Cell>): Task
  {
    if p.Some? && p.value in s.cells && s.cells[p.value].Some? then s.cells[p.value].value else 0
  }

  /** `consume`: read the task, clear the cell, give it back to the pool. */
  function ConsumeCell(s: State, p: Option<Cell>, who: Agent): State
  {
    if p.None? || p.value !in s.cells || s.cells[p.value].None? then Crash(s)
    else s.(cells := s.cells[p.value := None], pool := s.pool + {p.value},
            place := s.place[p.value := Pooled],
            returned := s.returned + [(who, s.cells[p.value].value)])
  }

  /** The record that the cell `p` points to now belongs to `w`. */
  function Give(s: State, p: Option<Cell>, w: Place): map<Cell, Place>
  {
    if p.Some? then s.place[p.value := w] else s.place
  }

  function StepOwner(s: State): State
    requires !s.owner.Idle?
  {
    match s.owner
    case PushLoadBottom(c) => s.(owner := PushLoadTop(c, s.bottom))
    case PushLoadTop(c, b) => s.(owner := PushLoadArray(c, b, s.top))
    case PushLoadArray(c, b, tp) =>
      if b < 0 || s.current >= |s.rings| then Crash(s)
      else if b - tp > Size(s.rings[s.current]) - 1 then
        s.(owner := PushGrow(c, b, tp, s.current, tp, Blank(2 * Size(s.rings[s.current]))))
      else s.(owner := PushSlot(c, b, s.current))
    case PushGrow(c, b, tp, a, i, n) =>
      if a >= |s.rings| then Crash(s)
      else if i < b then s.(owner := PushGrow(c, b, tp, a, i + 1, Put(n, i, Get(s.rings[a], i))))
      else s.(rings := s.rings + [n], current := |s.rings|, owner := PushSlot(c, b, |s.rings|))
    case PushSlot(c, b, a) =>
      if b < 0 || a >= |s.rings| then Crash(s)
      else s.(rings := s.rings[a := Put(s.rings[a], b, Some(c))], owner := PushPublish(c, b))
    case PushPublish(c, b) =>
      s.(bottom := b + 1, owner := Idle,
         place := s.place[c := Live(b)], events := s.events + [Pushed(TaskOf(s, Some(c)))])
    case PopLoadArray(b) => s.(owner := PopStoreBottom(b, s.current))
    case PopStoreBottom(b, a) => s.(bottom := b, owner := PopLoadTop(b, a))
    case PopLoadTop(b, a) =>
      if s.top > b then s.(owner := PopRestore(b), events := s.events + [PopMissed])
      else if a >= |s.rings| then Crash(s)
      else if s.top == b then s.(owner := PopLoadSlot(b, a, s.top))
      else
        var p := Get(s.rings[a], b);
        s.(owner := PopLoadSlot(b, a, s.top),
           place := Give(s, p, OwnerHas), events := s.events + [Popped(TaskOf(s, p))])
    case PopRestore(b) => s.(bottom := b + 1, owner := Idle)
    case PopLoadSlot(b, a, tp) =>
      if b < 0 || a >= |s.rings| then Crash(s)
      else if tp != b then s.(owner := PopConsume(Get(s.rings[a], b)))
      else s.(owner := PopCas(b, tp, Get(s.rings[a], b)))
    case PopCas(b, tp, p) =>
      if s.top == tp then
        s.(top := tp + 1, owner := PopUnlock(b, p, true),
           place := Give(s, p, OwnerHas), events := s.events + [Popped(TaskOf(s, p))])
      else s.(owner := PopUnlock(b, p, false), events := s.events + [PopMissed])
    case PopUnlock(b, p, won) => s.(bottom := b + 1, owner := if won then PopConsume(p) else Idle)
    case PopConsume(p) => ConsumeCell(s, p, TheOwner).(owner := Idle)
  }

  function StepThief(s: State, k: nat): State
    requires k < |s.thieves| && !s.thieves[k].Free?
  {
    match s.thieves[k]
    case LoadBottom(tp) => s.(thieves := s.thieves[k := if tp >= s.bottom then Free else LoadArray(tp)])
    case LoadArray(tp) => s.(thieves := s.thieves[k := LoadSlot(tp, s.current)])
    case LoadSlot(tp, a) =>
      if a >= |s.rings| then Crash(s)
      else s.(thieves := s.thieves[k := Cas(tp, Get(s.rings[a], tp))])
    case Cas(tp, p) =>
      if s.top == tp then
        s.(top := tp + 1, thieves := s.thieves[k := Consume(p)],
           place := Give(s, p, ThiefHas(k)), events := s.events + [Stole(k, TaskOf(s, p))])
      else s.(thieves := s.thieves[k := Free])
    case Consume(p) => ConsumeCell(s, p, AThief(k)).(thieves := s.thieves[k := Free])
  }

  function Step(s: State, a: Action): State
    requires Enabled(s, a)
  {
    match a
    case Push(t, c) =>
      s.(owner := PushLoadBottom(c), cells := s.cells[c := Some(t)], pool := s.pool - {c},
         place := s.place[c := OwnerHas], calls := s.calls + [t])
    case Pop => s.(owner := PopLoadArray(s.bottom - 1))
    case OwnerStep => StepOwner(s)
    case Steal(k) => s.(thieves := s.thieves[k := LoadBottom(s.top)])
    case ThiefStep(k) => StepThief(s, k)
  }

  /** The state reached by `acts` from `s`, or nothing when some action is not enabled. */
  function Run(s: State, acts: seq<Action>): Option<State>
  {
    if acts == [] then Some(s)
    else
      var r := Run(s, acts[..|acts| - 1]);
      var a := acts[|acts| - 1];
      if r.Some? && Enabled(r.value, a) then Some(Step(r.value, a)) else None
  }

  // ----- the abstract deque -----

  /** The sequential deque: the owner works at the back, thieves at the front. */
  function Apply(q: seq<Task>, e: Event): Option<seq<Task>>
  {
    match e
    case Pushed(t) => Some(q + [t])
    case Popped(t) => if q != [] && q[|q| - 1] == t then Some(q[..|q| - 1]) else None
    case PopMissed => if q == [] then Some(q) else None
    case Stole(k, t) => if q != [] && q[0] == t then Some(q[1..]) else None
  }

  /** The sequential deque after a history, or nothing when the history is illegal. */
  function Replay(events: seq<Event>): Option<seq<Task>>
  {
    if events == [] then Some([])
    else
      var q := Replay(events[..|events| - 1]);
      if q.Some? then Apply(q.value, events[|events| - 1]) else None
  }

  function PushedBy(e: Event): seq<Task>
  {
    if e.Pushed? then [e.t] else []
  }

  function PushedIn(events: seq<Event>): seq<Task>
  {
    if events == [] then []
    else PushedIn(events[..|events| - 1]) + PushedBy(events[|events| - 1])
  }

  /** What `e` took for `who`. */
  function Took(e: Event, who: Agent): seq<Task>
  {
    if who.TheOwner? then (if e.Popped? then [e.t] else [])
    else if e.Stole? && e.k == who.k then [e.t] else []
  }

  function TakenBy(events: seq<Event>, who: Agent): seq<Task>
  {
    if events == [] then []
    else TakenBy(events[..|events| - 1], who) + Took(events[|events| - 1], who)
  }

  function GivenBy(r: (Agent, Task), who: Agent): seq<Task>
  {
    if r.0 == who then [r.1] else []
  }

  function GivenTo(returned: seq<(Agent, Task)>, who: Agent): seq<Task>
  {
    if returned == [] then []
    else GivenTo(returned[..|returned| - 1], who) + GivenBy(returned[|returned| - 1], who)
  }

  // ----- what a state means -----

  /** `bottom` with the owner's transient decrement undone: while popBottom has not
      yet won or lost the last element, index `bottom` still counts as present. */
  function LogicalBottom(s: State): int
  {
    match s.owner
    case PopLoadTop(_, _) => s.bottom + 1
    case PopRestore(_) => s.bottom + 1
    case PopLoadSlot(b, _, tp) => if tp == b then s.bottom + 1 else s.bottom
    case PopCas(_, _, _) => s.bottom + 1
    case PopUnlock(_, _, _) => s.bottom + 1
    case _ => s.bottom
  }

  function SlotAt(s: State, i: nat): Option<Cell>
  {
    if s.current < |s.rings| then Get(s.rings[s.current], i) else None
  }

  function CurrentSize(s: State): nat
  {
    if s.current < |s.rings| then Size(s.rings[s.current]) else 1
  }

  /** The tasks at logical indices [lo, hi) of the published ring. */
  function Range(s: State, lo: nat, hi: int): (q: seq<Task>)
    ensures |q| == if lo <= hi then hi - lo else 0
    ensures forall j {:trigger q[j]} :: 0 <= j < |q| ==> q[j] == TaskOf(s, SlotAt(s, lo + j))
  {
    if hi <= lo then [] else seq<Task>(hi - lo, j requires 0 <= j => TaskOf(s, SlotAt(s, lo + j)))
  }

  /** The contents of the deque, oldest first. */
  function Abs(s: State): seq<Task>
  {
    Range(s, s.top, LogicalBottom(s))
  }

  /** The task of an operation that has taken effect and not yet returned. */
  function Holding(s: State, who: Agent): seq<Task>
  {
    match who
    case TheOwner => (
      match s.owner
      case PopLoadSlot(b, a, tp) => if tp != b && b >= 0 then [TaskOf(s, SlotAt(s, b))] else []
      case PopUnlock(_, p, won) => if won then [TaskOf(s, p)] else []
      case PopConsume(p) => [TaskOf(s, p)]
      case _ => []
    )
    case AThief(k) =>
      if k < |s.thieves| && s.thieves[k].Consume? then [TaskOf(s, s.thieves[k].p)] else []
  }

  /** The cell of a pushBottom that has not yet published. */
  function PushCell(w: Owner): Option<Cell>
  {
    match w
    case PushLoadBottom(c) => Some(c)
    case PushLoadTop(c, _) => Some(c)
    case PushLoadArray(c, _, _) => Some(c)
    case PushGrow(c, _, _, _, _, _) => Some(c)
    case PushSlot(c, _, _) => Some(c)
    case PushPublish(c, _) => Some(c)
    case _ => None
  }

  function Pushing(s: State): seq<Task>
  {
    var p := PushCell(s.owner);
    if p.Some? then [TaskOf(s, p)] else []
  }

  // ----- the invariant -----

  /** `p` points to a cell that carries a task and belongs to `w` alone. */
  predicate Owned(s: State, p: Option<Cell>, w: Place)
  {
    && p.Some? && p.value in s.place && s.place[p.value] == w
    && p.value in s.cells && s.cells[p.value].Some?
  }

  /** Every live index holds its own cell, and they fit in the ring. */
  ghost predicate LiveOk(s: State)
  {
    && |s.rings| > 0 && s.current == |s.rings| - 1
    && s.top <= LogicalBottom(s) <= s.top + CurrentSize(s)
    && forall i: nat {:trigger SlotAt(s, i)} :: s.top <= i < LogicalBottom(s) ==> Owned(s, SlotAt(s, i), Live(i))
  }

  ghost predicate PoolOk(s: State)
  {
    && s.place.Keys == s.cells.Keys
    && forall c :: c in s.pool ==> c in s.place && s.place[c] == Pooled
  }

  ghost predicate OwnerOk(s: State)
  {
    && (PushCell(s.owner).Some? ==> Owned(s, PushCell(s.owner), OwnerHas))
    && match s.owner
       case Idle => true
       case PushLoadBottom(_) => true
       case PushLoadTop(_, b) => b == s.bottom
       case PushLoadArray(_, b, tp) =>
         b == s.bottom && tp <= s.top && b - tp <= CurrentSize(s)
       case PushGrow(_, b, tp, a, i, n) =>
         && b == s.bottom && tp <= s.top && tp <= i <= b && b - tp == CurrentSize(s)
         && a == s.current && Size(n) == 2 * CurrentSize(s)
         && forall j: nat {:trigger Get(n, j)} :: tp <= j < i ==> Get(n, j) == SlotAt(s, j)
       case PushSlot(_, b, a) => b == s.bottom && a == s.current && b - s.top < CurrentSize(s)
       case PushPublish(c, b) =>
         b == s.bottom && b >= 0 && b - s.top < CurrentSize(s) && SlotAt(s, b) == Some(c)
       case PopLoadArray(b) => b == s.bottom - 1
       case PopStoreBottom(b, a) => b == s.bottom - 1 && a == s.current
       case PopLoadTop(b, a) => b == s.bottom && a == s.current
       case PopRestore(b) => b == s.bottom && s.top == b + 1
       case PopLoadSlot(b, a, tp) =>
         && b == s.bottom && a == s.current && tp <= s.top && tp <= b
         && (tp < b ==> Owned(s, SlotAt(s, b), OwnerHas))
       case PopCas(b, tp, p) =>
         b == s.bottom && tp == b && tp <= s.top && (tp == s.top ==> p == SlotAt(s, tp))
       case PopUnlock(b, p, won) => b == s.bottom && s.top == b + 1 && (won ==> Owned(s, p, OwnerHas))
       case PopConsume(p) => Owned(s, p, OwnerHas)
  }

  /** As long as `top` has not moved, what thief `k` has read is still true. */
  ghost predicate ThiefOk(s: State, k: nat)
    requires k < |s.thieves|
  {
    match s.thieves[k]
    case Free => true
    case LoadBottom(tp) => tp <= s.top
    case LoadArray(tp) => tp <= s.top && (tp == s.top ==> tp < LogicalBottom(s))
    case LoadSlot(tp, a) =>
      && tp <= s.top && a < |s.rings|
      && (tp == s.top ==> tp < LogicalBottom(s) && Get(s.rings[a], tp) == SlotAt(s, tp))
    case Cas(tp, p) => tp <= s.top && (tp == s.top ==> tp < LogicalBottom(s) && p == SlotAt(s, tp))
    case Consume(p) => Owned(s, p, ThiefHas(k))
  }

  ghost predicate ThievesOk(s: State)
  {
    forall k: nat {:trigger ThiefOk(s, k)} :: k < |s.thieves| ==> ThiefOk(s, k)
  }

  ghost predicate Safe(s: State)
  {
    !s.crashed && LiveOk(s) && PoolOk(s) && OwnerOk(s) && ThievesOk(s)
  }

  /** What `who` took is what it got back, and then what it still holds. */
  predicate AgentOk(events: seq<Event>, returned: seq<(Agent, Task)>, who: Agent, held: seq<Task>)
  {
    TakenBy(events, who) == GivenTo(returned, who) + held
  }

  /** The history is a legal run of the sequential deque and ends in its contents,
      pushes are the calls made, and each agent gets back what it took, in order. */
  ghost predicate Linearized(s: State)
  {
    && Replay(s.events) == Some(Abs(s))
    && s.calls == PushedIn(s.events) + Pushing(s)
    && forall who {:trigger Holding(s, who)} :: AgentOk(s.events, s.returned, who, Holding(s, who))
  }
}
