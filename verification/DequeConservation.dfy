/** What linearizability says about tasks: none is lost and none is run twice. */
module DequeConservation {
  import opened Options
  import opened Ring
  import opened Deque
  import opened DequeSafety
  import opened DequeHistory

  type Bag = multiset<Task>

  function TookAny(e: Event): seq<Task>
  {
    if e.Popped? || e.Stole? then [e.t] else []
  }

  /** Every task the history takes out, by owner or thief, in order. */
  function AllTaken(events: seq<Event>): seq<Task>
  {
    if events == [] then [] else AllTaken(events[..|events| - 1]) + TookAny(events[|events| - 1])
  }

  /** Every task handed back, in order. */
  function AllReturned(returned: seq<(Agent, Task)>): seq<Task>
  {
    if returned == [] then [] else AllReturned(returned[..|returned| - 1]) + [returned[|returned| - 1].1]
  }

  lemma BagShift(p: Bag, a: Bag, q: Bag, dp: Bag, da: Bag, q': Bag)
    requires p == a + q && dp + q == da + q'
    ensures p + dp == (a + da) + q'
  {
    assert p + dp == a + (dp + q);
  }

  lemma ApplyConserves(q: seq<Task>, e: Event)
    requires Apply(q, e).Some?
    ensures multiset(PushedBy(e)) + multiset(q) == multiset(TookAny(e)) + multiset(Apply(q, e).value)
  {
    match e {
      case Pushed(t) =>
      case Popped(t) => assert q == q[..|q| - 1] + [t];
      case PopMissed =>
      case Stole(k, t) => assert q == [t] + q[1..];
    }
  }

  /** A legal history puts in exactly what it takes out and what is left. */
  lemma {:induction false} ReplayConserves(events: seq<Event>)
    requires Replay(events).Some?
    ensures multiset(PushedIn(events)) == multiset(AllTaken(events)) + multiset(Replay(events).value)
  {
    if events != [] {
      var front, e := events[..|events| - 1], events[|events| - 1];
      ReplayConserves(front);
      var q := Replay(front).value;
      ApplyConserves(q, e);
      BagShift(multiset(PushedIn(front)), multiset(AllTaken(front)), multiset(q),
               multiset(PushedBy(e)), multiset(TookAny(e)), multiset(Replay(events).value));
    } else {
      assert PushedIn(events) == [] && AllTaken(events) == [] && Replay(events).value == [];
    }
  }

  ghost predicate NamesOk(s: State)
  {
    && (forall e :: e in s.events && e.Stole? ==> e.k < |s.thieves|)
    && (forall r :: r in s.returned && r.0.AThief? ==> r.0.k < |s.thieves|)
  }

  lemma QuietPush(s: State)
    requires PushCell(s.owner).Some? && !s.owner.PushPublish?
    ensures StepOwner(s).events == s.events && StepOwner(s).top == s.top
  {
  }

  /** Most steps of the owner leave the history and `top` alone. */
  lemma QuietRecords(s: State)
    requires !s.owner.Idle? && !s.owner.PushPublish? && !s.owner.PopLoadTop? && !s.owner.PopCas?
    ensures StepOwner(s).events == s.events && StepOwner(s).top == s.top
  {
    if PushCell(s.owner).Some? {
      QuietPush(s);
    }
  }

  /** The owner adds no steal to the history. */
  lemma OwnerEvents(s: State)
    requires !s.owner.Idle?
    ensures forall e :: e in StepOwner(s).events && e.Stole? ==> e in s.events
  {
    match s.owner {
      case PushPublish(_, _) =>
      case PopLoadTop(_, _) =>
      case PopCas(_, _, _) =>
      case _ => QuietRecords(s);
    }
  }

  lemma OwnerThieves(s: State)
    requires !s.owner.Idle?
    ensures StepOwner(s).thieves == s.thieves
  {
  }

  lemma OwnerHandsBack(s: State)
    requires !s.owner.Idle?
    ensures forall r :: r in StepOwner(s).returned && r.0.AThief? ==> r in s.returned
  {
  }

  lemma OwnerNames(s: State)
    requires NamesOk(s) && !s.owner.Idle?
    ensures NamesOk(StepOwner(s)) && |StepOwner(s).thieves| == |s.thieves|
  {
    OwnerEvents(s);
    OwnerHandsBack(s);
    OwnerThieves(s);
  }

  lemma ThiefNames(s: State, k: nat)
    requires NamesOk(s) && k < |s.thieves| && !s.thieves[k].Free?
    ensures NamesOk(StepThief(s, k)) && |StepThief(s, k).thieves| == |s.thieves|
  {
  }

  lemma StepNames(s: State, a: Action)
    requires NamesOk(s) && Enabled(s, a)
    ensures NamesOk(Step(s, a)) && |Step(s, a).thieves| == |s.thieves|
  {
    match a {
      case OwnerStep => OwnerNames(s);
      case ThiefStep(k) => ThiefNames(s, k);
      case _ =>
    }
  }

  // ----- taken, handed back and held, as bags -----

  function Some1(yes: bool, t: Task): Bag
  {
    if yes then multiset{t} else multiset{}
  }

  predicate IsBy(e: Event, who: Agent)
  {
    if who.TheOwner? then e.Popped? else e.Stole? && e.k == who.k
  }

  function EventTask(e: Event): Task
  {
    if e.PopMissed? then 0 else e.t
  }

  function TakenBag(events: seq<Event>, who: Agent): Bag
  {
    if events == [] then multiset{}
    else
      var e := events[|events| - 1];
      TakenBag(events[..|events| - 1], who) + Some1(IsBy(e, who), EventTask(e))
  }

  function GivenBag(returned: seq<(Agent, Task)>, who: Agent): Bag
  {
    if returned == [] then multiset{}
    else
      var r := returned[|returned| - 1];
      GivenBag(returned[..|returned| - 1], who) + Some1(r.0 == who, r.1)
  }

  lemma {:induction false} TakenBagIs(events: seq<Event>, who: Agent)
    ensures multiset(TakenBy(events, who)) == TakenBag(events, who)
  {
    if events != [] {
      TakenBagIs(events[..|events| - 1], who);
    }
  }

  lemma {:induction false} GivenBagIs(returned: seq<(Agent, Task)>, who: Agent)
    ensures multiset(GivenTo(returned, who)) == GivenBag(returned, who)
  {
    if returned != [] {
      GivenBagIs(returned[..|returned| - 1], who);
    }
  }

  /** What the first n thieves took, got back and hold. */
  ghost function Stolen(events: seq<Event>, n: nat): Bag
  {
    if n == 0 then multiset{} else Stolen(events, n - 1) + TakenBag(events, AThief(n - 1))
  }

  ghost function GivenThieves(returned: seq<(Agent, Task)>, n: nat): Bag
  {
    if n == 0 then multiset{} else GivenThieves(returned, n - 1) + GivenBag(returned, AThief(n - 1))
  }

  /** Thief k has won a task and not yet handed it back. */
  predicate Wins(s: State, k: nat)
  {
    k < |s.thieves| && s.thieves[k].Consume?
  }

  ghost function HeldThieves(s: State, n: nat): Bag
  {
    if n == 0 then multiset{}
    else HeldThieves(s, n - 1) + Some1(Wins(s, n - 1), if Wins(s, n - 1) then TaskOf(s, s.thieves[n - 1].p) else 0)
  }

  /** The tasks held by operations that have won them and not yet returned. */
  ghost function Held(s: State): Bag
  {
    multiset(Holding(s, TheOwner)) + HeldThieves(s, |s.thieves|)
  }

  /** One more for the owner or for a thief. */
  lemma BothSplit(all: Bag, own: Bag, theirs: Bag, more: Bag, mine: Bag, other: Bag)
    requires all == own + theirs && more == mine + other
    ensures all + more == (own + mine) + (theirs + other)
  {
  }

  lemma {:induction false} StolenMore(events: seq<Event>, n: nat)
    requires events != []
    ensures var e := events[|events| - 1];
      Stolen(events, n) == Stolen(events[..|events| - 1], n) + Some1(e.Stole? && e.k < n, EventTask(e))
  {
    if n > 0 {
      var front, e, who := events[..|events| - 1], events[|events| - 1], AThief(n - 1);
      StolenMore(events, n - 1);
      BothSplit(Stolen(events, n - 1), Stolen(front, n - 1), Some1(e.Stole? && e.k < n - 1, EventTask(e)),
                TakenBag(events, who), TakenBag(front, who), Some1(IsBy(e, who), EventTask(e)));
    }
  }

  lemma {:induction false} GivenMore(returned: seq<(Agent, Task)>, n: nat)
    requires returned != []
    ensures var r := returned[|returned| - 1];
      GivenThieves(returned, n) ==
        GivenThieves(returned[..|returned| - 1], n) + Some1(r.0.AThief? && r.0.k < n, r.1)
  {
    if n > 0 {
      var front, r, who := returned[..|returned| - 1], returned[|returned| - 1], AThief(n - 1);
      GivenMore(returned, n - 1);
      BothSplit(GivenThieves(returned, n - 1), GivenThieves(front, n - 1), Some1(r.0.AThief? && r.0.k < n - 1, r.1),
                GivenBag(returned, who), GivenBag(front, who), Some1(r.0 == who, r.1));
    }
  }

  lemma {:induction false} NoneYet(n: nat)
    ensures Stolen([], n) == multiset{} && GivenThieves([], n) == multiset{}
  {
    if n > 0 {
      NoneYet(n - 1);
    }
  }

  /** All that was taken, by the owner and by thieves. */
  lemma {:induction false} TakenSplits(events: seq<Event>, n: nat)
    requires forall e :: e in events && e.Stole? ==> e.k < n
    ensures multiset(AllTaken(events)) == TakenBag(events, TheOwner) + Stolen(events, n)
  {
    if events == [] {
      NoneYet(n);
    } else {
      var front, e := events[..|events| - 1], events[|events| - 1];
      assert e in events && forall x :: x in front ==> x in events;
      TakenSplits(front, n);
      StolenMore(events, n);
      BothSplit(multiset(AllTaken(front)), TakenBag(front, TheOwner), Stolen(front, n),
                multiset(TookAny(e)), Some1(IsBy(e, TheOwner), EventTask(e)),
                Some1(e.Stole? && e.k < n, EventTask(e)));
    }
  }

  lemma {:induction false} ReturnedSplits(returned: seq<(Agent, Task)>, n: nat)
    requires forall r :: r in returned && r.0.AThief? ==> r.0.k < n
    ensures multiset(AllReturned(returned)) == GivenBag(returned, TheOwner) + GivenThieves(returned, n)
  {
    if returned == [] {
      NoneYet(n);
    } else {
      var front, r := returned[..|returned| - 1], returned[|returned| - 1];
      assert r in returned && forall x :: x in front ==> x in returned;
      ReturnedSplits(front, n);
      GivenMore(returned, n);
      BothSplit(multiset(AllReturned(front)), GivenBag(front, TheOwner), GivenThieves(front, n),
                multiset{r.1}, Some1(r.0 == TheOwner, r.1), Some1(r.0.AThief? && r.0.k < n, r.1));
    }
  }

  lemma AgentSplits(events: seq<Event>, returned: seq<(Agent, Task)>, who: Agent, held: seq<Task>)
    requires AgentOk(events, returned, who, held)
    ensures TakenBag(events, who) == GivenBag(returned, who) + multiset(held)
  {
    TakenBagIs(events, who);
    GivenBagIs(returned, who);
  }

  /** What thief k took is what it got back and what it holds. */
  ghost predicate ThiefBooks(s: State, k: nat)
  {
    TakenBag(s.events, AThief(k)) ==
      GivenBag(s.returned, AThief(k)) + Some1(Wins(s, k), if Wins(s, k) then TaskOf(s, s.thieves[k].p) else 0)
  }

  lemma ThiefSplits(s: State, k: nat)
    requires AgentOk(s.events, s.returned, AThief(k), Holding(s, AThief(k)))
    ensures ThiefBooks(s, k)
  {
    AgentSplits(s.events, s.returned, AThief(k), Holding(s, AThief(k)));
  }

  lemma {:induction false} ThievesSplit(s: State, n: nat)
    requires forall k: nat :: ThiefBooks(s, k)
    ensures Stolen(s.events, n) == GivenThieves(s.returned, n) + HeldThieves(s, n)
  {
    if n > 0 {
      ThievesSplit(s, n - 1);
      assert ThiefBooks(s, n - 1);
      BothSplit(Stolen(s.events, n - 1), GivenThieves(s.returned, n - 1), HeldThieves(s, n - 1),
                TakenBag(s.events, AThief(n - 1)), GivenBag(s.returned, AThief(n - 1)),
                Some1(Wins(s, n - 1), if Wins(s, n - 1) then TaskOf(s, s.thieves[n - 1].p) else 0));
    }
  }

  lemma TakenIsReturnedOrHeld(s: State)
    requires Linearized(s) && NamesOk(s)
    ensures multiset(AllTaken(s.events)) == multiset(AllReturned(s.returned)) + Held(s)
  {
    var n := |s.thieves|;
    TakenSplits(s.events, n);
    ReturnedSplits(s.returned, n);
    forall k: nat ensures ThiefBooks(s, k) {
      assert AgentOk(s.events, s.returned, AThief(k), Holding(s, AThief(k)));
      ThiefSplits(s, k);
    }
    ThievesSplit(s, n);
    assert AgentOk(s.events, s.returned, TheOwner, Holding(s, TheOwner));
    AgentSplits(s.events, s.returned, TheOwner, Holding(s, TheOwner));
    BothSplit(TakenBag(s.events, TheOwner), GivenBag(s.returned, TheOwner), multiset(Holding(s, TheOwner)),
              Stolen(s.events, n), GivenThieves(s.returned, n), HeldThieves(s, n));
  }

  /** The tasks pushBottom was called with are exactly those handed back, those held by
      a single winner, those live in [top, bottom), and the one being pushed. */
  lemma Conserved(s: State)
    requires Linearized(s) && NamesOk(s)
    ensures multiset(s.calls) == multiset(AllReturned(s.returned)) + Held(s) + multiset(Abs(s)) + multiset(Pushing(s))
  {
    ReplayConserves(s.events);
    TakenIsReturnedOrHeld(s);
  }

  lemma {:induction false} NamesEveryRun(logSize: nat, thieves: nat, acts: seq<Action>)
    requires Run(Init(logSize, thieves), acts).Some?
    ensures var s := Run(Init(logSize, thieves), acts).value; NamesOk(s) && |s.thieves| == thieves
  {
    if acts != [] {
      var front, a := acts[..|acts| - 1], acts[|acts| - 1];
      NamesEveryRun(logSize, thieves, front);
      StepNames(Run(Init(logSize, thieves), front).value, a);
    }
  }

  /** The main theorem: in every run of any length, with any number of thieves and any
      interleaving, no operation dereferences nil, the history is a legal history of a
      sequential deque that ends in the contents, each agent gets back exactly what its
      own operations took and in that order, and no task is lost or duplicated. */
  lemma EveryRun(logSize: nat, thieves: nat, acts: seq<Action>)
    requires Run(Init(logSize, thieves), acts).Some?
    ensures var s := Run(Init(logSize, thieves), acts).value;
      && !s.crashed && |s.thieves| == thieves && NamesOk(s)
      && Replay(s.events) == Some(Abs(s))
      && (forall who :: TakenBy(s.events, who) == GivenTo(s.returned, who) + Holding(s, who))
      && multiset(s.calls) == multiset(AllReturned(s.returned)) + Held(s) + multiset(Abs(s)) + multiset(Pushing(s))
  {
    RunsAreLinearizable(logSize, thieves, acts);
    NamesEveryRun(logSize, thieves, acts);
    var s := Run(Init(logSize, thieves), acts).value;
    Conserved(s);
    forall who ensures TakenBy(s.events, who) == GivenTo(s.returned, who) + Holding(s, who) {
      assert AgentOk(s.events, s.returned, who, Holding(s, who));
    }
  }
}
