/**
 * What a promise queue owes its callers, told from the events alone, and the queue as a
 * machine on values. Entries are numbered in the order they are added; a generation is
 * what lies between two clears.
 */
module Promises {
  import opened Wrappers

  /** `Settle(e)`: the promise of entry `e` is settled and its handler runs. */
  datatype Event<T> = Add(promise: T) | Settle(entry: nat) | Clear(value: T)

  // ---------- What is owed ----------

  datatype History<T> = History(own: seq<T>, generation: seq<nat>, cleared: seq<T>, settled: set<nat>)

  function Past<T>(trace: seq<Event<T>>): (h: History<T>)
    ensures |h.own| == |h.generation|
  {
    if trace == [] then History([], [], [], {})
    else
      var h := Past(trace[..|trace| - 1]);
      match trace[|trace| - 1]
      case Add(promise) => h.(own := h.own + [promise], generation := h.generation + [|h.cleared|])
      case Settle(entry) => h.(settled := h.settled + {entry})
      case Clear(value) => h.(cleared := h.cleared + [value])
  }

  /** Promises settle at most once, and only after they were added. */
  predicate Legal<T>(trace: seq<Event<T>>) {
    trace != [] ==>
      var before, event := trace[..|trace| - 1], trace[|trace| - 1];
      && Legal(before)
      && (event.Settle? ==> event.entry < |Past(before).own| && event.entry !in Past(before).settled)
  }

  /** Everything of the entry's generation up to the entry itself is settled. */
  predicate Due<T>(h: History<T>, e: nat)
    requires e < |h.own| == |h.generation|
  {
    forall d: nat :: d <= e && h.generation[d] == h.generation[e] ==> d in h.settled
  }

  /** The clear's value once the generation is cleared, before that the promise itself. */
  function Worth<T>(h: History<T>, e: nat): T
    requires e < |h.own| == |h.generation|
  {
    if h.generation[e] < |h.cleared| then h.cleared[h.generation[e]] else h.own[e]
  }

  /** An entry's outer promise is resolved when the entry first is due, with its worth then. */
  function Owed<T>(trace: seq<Event<T>>, e: nat): Option<T>
    requires e < |Past(trace).own|
  {
    if trace == [] then None
    else
      var before := trace[..|trace| - 1];
      if e < |Past(before).own| && Owed(before, e).Some? then Owed(before, e)
      else if Due(Past(trace), e) then Some(Worth(Past(trace), e))
      else None
  }

  // ---------- The machine ----------

  /** `outcomes` are the calls of the outer promise's `resolve`, of which only the first has effect. */
  datatype Slot<T> = Slot(value: T, queue: nat, resolved: bool, outcomes: seq<T>)

  /** The last queue is the live one; `log` lists the entries in the order of the calls of `resolve`. */
  datatype State<T> = State(slots: seq<Slot<T>>, queues: seq<seq<nat>>, log: seq<nat>)
  {
    ghost predicate WellFormed() {
      && (forall e :: 0 <= e < |slots| ==> slots[e].queue < |queues|)
      && (forall g, k :: 0 <= g < |queues| && 0 <= k < |queues[g]| ==> queues[g][k] < |slots|)
    }
  }

  function Resolve<T>(s: State<T>, e: nat): State<T>
    requires e < |s.slots|
  {
    s.(slots := s.slots[e := s.slots[e].(outcomes := s.slots[e].outcomes + [s.slots[e].value])], log := s.log + [e])
  }

  function Shift<T>(s: State<T>, g: nat): State<T>
    requires g < |s.queues| && s.queues[g] != []
  {
    s.(queues := s.queues[g := s.queues[g][1..]])
  }

  function Mark<T>(s: State<T>, e: nat): State<T>
    requires e < |s.slots|
  {
    s.(slots := s.slots[e := s.slots[e].(resolved := true)])
  }

  /** Shifts off the head of a queue and resolves it. */
  function ResolveHead<T>(s: State<T>, g: nat): (t: State<T>)
    requires s.WellFormed() && g < |s.queues| && s.queues[g] != []
    ensures t.WellFormed() && |t.queues| == |s.queues| && |t.queues[g]| == |s.queues[g]| - 1
  {
    Resolve(Shift(s, g), s.queues[g][0])
  }

  /** Resolves from the front of a queue while the front is marked. */
  function Chain<T>(s: State<T>, g: nat): (t: State<T>)
    requires s.WellFormed() && g < |s.queues|
    ensures t.WellFormed() && |t.slots| == |s.slots| && |t.queues| == |s.queues|
    decreases |s.queues[g]|
  {
    if s.queues[g] != [] && s.slots[s.queues[g][0]].resolved then Chain(ResolveHead(s, g), g) else s
  }

  function TryResolve<T>(s: State<T>, e: nat): (t: State<T>)
    requires s.WellFormed() && e < |s.slots|
    ensures t.WellFormed() && |t.slots| == |s.slots| && |t.queues| == |s.queues|
  {
    var g := s.slots[e].queue;
    if s.queues[g] != [] && s.queues[g][0] == e then Chain(ResolveHead(s, g), g) else Mark(s, e)
  }

  function Added<T>(s: State<T>, promise: T): State<T>
    requires s.queues != []
  {
    var live := |s.queues| - 1;
    State(s.slots + [Slot(promise, live, false, [])], s.queues[live := s.queues[live] + [|s.slots|]], s.log)
  }

  function CancelledSlot<T>(slot: Slot<T>, value: T, waiting: bool): Slot<T> {
    if waiting then slot.(value := value) else slot
  }

  function Cleared<T>(s: State<T>, value: T): (t: State<T>)
    requires s.queues != []
    ensures s.WellFormed() ==> t.WellFormed()
  {
    var live := s.queues[|s.queues| - 1];
    State(seq(|s.slots|, e requires 0 <= e < |s.slots| => CancelledSlot(s.slots[e], value, e in live)),
          s.queues + [[]], s.log)
  }

  /** The state holds what the events ask for. */
  ghost predicate Holds<T>(s: State<T>, trace: seq<Event<T>>) {
    var h := Past(trace);
    && |s.slots| == |h.own| && |s.queues| == |h.cleared| + 1
    && (forall e :: 0 <= e < |h.own| ==> HoldsSlot(s.slots[e], trace, e))
    && (forall g :: 0 <= g < |s.queues| ==> HoldsQueue(s.queues[g], h, g))
  }

  ghost predicate HoldsSlot<T>(slot: Slot<T>, trace: seq<Event<T>>, e: nat)
    requires e < |Past(trace).own|
  {
    var h := Past(trace);
    && slot.queue == h.generation[e] <= |h.cleared|
    && slot.outcomes == (match Owed(trace, e) case None => [] case Some(v) => [v])
    && (Owed(trace, e).Some? <==> Due(h, e))
    && (!Due(h, e) ==> slot.value == Worth(h, e) && slot.resolved == (e in h.settled))
  }

  predicate Increasing(queue: seq<nat>) {
    forall i, j :: 0 <= i < j < |queue| ==> queue[i] < queue[j]
  }

  /** A queue holds, in order, the entries of its generation that are not due. */
  ghost predicate HoldsQueue<T>(queue: seq<nat>, h: History<T>, g: nat)
    requires |h.own| == |h.generation|
  {
    && Increasing(queue)
    && (forall e: nat :: e in queue <==> e < |h.own| && h.generation[e] == g && !Due(h, e))
  }

  // ---------- The machine holds what is owed ----------

  lemma PastNext<T>(trace: seq<Event<T>>, event: Event<T>)
    ensures Past(trace + [event])
            == match event
               case Add(promise) =>
                 Past(trace).(own := Past(trace).own + [promise],
                              generation := Past(trace).generation + [|Past(trace).cleared|])
               case Settle(entry) => Past(trace).(settled := Past(trace).settled + {entry})
               case Clear(value) => Past(trace).(cleared := Past(trace).cleared + [value])
    ensures Legal(trace + [event])
            <==> Legal(trace)
                 && (event.Settle? ==> event.entry < |Past(trace).own| && event.entry !in Past(trace).settled)
  {
    assert (trace + [event])[..|trace|] == trace;
  }

  lemma OwedNext<T>(trace: seq<Event<T>>, event: Event<T>, e: nat)
    requires e < |Past(trace + [event]).own|
    ensures Owed(trace + [event], e)
            == if e < |Past(trace).own| && Owed(trace, e).Some? then Owed(trace, e)
               else if Due(Past(trace + [event]), e) then Some(Worth(Past(trace + [event]), e))
               else None
  {
    assert (trace + [event])[..|trace|] == trace;
  }

  /** Nothing settled waits at the front. */
  lemma HeadUnsettled<T>(queue: seq<nat>, h: History<T>, g: nat)
    requires |h.own| == |h.generation| && HoldsQueue(queue, h, g) && queue != []
    ensures queue[0] !in h.settled
  {
    var head := queue[0];
    assert head in queue;
    var d: nat :| d <= head && h.generation[d] == g && d !in h.settled;
    assert !Due(h, d) && d in queue;
  }

  // Adding

  lemma AddKeepsDue<T>(h: History<T>, promise: T, e: nat)
    requires |h.own| == |h.generation|
    requires e < |h.own|
    ensures var next := h.(own := h.own + [promise], generation := h.generation + [|h.cleared|]);
            (Due(next, e) <==> Due(h, e)) && Worth(next, e) == Worth(h, e)
  {
    var next := h.(own := h.own + [promise], generation := h.generation + [|h.cleared|]);
    assert forall d: nat :: d <= e ==> next.generation[d] == h.generation[d];
  }

  lemma AddHoldsQueue<T>(queue: seq<nat>, h: History<T>, promise: T, g: nat)
    requires |h.own| == |h.generation| && HoldsQueue(queue, h, g) && SettledExist(h)
    ensures HoldsQueue(if g == |h.cleared| then queue + [|h.own|] else queue,
                       h.(own := h.own + [promise], generation := h.generation + [|h.cleared|]), g)
  {
    var id := |h.own|;
    var next := h.(own := h.own + [promise], generation := h.generation + [|h.cleared|]);
    var grown := if g == |h.cleared| then queue + [id] else queue;
    assert id !in next.settled;
    NotDueBehind(next, id, id);
    forall e: nat
      ensures e in grown <==> e < |next.own| && next.generation[e] == g && !Due(next, e)
    {
      InSnoc(queue, id, e);
      if e < id { AddKeepsDue(h, promise, e); }
    }
    SortedSnoc(queue, id);
  }

  lemma InSnoc(queue: seq<nat>, id: nat, e: nat)
    ensures e in queue + [id] <==> e in queue || e == id
  {
  }

  lemma SortedSnoc(queue: seq<nat>, id: nat)
    requires Increasing(queue) && forall e <- queue :: e < id
    ensures Increasing(queue + [id])
  {
    assert forall i :: 0 <= i < |queue| ==> queue[i] in queue;
  }

  lemma AddHolds<T>(s: State<T>, trace: seq<Event<T>>, promise: T)
    requires Holds(s, trace) && SettledExist(Past(trace))
    ensures Holds(Added(s, promise), trace + [Add(promise)])
  {
    var event, h, next, t := Add(promise), Past(trace), Past(trace + [Add(promise)]), Added(s, promise);
    PastNext(trace, event);
    var id := |h.own|;
    assert id !in next.settled;
    NotDueBehind(next, id, id);
    forall e: nat | e < |next.own|
      ensures HoldsSlot(t.slots[e], trace + [event], e)
    {
      OwedNext(trace, event, e);
      if e < id {
        AddKeepsDue(h, promise, e);
        assert HoldsSlot(s.slots[e], trace, e);
      }
    }
    forall g | 0 <= g < |t.queues|
      ensures HoldsQueue(t.queues[g], next, g)
    {
      AddHoldsQueue(s.queues[g], h, promise, g);
    }
  }

  /** Only entries that exist are settled. */
  ghost predicate SettledExist<T>(h: History<T>) {
    forall e <- h.settled :: e < |h.own|
  }

  lemma {:induction false} LegalSettled<T>(trace: seq<Event<T>>)
    requires Legal(trace)
    ensures SettledExist(Past(trace))
    ensures forall e :: 0 <= e < |Past(trace).own| ==> Past(trace).generation[e] <= |Past(trace).cleared|
  {
    if trace != [] {
      LegalSettled(trace[..|trace| - 1]);
    }
  }

  // Clearing

  lemma ClearKeepsDue<T>(h: History<T>, value: T, e: nat)
    requires e < |h.own| == |h.generation|
    ensures Due(h.(cleared := h.cleared + [value]), e) <==> Due(h, e)
  {
  }

  lemma ClearWorth<T>(h: History<T>, value: T, e: nat)
    requires e < |h.own| == |h.generation| && h.generation[e] <= |h.cleared|
    ensures Worth(h.(cleared := h.cleared + [value]), e)
            == if h.generation[e] == |h.cleared| then value else Worth(h, e)
  {
  }

  lemma ClearHoldsSlot<T>(s: State<T>, trace: seq<Event<T>>, value: T, e: nat)
    requires Holds(s, trace) && e < |s.slots|
    ensures e < |Past(trace + [Clear(value)]).own| && HoldsSlot(Cleared(s, value).slots[e], trace + [Clear(value)], e)
  {
    var h := Past(trace);
    PastNext(trace, Clear(value));
    ClearResolvesNothing(trace, value, e);
    ClearKeepsDue(h, value, e);
    assert HoldsSlot(s.slots[e], trace, e);
    assert HoldsQueue(s.queues[|h.cleared|], h, |h.cleared|);
    assert e in s.queues[|h.cleared|] <==> h.generation[e] == |h.cleared| && !Due(h, e);
    ClearWorth(h, value, e);
  }

  lemma ClearHolds<T>(s: State<T>, trace: seq<Event<T>>, value: T)
    requires Holds(s, trace)
    ensures Holds(Cleared(s, value), trace + [Clear(value)])
  {
    var next, t := Past(trace + [Clear(value)]), Cleared(s, value);
    PastNext(trace, Clear(value));
    forall e: nat | e < |next.own|
      ensures HoldsSlot(t.slots[e], trace + [Clear(value)], e)
    {
      ClearHoldsSlot(s, trace, value, e);
    }
    forall g | 0 <= g < |t.queues|
      ensures HoldsQueue(t.queues[g], next, g)
    {
      ClearHoldsQueue(s, trace, value, g);
    }
  }

  lemma ClearHoldsQueue<T>(s: State<T>, trace: seq<Event<T>>, value: T, g: nat)
    requires Holds(s, trace) && g <= |s.queues|
    ensures var h := Past(trace);
            HoldsQueue(if g < |s.queues| then s.queues[g] else [], h.(cleared := h.cleared + [value]), g)
  {
    var h := Past(trace);
    var next := h.(cleared := h.cleared + [value]);
    forall e: nat | e < |h.own|
      ensures (Due(next, e) <==> Due(h, e)) && h.generation[e] <= |h.cleared|
    {
      ClearKeepsDue(h, value, e);
      assert HoldsSlot(s.slots[e], trace, e);
    }
    if g < |s.queues| { assert HoldsQueue(s.queues[g], h, g); }
  }

  // Settling

  lemma SettleKeepsDue<T>(h: History<T>, e: nat, x: nat)
    requires x < |h.own| == |h.generation| && e < |h.own|
    ensures var next := h.(settled := h.settled + {e});
            && Worth(next, x) == Worth(h, x)
            && (Due(h, x) ==> Due(next, x))
            && (x < e || h.generation[x] != h.generation[e] ==> (Due(next, x) <==> Due(h, x)))
  {
  }

  /** Behind something unsettled of the same generation nothing is due. */
  lemma NotDueBehind<T>(h: History<T>, d: nat, x: nat)
    requires d <= x < |h.own| == |h.generation|
    requires h.generation[d] == h.generation[x] && d !in h.settled
    ensures !Due(h, x)
  {
  }

  /** Settling anything but the head of its queue makes nothing due. */
  lemma NothingBecomesDue<T>(queue: seq<nat>, h: History<T>, e: nat, x: nat)
    requires e < |h.own| == |h.generation| && e !in h.settled
    requires HoldsQueue(queue, h, h.generation[e]) && (queue == [] || queue[0] != e)
    requires x < |h.own|
    ensures var next := h.(settled := h.settled + {e});
            (Due(next, x) <==> Due(h, x)) && Worth(next, x) == Worth(h, x)
  {
    NotDueBehind(h, e, e);
    assert e in queue;
    var head := queue[0];
    HeadUnsettled(queue, h, h.generation[e]);
    assert head in queue && head < e;
    SettleKeepsDue(h, e, x);
    if x >= e && h.generation[x] == h.generation[e] { NotDueBehind(h.(settled := h.settled + {e}), head, x); }
  }

  lemma MarkHoldsSlot<T>(s: State<T>, trace: seq<Event<T>>, e: nat, x: nat)
    requires Holds(s, trace) && s.WellFormed() && e < |s.slots| && e !in Past(trace).settled
    requires s.queues[s.slots[e].queue] == [] || s.queues[s.slots[e].queue][0] != e
    requires x < |s.slots|
    ensures x < |Past(trace + [Settle(e)]).own| && HoldsSlot(Mark(s, e).slots[x], trace + [Settle(e)], x)
    ensures Due(Past(trace + [Settle(e)]), x) <==> Due(Past(trace), x)
  {
    PastNext(trace, Settle(e));
    assert HoldsSlot(s.slots[e], trace, e);
    assert HoldsSlot(s.slots[x], trace, x);
    NothingBecomesDue(s.queues[Past(trace).generation[e]], Past(trace), e, x);
    OwedNext(trace, Settle(e), x);
  }

  lemma MarkHolds<T>(s: State<T>, trace: seq<Event<T>>, e: nat)
    requires Holds(s, trace) && s.WellFormed() && e < |s.slots| && e !in Past(trace).settled
    requires s.queues[s.slots[e].queue] == [] || s.queues[s.slots[e].queue][0] != e
    ensures Holds(Mark(s, e), trace + [Settle(e)])
  {
    var h, next, t := Past(trace), Past(trace + [Settle(e)]), Mark(s, e);
    PastNext(trace, Settle(e));
    forall x: nat | x < |h.own|
      ensures HoldsSlot(t.slots[x], trace + [Settle(e)], x)
      ensures Due(next, x) <==> Due(h, x)
    {
      MarkHoldsSlot(s, trace, e, x);
    }
    forall i | 0 <= i < |t.queues|
      ensures HoldsQueue(t.queues[i], next, i)
    {
      SameDue(s.queues[i], h, next, i);
    }
  }

  lemma SameDue<T>(queue: seq<nat>, h: History<T>, next: History<T>, g: nat)
    requires |h.own| == |h.generation| && HoldsQueue(queue, h, g)
    requires next.own == h.own && next.generation == h.generation
    requires forall x: nat :: x < |h.own| ==> (Due(next, x) <==> Due(h, x))
    ensures HoldsQueue(queue, next, g)
  {
  }

  /** In the middle of a chain: the front of queue `g` may be due. */
  ghost predicate Chaining<T>(s: State<T>, trace: seq<Event<T>>, g: nat) {
    var h := Past(trace);
    && |s.slots| == |h.own| && |s.queues| == |h.cleared| + 1 && g < |s.queues|
    && (forall x :: 0 <= x < |h.own| ==> h.generation[x] <= |h.cleared|)
    && (forall x :: 0 <= x < |h.own| ==> ChainingSlot(s.slots[x], trace, x, x in s.queues[h.generation[x]]))
    && (forall i :: 0 <= i < |s.queues| && i != g ==> HoldsQueue(s.queues[i], h, i))
    && Increasing(s.queues[g])
    && (forall x <- s.queues[g] :: x < |h.own| && h.generation[x] == g)
  }

  ghost predicate ChainingSlot<T>(slot: Slot<T>, trace: seq<Event<T>>, x: nat, waiting: bool)
    requires x < |Past(trace).own|
  {
    var h := Past(trace);
    && slot.queue == h.generation[x]
    && (Owed(trace, x).Some? <==> Due(h, x))
    && (waiting ==> slot.outcomes == [] && slot.value == Worth(h, x) && slot.resolved == (x in h.settled))
    && (waiting && Due(h, x) ==> Owed(trace, x) == Some(Worth(h, x)))
    && (!waiting ==> Due(h, x) && slot.outcomes == [Owed(trace, x).value])
  }

  lemma ChainStartsSlot<T>(s: State<T>, trace: seq<Event<T>>, e: nat, g: nat, x: nat)
    requires Holds(s, trace) && s.WellFormed() && e < |s.slots| && x < |s.slots|
    requires g == s.slots[e].queue && s.queues[g] != [] && s.queues[g][0] == e && e !in Past(trace).settled
    ensures x < |Past(trace + [Settle(e)]).own| && Past(trace).generation[x] < |s.queues|
    ensures ChainingSlot(ResolveHead(s, g).slots[x], trace + [Settle(e)], x,
                         x in s.queues[Past(trace).generation[x]] && x != e)
  {
    var h := Past(trace);
    PastNext(trace, Settle(e));
    assert HoldsSlot(s.slots[e], trace, e);
    assert HoldsSlot(s.slots[x], trace, x);
    OwedNext(trace, Settle(e), x);
    SettleKeepsDue(h, e, x);
    assert HoldsQueue(s.queues[h.generation[x]], h, h.generation[x]);
    HeadDue(s.queues[g], h, g);
  }

  lemma OtherQueuesHold<T>(queue: seq<nat>, h: History<T>, e: nat, i: nat)
    requires e < |h.own| == |h.generation| && HoldsQueue(queue, h, i) && h.generation[e] != i
    ensures HoldsQueue(queue, h.(settled := h.settled + {e}), i)
  {
    forall x: nat | x < |h.own| && h.generation[x] == i
      ensures Due(h.(settled := h.settled + {e}), x) <==> Due(h, x)
    {
      SettleKeepsDue(h, e, x);
    }
  }

  lemma RestOf(queue: seq<nat>, x: nat)
    requires Increasing(queue) && queue != []
    ensures Increasing(queue[1..])
    ensures x in queue[1..] <==> x in queue && x != queue[0]
  {
    assert queue == [queue[0]] + queue[1..];
  }

  lemma ChainStarts<T>(s: State<T>, trace: seq<Event<T>>, e: nat, g: nat)
    requires Holds(s, trace) && s.WellFormed() && e < |s.slots| && e !in Past(trace).settled
    requires g == s.slots[e].queue && s.queues[g] != [] && s.queues[g][0] == e
    ensures Chaining(ResolveHead(s, g), trace + [Settle(e)], g)
  {
    var h, next, t := Past(trace), Past(trace + [Settle(e)]), ResolveHead(s, g);
    PastNext(trace, Settle(e));
    assert HoldsSlot(s.slots[e], trace, e);
    assert HoldsQueue(s.queues[g], h, g);
    forall x: nat | x < |next.own|
      ensures next.generation[x] <= |next.cleared|
      ensures ChainingSlot(t.slots[x], trace + [Settle(e)], x, x in t.queues[next.generation[x]])
    {
      ChainStartsSlot(s, trace, e, g, x);
      RestOf(s.queues[g], x);
    }
    forall i | 0 <= i < |t.queues| && i != g
      ensures HoldsQueue(t.queues[i], next, i)
    {
      OtherQueuesHold(s.queues[i], h, e, i);
    }
    RestOf(s.queues[g], e);
  }

  /** Settling the head makes it due. */
  lemma HeadDue<T>(queue: seq<nat>, h: History<T>, g: nat)
    requires |h.own| == |h.generation| && HoldsQueue(queue, h, g) && queue != [] && queue[0] < |h.own|
    ensures h.generation[queue[0]] == g && Due(h.(settled := h.settled + {queue[0]}), queue[0])
  {
    var head := queue[0];
    assert head in queue;
    forall d: nat | d < head && h.generation[d] == g
      ensures d in h.settled
    {
      assert d !in queue;
      assert Due(h, d);
    }
  }

  lemma ChainGoesOn<T>(s: State<T>, trace: seq<Event<T>>, g: nat)
    requires s.WellFormed() && Chaining(s, trace, g)
    requires s.queues[g] != [] && s.slots[s.queues[g][0]].resolved
    ensures Chaining(ResolveHead(s, g), trace, g)
  {
    var h, t := Past(trace), ResolveHead(s, g);
    MarkedHeadDue(s, trace, g);
    forall x: nat | x < |h.own|
      ensures ChainingSlot(t.slots[x], trace, x, x in t.queues[h.generation[x]])
    {
      RestOf(s.queues[g], x);
      ResolvedSlot(s, trace, g, x);
    }
    RestOf(s.queues[g], s.queues[g][0]);
  }

  lemma ResolvedSlot<T>(s: State<T>, trace: seq<Event<T>>, g: nat, x: nat)
    requires s.WellFormed() && Chaining(s, trace, g)
    requires s.queues[g] != [] && s.queues[g][0] < |Past(trace).own| && Due(Past(trace), s.queues[g][0])
    requires x < |Past(trace).own|
    ensures Past(trace).generation[x] < |s.queues|
    ensures ChainingSlot(ResolveHead(s, g).slots[x], trace, x,
                         x in s.queues[Past(trace).generation[x]] && x != s.queues[g][0])
  {
    var h, head := Past(trace), s.queues[g][0];
    assert head in s.queues[g];
    assert ChainingSlot(s.slots[x], trace, x, x in s.queues[h.generation[x]]);
  }

  /** A marked head is due: everything of its generation before it has left the queue. */
  lemma MarkedHeadDue<T>(s: State<T>, trace: seq<Event<T>>, g: nat)
    requires s.WellFormed() && Chaining(s, trace, g)
    requires s.queues[g] != [] && s.slots[s.queues[g][0]].resolved
    ensures s.queues[g][0] < |Past(trace).own| && Due(Past(trace), s.queues[g][0])
  {
    var h, queue := Past(trace), s.queues[g];
    var head := queue[0];
    assert head in queue;
    assert ChainingSlot(s.slots[head], trace, head, true);
    forall d: nat | d <= head && h.generation[d] == g
      ensures d in h.settled
    {
      if d < head {
        assert d !in queue;
        assert ChainingSlot(s.slots[d], trace, d, false);
      }
    }
  }

  lemma ChainEnds<T>(s: State<T>, trace: seq<Event<T>>, g: nat)
    requires s.WellFormed() && Chaining(s, trace, g)
    requires s.queues[g] == [] || !s.slots[s.queues[g][0]].resolved
    ensures Holds(s, trace)
  {
    var h, queue := Past(trace), s.queues[g];
    forall x: nat | x < |h.own| && h.generation[x] == g
      ensures x in queue <==> !Due(h, x)
    {
      assert ChainingSlot(s.slots[x], trace, x, x in queue);
      if x in queue {
        var head := queue[0];
        assert head in queue;
        assert ChainingSlot(s.slots[head], trace, head, true);
        NotDueBehind(h, head, x);
      }
    }
    assert HoldsQueue(queue, h, g);
    forall x: nat | x < |h.own|
      ensures HoldsSlot(s.slots[x], trace, x)
    {
      var i := h.generation[x];
      assert ChainingSlot(s.slots[x], trace, x, x in s.queues[i]);
      assert HoldsQueue(s.queues[i], h, i);
    }
  }

  lemma {:induction false} ChainHolds<T>(s: State<T>, trace: seq<Event<T>>, g: nat)
    requires s.WellFormed() && Chaining(s, trace, g)
    ensures Holds(Chain(s, g), trace)
    decreases |s.queues[g]|
  {
    if s.queues[g] != [] && s.slots[s.queues[g][0]].resolved {
      ChainGoesOn(s, trace, g);
      ChainHolds(ResolveHead(s, g), trace, g);
    } else {
      ChainEnds(s, trace, g);
    }
  }

  lemma SettleHolds<T>(s: State<T>, trace: seq<Event<T>>, e: nat)
    requires Holds(s, trace) && s.WellFormed() && e < |s.slots| && e !in Past(trace).settled
    ensures Holds(TryResolve(s, e), trace + [Settle(e)])
  {
    var g := s.slots[e].queue;
    if s.queues[g] != [] && s.queues[g][0] == e {
      ChainStarts(s, trace, e, g);
      ChainHolds(ResolveHead(s, g), trace + [Settle(e)], g);
    } else {
      MarkHolds(s, trace, e);
    }
  }

  // ---------- What the machine does, over every run ----------

  function Step<T>(s: State<T>, event: Event<T>): (t: State<T>)
    requires s.WellFormed() && s.queues != [] && (event.Settle? ==> event.entry < |s.slots|)
    ensures t.WellFormed() && t.queues != [] && |t.slots| == |s.slots| + if event.Add? then 1 else 0
  {
    match event
    case Add(promise) => Added(s, promise)
    case Settle(entry) => TryResolve(s, entry)
    case Clear(value) => Cleared(s, value)
  }

  function Start<T>(): State<T> {
    State([], [[]], [])
  }

  /** The state after the events, if they are legal. */
  ghost function Run<T>(trace: seq<Event<T>>): (s: Option<State<T>>)
    ensures s.Some? ==> s.value.WellFormed() && s.value.queues != [] && |s.value.slots| == |Past(trace).own|
  {
    if !Legal(trace) then None
    else if trace == [] then Some(Start())
    else
      match Run(trace[..|trace| - 1])
      case None => None
      case Some(s) => Some(Step(s, trace[|trace| - 1]))
  }

  /** An entry without an outcome is in its queue; the live queue holds only its own. */
  ghost predicate Tidy<T>(s: State<T>) {
    s.queues != [] &&
    forall e :: 0 <= e < |s.slots| ==>
      && s.slots[e].queue < |s.queues|
      && (s.slots[e].outcomes == [] ==> e in s.queues[s.slots[e].queue])
      && (e in s.queues[|s.queues| - 1] ==> s.slots[e].queue == |s.queues| - 1)
  }

  lemma RunTidy<T>(trace: seq<Event<T>>)
    requires Run(trace).Some?
    ensures Tidy(Run(trace).value)
    ensures forall e: nat :: e < |Past(trace).own| && e !in Past(trace).settled ==>
              Run(trace).value.slots[e].outcomes == []
  {
    RunHolds(trace);
    var s, h := Run(trace).value, Past(trace);
    forall e: nat | e < |h.own|
      ensures s.slots[e].queue < |s.queues| && (s.slots[e].outcomes == [] ==> e in s.queues[s.slots[e].queue])
      ensures e in s.queues[|s.queues| - 1] ==> s.slots[e].queue == |s.queues| - 1
      ensures e !in h.settled ==> s.slots[e].outcomes == []
    {
      assert HoldsSlot(s.slots[e], trace, e);
      assert HoldsQueue(s.queues[s.slots[e].queue], h, s.slots[e].queue);
      assert HoldsQueue(s.queues[|s.queues| - 1], h, |s.queues| - 1);
      if e !in h.settled { NotDueBehind(h, e, e); }
    }
  }

  lemma RunUnsettled<T>(trace: seq<Event<T>>, e: nat)
    requires Run(trace).Some? && e < |Past(trace).own| && e !in Past(trace).settled
    ensures Run(trace).value.slots[e].outcomes == [] && Run(trace).value.slots[e].queue < |Run(trace).value.queues|
  {
    RunTidy(trace);
  }

  lemma RunNext<T>(trace: seq<Event<T>>, event: Event<T>)
    requires Run(trace).Some?
    requires event.Settle? ==> event.entry < |Past(trace).own| && event.entry !in Past(trace).settled
    ensures Run(trace + [event]) == Some(Step(Run(trace).value, event))
  {
    PastNext(trace, event);
    assert (trace + [event])[..|trace|] == trace;
  }

  /** Over every run, the machine holds exactly what is owed. */
  lemma {:induction false} RunHolds<T>(trace: seq<Event<T>>)
    requires Legal(trace)
    ensures Run(trace).Some? && Holds(Run(trace).value, trace)
  {
    if trace != [] {
      var before, event := trace[..|trace| - 1], trace[|trace| - 1];
      assert trace == before + [event];
      RunHolds(before);
      PastNext(before, event);
      RunNext(before, event);
      StepHolds(Run(before).value, before, event);
    }
  }

  lemma StepHolds<T>(s: State<T>, trace: seq<Event<T>>, event: Event<T>)
    requires s.WellFormed() && Holds(s, trace) && Legal(trace + [event])
    ensures s.queues != [] && (event.Settle? ==> event.entry < |s.slots|)
    ensures Holds(Step(s, event), trace + [event])
  {
    PastNext(trace, event);
    match event
    case Add(promise) =>
      LegalSettled(trace);
      AddHolds(s, trace, promise);
    case Settle(entry) => SettleHolds(s, trace, entry);
    case Clear(value) => ClearHolds(s, trace, value);
  }

  /** Everything of a generation has its outcome. */
  ghost predicate AllResolved<T>(trace: seq<Event<T>>, g: nat) {
    forall e: nat :: e < |Past(trace).own| && Past(trace).generation[e] == g ==> Owed(trace, e).Some?
  }

  /** A queue is empty if and only if everything of its generation has its outcome. */
  lemma EmptyIff<T>(trace: seq<Event<T>>, g: nat)
    requires Run(trace).Some? && g < |Run(trace).value.queues|
    ensures |Run(trace).value.queues| == |Past(trace).cleared| + 1
    ensures Run(trace).value.queues[g] == [] <==> AllResolved(trace, g)
  {
    RunHolds(trace);
    var s, h := Run(trace).value, Past(trace);
    var queue := s.queues[g];
    assert HoldsQueue(queue, h, g);
    if queue != [] {
      assert queue[0] in queue;
      assert HoldsSlot(s.slots[queue[0]], trace, queue[0]);
    }
    forall e: nat | e < |h.own| && h.generation[e] == g && Owed(trace, e).None?
      ensures e in queue
    {
      assert HoldsSlot(s.slots[e], trace, e);
    }
  }

  lemma AfterSettle<T>(trace: seq<Event<T>>, s: State<T>, e: nat)
    requires Run(trace) == Some(s) && e < |s.slots| && e !in Past(trace).settled
    ensures s.slots[e].queue < |s.queues|
    ensures var t, g := TryResolve(s, e), s.slots[e].queue;
            && Past(trace + [Settle(e)]).own == Past(trace).own && g == Past(trace + [Settle(e)]).generation[e]
            && (AllResolved(trace + [Settle(e)], g) <==> s.queues[g] != [] && s.queues[g][0] == e && t.queues[g] == [])
  {
    RunUnsettled(trace, e);
    RunTidy(trace);
    RunHolds(trace);
    assert HoldsSlot(s.slots[e], trace, e);
    PastNext(trace, Settle(e));
    RunNext(trace, Settle(e));
    EmptyIff(trace + [Settle(e)], s.slots[e].queue);
  }

  /** Exactly the longest settled prefix of each generation has its outcome. */
  lemma {:induction false} OwedIffDue<T>(trace: seq<Event<T>>, e: nat)
    requires e < |Past(trace).own|
    ensures Owed(trace, e).Some? <==> Due(Past(trace), e)
  {
    if trace != [] {
      var before := trace[..|trace| - 1];
      if e < |Past(before).own| && Owed(before, e).Some? {
        OwedIffDue(before, e);
        DueStays(before, trace[|trace| - 1], e);
        assert before + [trace[|trace| - 1]] == trace;
      }
    }
  }

  // ---------- The order of the calls of `resolve` ----------

  /** Within a queue the calls so far went up, and what waits comes after them, going up as well. */
  ghost predicate InOrder<T>(s: State<T>) {
    && (forall k :: 0 <= k < |s.log| ==> s.log[k] < |s.slots|)
    && (forall j, k :: 0 <= j < k < |s.log| && s.slots[s.log[j]].queue == s.slots[s.log[k]].queue
          ==> s.log[j] < s.log[k])
    && (forall g :: 0 <= g < |s.queues| ==> Increasing(s.queues[g]))
    && (forall g, i :: 0 <= g < |s.queues| && 0 <= i < |s.queues[g]| ==> WaitsIn(s, g, s.queues[g][i]))
  }

  ghost predicate WaitsIn<T>(s: State<T>, g: nat, e: nat) {
    && e < |s.slots| && s.slots[e].queue == g
    && forall k :: 0 <= k < |s.log| && s.log[k] < |s.slots| && s.slots[s.log[k]].queue == g ==> s.log[k] < e
  }

  /** The log holds every call. */
  ghost predicate Counted<T>(s: State<T>) {
    forall e: nat :: e < |s.slots| ==> multiset(s.log)[e] == |s.slots[e].outcomes|
  }

  lemma HeadKeepsOrder<T>(s: State<T>, g: nat)
    requires s.WellFormed() && InOrder(s) && g < |s.queues| && s.queues[g] != []
    ensures InOrder(ResolveHead(s, g))
  {
    var t, head := ResolveHead(s, g), s.queues[g][0];
    assert WaitsIn(s, g, head);
    forall i, k | 0 <= i < |t.queues| && 0 <= k < |t.queues[i]|
      ensures WaitsIn(t, i, t.queues[i][k])
    {
      var e := s.queues[i][if i == g then k + 1 else k];
      assert t.queues[i][k] == e && WaitsIn(s, i, e);
    }
  }

  lemma HeadKeepsCount<T>(s: State<T>, g: nat)
    requires s.WellFormed() && Counted(s) && g < |s.queues| && s.queues[g] != []
    ensures Counted(ResolveHead(s, g))
  {
  }

  lemma {:induction false} ChainKeepsOrder<T>(s: State<T>, g: nat)
    requires s.WellFormed() && InOrder(s) && Counted(s) && g < |s.queues|
    ensures InOrder(Chain(s, g)) && Counted(Chain(s, g)) && s.log <= Chain(s, g).log
    decreases |s.queues[g]|
  {
    if s.queues[g] != [] && s.slots[s.queues[g][0]].resolved {
      HeadKeepsOrder(s, g);
      HeadKeepsCount(s, g);
      ChainKeepsOrder(ResolveHead(s, g), g);
    }
  }

  lemma MarkKeepsOrder<T>(s: State<T>, e: nat)
    requires InOrder(s) && Counted(s) && e < |s.slots|
    ensures InOrder(Mark(s, e)) && Counted(Mark(s, e))
  {
    forall g, i | 0 <= g < |s.queues| && 0 <= i < |s.queues[g]|
      ensures WaitsIn(Mark(s, e), g, s.queues[g][i])
    {
      assert WaitsIn(s, g, s.queues[g][i]);
    }
  }

  lemma AddKeepsOrder<T>(s: State<T>, promise: T)
    requires s.WellFormed() && s.queues != [] && InOrder(s)
    ensures InOrder(Added(s, promise))
  {
    var t, live := Added(s, promise), |s.queues| - 1;
    SortedSnoc(s.queues[live], |s.slots|);
    forall g, i | 0 <= g < |t.queues| && 0 <= i < |t.queues[g]|
      ensures WaitsIn(t, g, t.queues[g][i])
    {
      if i < |s.queues[g]| { assert WaitsIn(s, g, s.queues[g][i]); }
    }
  }

  lemma AddKeepsCount<T>(s: State<T>, promise: T)
    requires s.queues != [] && InOrder(s) && Counted(s)
    ensures Counted(Added(s, promise))
  {
    assert |s.slots| !in s.log;
  }

  lemma ClearKeepsOrder<T>(s: State<T>, value: T)
    requires s.queues != [] && InOrder(s) && Counted(s)
    ensures InOrder(Cleared(s, value)) && Counted(Cleared(s, value))
  {
    var t := Cleared(s, value);
    forall g, i | 0 <= g < |t.queues| && 0 <= i < |t.queues[g]|
      ensures WaitsIn(t, g, t.queues[g][i])
    {
      assert WaitsIn(s, g, s.queues[g][i]);
    }
  }

  lemma SettleKeepsOrder<T>(s: State<T>, e: nat)
    requires s.WellFormed() && InOrder(s) && Counted(s) && e < |s.slots|
    ensures InOrder(TryResolve(s, e)) && Counted(TryResolve(s, e)) && s.log <= TryResolve(s, e).log
  {
    var g := s.slots[e].queue;
    if s.queues[g] != [] && s.queues[g][0] == e {
      HeadKeepsOrder(s, g);
      HeadKeepsCount(s, g);
      ChainKeepsOrder(ResolveHead(s, g), g);
    } else {
      MarkKeepsOrder(s, e);
    }
  }

  lemma LogAfterSettle<T>(trace: seq<Event<T>>, s: State<T>, e: nat)
    requires Run(trace) == Some(s) && e < |s.slots|
    ensures s.log <= TryResolve(s, e).log
  {
    RunInOrder(trace);
    SettleKeepsOrder(s, e);
  }

  lemma StepKeepsOrder<T>(s: State<T>, event: Event<T>)
    requires s.WellFormed() && s.queues != [] && (event.Settle? ==> event.entry < |s.slots|)
    requires InOrder(s) && Counted(s)
    ensures InOrder(Step(s, event)) && Counted(Step(s, event)) && s.log <= Step(s, event).log
    ensures !event.Settle? ==> Step(s, event).log == s.log
  {
    match event
    case Add(promise) =>
      AddKeepsOrder(s, promise);
      AddKeepsCount(s, promise);
    case Clear(value) => ClearKeepsOrder(s, value);
    case Settle(e) => SettleKeepsOrder(s, e);
  }

  lemma {:induction false} RunInOrder<T>(trace: seq<Event<T>>)
    requires Run(trace).Some?
    ensures InOrder(Run(trace).value) && Counted(Run(trace).value)
  {
    if trace != [] {
      var before := trace[..|trace| - 1];
      RunInOrder(before);
      StepKeepsOrder(Run(before).value, trace[|trace| - 1]);
    }
  }

  /** An event only adds calls to the log, and only a promise that settles does. */
  lemma LogGrows<T>(trace: seq<Event<T>>, event: Event<T>)
    requires Run(trace).Some? && Run(trace + [event]).Some?
    ensures Run(trace).value.log <= Run(trace + [event]).value.log
    ensures !event.Settle? ==> Run(trace + [event]).value.log == Run(trace).value.log
  {
    RunInOrder(trace);
    PastNext(trace, event);
    RunNext(trace, event);
    StepKeepsOrder(Run(trace).value, event);
  }

  /** The calls of `resolve`: one for every entry that is owed its outcome, none for the others. */
  ghost predicate CalledOnce<T>(trace: seq<Event<T>>, log: seq<nat>) {
    && (forall e <- log :: e < |Past(trace).own|)
    && (forall e: nat :: e < |Past(trace).own| ==> multiset(log)[e] == if Owed(trace, e).Some? then 1 else 0)
  }

  /** Within every generation they come in the order of insertion. */
  ghost predicate CalledInOrder<T>(trace: seq<Event<T>>, log: seq<nat>) {
    var h := Past(trace);
    forall j, k :: 0 <= j < k < |log| ==>
      log[j] < |h.own| && log[k] < |h.own| && h.generation[log[j]] == h.generation[log[k]] ==> log[j] < log[k]
  }

  /**
   * Over every run, outer promises are resolved first in, first out: `resolve` is called once
   * for exactly the entries that are owed, and within a generation in the order of insertion.
   */
  lemma FirstInFirstOut<T>(trace: seq<Event<T>>)
    requires Run(trace).Some?
    ensures CalledOnce(trace, Run(trace).value.log) && CalledInOrder(trace, Run(trace).value.log)
  {
    RunHolds(trace);
    RunInOrder(trace);
    var s := Run(trace).value;
    assert forall e :: 0 <= e < |s.slots| ==> HoldsSlot(s.slots[e], trace, e);
  }

  lemma DueStays<T>(trace: seq<Event<T>>, event: Event<T>, e: nat)
    requires e < |Past(trace).own| && Due(Past(trace), e)
    ensures e < |Past(trace + [event]).own| && Due(Past(trace + [event]), e)
  {
    var h, next := Past(trace), Past(trace + [event]);
    PastNext(trace, event);
    forall d: nat | d <= e && next.generation[d] == next.generation[e]
      ensures d in next.settled
    {
      assert h.generation[d] == h.generation[e];
    }
  }

  /** A clear resolves nothing by itself: its entries still wait for their promises. */
  lemma ClearResolvesNothing<T>(trace: seq<Event<T>>, value: T, e: nat)
    requires e < |Past(trace).own|
    ensures e < |Past(trace + [Clear(value)]).own| && Owed(trace + [Clear(value)], e) == Owed(trace, e)
  {
    PastNext(trace, Clear(value));
    OwedNext(trace, Clear(value), e);
    OwedIffDue(trace, e);
    ClearKeepsDue(Past(trace), value, e);
  }

  /** Whatever follows, an outcome stays; one missing at the clear becomes the clear's value. */
  lemma {:induction false} OutcomeOf<T>(before: seq<Event<T>>, after: seq<Event<T>>, e: nat)
    requires e < |Past(before).own|
    ensures var h, now := Past(before), Past(before + after);
            && |h.own| <= |now.own| && h.own == now.own[..|h.own|] && h.generation == now.generation[..|h.own|]
            && |h.cleared| <= |now.cleared| && h.cleared == now.cleared[..|h.cleared|]
    ensures Owed(before, e).Some? ==> Owed(before + after, e) == Owed(before, e)
    ensures Owed(before, e).None? && Past(before).generation[e] < |Past(before).cleared|
            && Owed(before + after, e).Some?
            ==> Owed(before + after, e).value == Past(before).cleared[Past(before).generation[e]]
  {
    if after == [] {
      assert before + after == before;
    } else {
      var n := |after| - 1;
      OutcomeOf(before, after[..n], e);
      assert before + after == (before + after[..n]) + [after[n]];
      PastNext(before + after[..n], after[n]);
      OwedNext(before + after[..n], after[n], e);
    }
  }
}
