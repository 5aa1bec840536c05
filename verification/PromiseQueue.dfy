/** The promise queue as objects: entries that point at the queue they are in. */
module PromiseQueue {
  import opened Wrappers
  import opened Promises

  class Entry<T(!new)> {
    /** The promise, or the value a clear put in its place. */
    var value: T
    var queue: Queue<T>
    var resolved: bool
    /** The calls of the outer promise's `resolve`. */
    var outcomes: seq<T>
    /** The position of the entry among all ever added. */
    ghost const id: nat

    constructor (promise: T, queue: Queue<T>, ghost id: nat)
      ensures value == promise && this.queue == queue && !resolved && outcomes == [] && this.id == id
    {
      value, this.queue, resolved, outcomes, this.id := promise, queue, false, [], id;
    }

    method Resolve(outcome: T)
      modifies this`outcomes
      ensures outcomes == old(outcomes) + [outcome]
    {
      outcomes := outcomes + [outcome];
    }
  }

  /** An array of entries. */
  class Queue<T(!new)> {
    var entries: seq<Entry<T>>
    /** The generation of the entries. */
    ghost var number: nat

    constructor (entries: seq<Entry<T>>, ghost number: nat)
      ensures this.entries == entries && this.number == number
    {
      this.entries, this.number := entries, number;
    }
  }

  class PromiseQueue<T(!new)> {
    const queue: Queue<T>
    /** Every entry ever added, and the queues: the cleared ones in order, then the live one. */
    ghost var all: seq<Entry<T>>
    ghost var queues: seq<Queue<T>>
    /** The ids of the entries in the order their outer promises' `resolve` was called. */
    ghost var log: seq<nat>
    ghost var trace: seq<Event<T>>
    ghost var state: State<T>

    /** The objects are in the state `s` of the machine. */
    ghost predicate Abstracts(s: State<T>)
      reads this`all, this`queues, this`log, all, queues
    {
      && s.WellFormed() && |all| == |s.slots| && |queues| == |s.queues| && log == s.log
      && queues != [] && queues[|queues| - 1] == queue
      && (forall e :: 0 <= e < |all| ==> all[e].id == e && AbstractsEntry(all[e], s.slots[e]))
      && (forall g :: 0 <= g < |queues| ==> queues[g].number == g && AbstractsQueue(queues[g], s.queues[g]))
    }

    ghost predicate AbstractsEntry(entry: Entry<T>, slot: Slot<T>)
      reads this`queues, entry
    {
      && SameFields(entry, slot)
      && slot.queue < |queues| && (slot.outcomes == [] ==> entry.queue == queues[slot.queue])
    }

    ghost predicate SameFields(entry: Entry<T>, slot: Slot<T>)
      reads entry
    {
      entry.value == slot.value && entry.resolved == slot.resolved && entry.outcomes == slot.outcomes
    }

    ghost predicate AbstractsQueue(q: Queue<T>, ids: seq<nat>)
      reads this`all, q
    {
      && |q.entries| == |ids|
      && forall k :: 0 <= k < |ids| ==> ids[k] < |all| && q.entries[k] == all[ids[k]]
    }

    /** The state `s`, if that is what the objects are in. */
    ghost function Mirror(s: State<T>): Option<State<T>>
      reads this`all, this`queues, this`log, all, queues
    {
      if Abstracts(s) then Some(s) else None
    }

    /** The objects are in the state the events lead to. */
    ghost predicate Valid()
      reads this, all, queues
    {
      Reached().Some?
    }

    ghost function Reached(): Option<State<T>>
      reads this, all, queues
    {
      if Run(trace) == Some(state) then Mirror(state) else None
    }

    /** Adds an event to the trace, once the objects have taken its step. */
    ghost method Record(event: Event<T>)
      requires Run(trace) == Some(state)
      requires event.Settle? ==> event.entry < |Past(trace).own| && event.entry !in Past(trace).settled
      requires Mirror(Step(state, event)).Some?
      modifies this`trace, this`state
      ensures Valid() && trace == old(trace) + [event]
    {
      RunNext(trace, event);
      trace, state := trace + [event], Step(state, event);
    }

    /**
     * Whatever happened, in whatever order: every outer promise was resolved exactly as
     * owed, once or not at all.
     */
    lemma EveryOutcomeIsOwed(e: nat)
      requires Valid() && e < |all|
      ensures Legal(trace) && |Past(trace).own| == |all|
      ensures all[e].outcomes == match Owed(trace, e) case None => [] case Some(outcome) => [outcome]
    {
      RunHolds(trace);
      assert HoldsSlot(state.slots[e], trace, e);
    }

    /** And the calls came first in, first out. */
    lemma CallsInOrder()
      requires Valid()
      ensures CalledOnce(trace, log) && CalledInOrder(trace, log)
    {
      FirstInFirstOut(trace);
    }

    constructor ()
      ensures Valid() && all == [] && trace == [] && log == []
    {
      var q := new Queue<T>([], 0);
      queue := q;
      all, queues, log, trace, state := [], [q], [], [], Start();
    }

    method ResolveHead(q: Queue<T>, ghost g: nat, ghost s: State<T>)
      requires Mirror(s).Some? && g < |queues| && q == queues[g] && q.entries != []
      modifies this`log, q, all
      ensures Mirror(Promises.ResolveHead(s, g)).Some?
    {
      var first := q.entries[0];
      ghost var e := s.queues[g][0];
      assert first == all[e];
      q.entries := q.entries[1..];
      first.Resolve(first.value);
      log := log + [first.id];
    }

    method TryResolveChain(q: Queue<T>, ghost g: nat, ghost s: State<T>) returns (idle: bool)
      requires Mirror(s).Some? && g < |queues| && q == queues[g]
      modifies this`log, q, all
      ensures Mirror(Chain(s, g)).Some?
      ensures idle == (Chain(s, g).queues[g] == [])
    {
      ghost var t := s;
      Front(q, g, t);
      while |q.entries| > 0 && q.entries[0].resolved
        invariant Mirror(t).Some? && Chain(t, g) == Chain(s, g)
        invariant |q.entries| == |t.queues[g]|
        invariant q.entries != [] ==> q.entries[0].resolved == t.slots[t.queues[g][0]].resolved
        decreases |q.entries|
      {
        ResolveHead(q, g, t);
        t := Promises.ResolveHead(t, g);
        Front(q, g, t);
      }
      idle := |q.entries| == 0;
    }

    lemma Front(q: Queue<T>, g: nat, t: State<T>)
      requires Mirror(t).Some? && g < |queues| && q == queues[g]
      ensures |q.entries| == |t.queues[g]|
      ensures q.entries != [] ==> q.entries[0].resolved == t.slots[t.queues[g][0]].resolved
    {
      assert AbstractsQueue(q, t.queues[g]);
      if q.entries != [] { assert q.entries[0] == all[t.queues[g][0]]; }
    }

    /** The handler of an entry's promise; tells whether it announces that its queue is empty. */
    method TryResolve(q: Queue<T>, entry: Entry<T>, ghost e: nat, ghost s: State<T>) returns (idle: bool)
      requires Mirror(s).Some? && e < |all| && entry == all[e] && q == queues[s.slots[e].queue]
      modifies this`log, q, all
      ensures Mirror(Promises.TryResolve(s, e)).Some?
      ensures var before, after := s.queues[s.slots[e].queue], Promises.TryResolve(s, e).queues[s.slots[e].queue];
              idle == (before != [] && before[0] == e && after == [])
    {
      ghost var g := s.slots[e].queue;
      if |q.entries| > 0 && entry == q.entries[0] {
        ResolveHead(q, g, s);
        idle := TryResolveChain(q, g, Promises.ResolveHead(s, g));
      } else {
        entry.resolved := true;
        idle := false;
      }
    }

    lemma Located(e: nat)
      requires Valid() && e < |all| && e !in Past(trace).settled
      ensures Run(trace) == Some(state) && Mirror(state).Some? && e < |state.slots| == |Past(trace).own|
      ensures state.slots[e].queue < |queues| && all[e].queue == queues[state.slots[e].queue]
    {
      RunUnsettled(trace, e);
      assert AbstractsEntry(all[e], state.slots[e]);
    }

    lemma MirrorsLog(s: State<T>)
      requires Mirror(s).Some?
      ensures log == s.log
    {
    }

    /** A promise settles: its handler runs with the queue its entry is in by then. */
    method Settle(entry: Entry<T>, ghost e: nat) returns (idle: bool)
      requires Valid() && e < |all| && entry == all[e] && e !in Past(trace).settled
      modifies this`log, this`trace, this`state, entry.queue, all
      ensures Valid() && trace == old(trace) + [Promises.Settle(e)] && old(log) <= log
      // "idle" is announced when everything of the entry's generation is resolved
      ensures e < |Past(trace).own| && (idle <==> AllResolved(trace, Past(trace).generation[e]))
    {
      Located(e);
      AfterSettle(trace, state, e);
      LogAfterSettle(trace, state, e);
      MirrorsLog(state);
      idle := TryResolve(entry.queue, entry, e, state);
      MirrorsLog(Promises.TryResolve(state, e));
      Record(Promises.Settle(e));
    }

    /** Adds a promise; the caller gets the new entry's outer promise. */
    method Add(promise: T) returns (entry: Entry<T>)
      requires Valid()
      modifies this`all, this`trace, this`state, queue
      ensures Valid() && trace == old(trace) + [Promises.Add(promise)]
      ensures all == old(all) + [entry] && fresh(entry)
    {
      entry := AddEntry(promise, state);
      Record(Promises.Add(promise));
    }

    method AddEntry(promise: T, ghost s: State<T>) returns (entry: Entry<T>)
      requires Mirror(s).Some?
      modifies this`all, queue
      ensures Mirror(Added(s, promise)).Some?
      ensures all == old(all) + [entry] && fresh(entry)
    {
      assert forall g :: 0 <= g < |queues| ==> AbstractsQueue(queues[g], s.queues[g]);
      entry := new Entry(promise, queue, |all|);
      queue.entries := queue.entries + [entry];
      all := all + [entry];
      AddedMirrors(s, promise, entry);
    }

    lemma AddedMirrors(s: State<T>, promise: T, entry: Entry<T>)
      requires s.WellFormed() && log == s.log && |queues| == |s.queues| > 0
      requires |all| == |s.slots| + 1 && all[|all| - 1] == entry
      requires queues[|queues| - 1] == queue
      requires SameFields(entry, Slot(promise, |queues| - 1, false, [])) && entry.queue == queue
      requires forall e :: 0 <= e < |s.slots| ==> AbstractsEntry(all[e], s.slots[e])
      requires forall g :: 0 <= g < |queues| - 1 ==> AbstractsQueue(queues[g], s.queues[g])
      requires AbstractsQueue(queue, s.queues[|queues| - 1] + [|s.slots|])
      requires forall e :: 0 <= e < |all| ==> all[e].id == e
      requires forall g :: 0 <= g < |queues| ==> queues[g].number == g
      ensures Mirror(Added(s, promise)).Some?
    {
    }

    /** Takes all entries out of the live queue and puts `value` in place of their promises. */
    method Clear(value: T)
      requires Valid()
      modifies this`queues, this`trace, this`state, queue, all
      ensures Valid() && trace == old(trace) + [Promises.Clear(value)]
    {
      RunTidy(trace);
      ClearEntries(value, state);
      Record(Promises.Clear(value));
    }

    method ClearEntries(value: T, ghost s: State<T>)
      requires Mirror(s).Some? && Tidy(s)
      modifies this`queues, queue, all
      ensures Mirror(Cleared(s, value)).Some?
    {
      ghost var live, before := |queues| - 1, queues;
      InLive(s);
      var cancelled := new Queue(queue.entries, live);
      queue.entries, queue.number := [], live + 1;
      Cancel(cancelled, value, s);
      queues := queues[..live] + [cancelled, queue];
      ClearedMirrors(s, value, before, cancelled);
    }

    lemma InLive(s: State<T>)
      requires Mirror(s).Some?
      ensures s.queues != [] && AbstractsQueue(queue, s.queues[|queues| - 1])
      ensures forall entry <- queue.entries :: entry in all
      ensures forall e :: 0 <= e < |all| ==> (all[e] in queue.entries <==> e in s.queues[|queues| - 1])
    {
      var live := |queues| - 1;
      assert AbstractsQueue(queue, s.queues[live]);
      forall e | 0 <= e < |all|
        ensures all[e] in queue.entries <==> e in s.queues[live]
      {
        InQueue(s, live, e);
      }
    }

    lemma InQueue(s: State<T>, g: nat, e: nat)
      requires Mirror(s).Some? && g < |queues| && e < |all|
      ensures all[e] in queues[g].entries <==> e in s.queues[g]
    {
      assert AbstractsQueue(queues[g], s.queues[g]);
      if all[e] in queues[g].entries {
        var k :| 0 <= k < |queues[g].entries| && queues[g].entries[k] == all[e];
        assert s.queues[g][k] == e;
      }
      if e in s.queues[g] {
        var k :| 0 <= k < |s.queues[g]| && s.queues[g][k] == e;
        assert queues[g].entries[k] == all[e];
      }
    }

    /** The entries after the loop of `clear`, whose array of queues was `before`. */
    ghost predicate Requeued(s: State<T>, value: T, before: seq<Queue<T>>, cancelled: Queue<T>)
      requires |before| == |s.queues| > 0 && |all| == |s.slots|
      reads this`all, all
    {
      var live := |before| - 1;
      forall e :: 0 <= e < |all| ==>
        && SameFields(all[e], CancelledSlot(s.slots[e], value, e in s.queues[live]))
        && s.slots[e].queue <= live
        && (s.slots[e].outcomes == [] ==>
              && all[e].queue == (if e in s.queues[live] then cancelled else before[s.slots[e].queue])
              && (e in s.queues[live] <==> s.slots[e].queue == live))
    }

    /** The loop of `clear` over the entries it took out. */
    method Cancel(cancelled: Queue<T>, value: T, ghost s: State<T>)
      requires Tidy(s) && |s.slots| == |all| && |s.queues| == |queues| > 0
      requires forall entry <- cancelled.entries :: entry in all
      requires forall e :: 0 <= e < |all| ==> all[e].id == e && AbstractsEntry(all[e], s.slots[e])
      requires forall e :: 0 <= e < |all| ==> (all[e] in cancelled.entries <==> e in s.queues[|queues| - 1])
      modifies all
      ensures Requeued(s, value, queues, cancelled)
    {
      for k := 0 to |cancelled.entries|
        invariant forall entry <- all :: entry.resolved == old(entry.resolved) && entry.outcomes == old(entry.outcomes)
        invariant forall entry <- all ::
                    if entry in cancelled.entries[..k] then entry.value == value && entry.queue == cancelled
                    else entry.value == old(entry.value) && entry.queue == old(entry.queue)
      {
        var entry := cancelled.entries[k];
        assert entry in cancelled.entries && entry in all;
        entry.queue := cancelled;
        entry.value := value;
        assert cancelled.entries[..k + 1] == cancelled.entries[..k] + [entry];
      }
      assert cancelled.entries[..|cancelled.entries|] == cancelled.entries;
      assert forall e :: 0 <= e < |all| ==> all[e] in all && old(AbstractsEntry(all[e], s.slots[e]));
    }

    lemma ClearedMirrors(s: State<T>, value: T, before: seq<Queue<T>>, cancelled: Queue<T>)
      requires s.WellFormed() && log == s.log && |before| == |s.queues| > 0 && |all| == |s.slots|
      requires var live := |before| - 1;
               && before[live] == queue && queues == before[..live] + [cancelled, queue]
               && AbstractsQueue(cancelled, s.queues[live]) && queue.entries == []
      requires forall g :: 0 <= g < |before| - 1 ==> before[g].number == g && AbstractsQueue(before[g], s.queues[g])
      requires Requeued(s, value, before, cancelled)
      requires forall e :: 0 <= e < |all| ==> all[e].id == e
      requires cancelled.number == |before| - 1 && queue.number == |before|
      ensures Mirror(Cleared(s, value)).Some?
    {
      forall e: nat | e < |all|
        ensures AbstractsEntry(all[e], Cleared(s, value).slots[e])
      {
        ClearedEntry(s, value, before, cancelled, e);
      }
      forall g | 0 <= g < |queues|
        ensures queues[g].number == g && AbstractsQueue(queues[g], Cleared(s, value).queues[g])
      {
        if g < |before| - 1 {
          assert queues[g] == before[g] && Cleared(s, value).queues[g] == s.queues[g];
        }
      }
    }

    lemma ClearedEntry(s: State<T>, value: T, before: seq<Queue<T>>, cancelled: Queue<T>, e: nat)
      requires |before| == |s.queues| > 0 && |all| == |s.slots| && e < |all|
      requires queues == before[..|before| - 1] + [cancelled, queue]
      requires Requeued(s, value, before, cancelled)
      ensures AbstractsEntry(all[e], Cleared(s, value).slots[e])
    {
    }

    /** Busy exactly while a live entry lacks its outcome. */
    method IsBusy() returns (busy: bool)
      requires Valid()
      ensures busy <==> !AllResolved(trace, |Past(trace).cleared|)
    {
      EmptyIff(trace, |queues| - 1);
      busy := |queue.entries| != 0;
    }
  }
}
