/**
 The queue between the file system and the dispatcher: the handler never waits, and drops the oldest
 event when the queue is full; meanwhile the dispatcher takes events at any moment.
 */
module EventQueue {
  datatype ChangeType = Deleted | Renamed | Created | Modified

  datatype Event = Event(path: string, change: ChangeType, time: int)

  const CAPACITY: nat := 64

  /** What the handler holds: nothing, or an event that did not fit, before and after it dropped the oldest. */
  datatype Hand = Empty | MustDrop(event: Event) | MustResend(event: Event)

  datatype Exit = Taken | Dropped

  /** `left` are the events that have left the queue, in order, and `lost` those a second attempt gave up on. */
  datatype Queue = Queue(items: seq<Event>, hand: Hand, offered: seq<Event>, left: seq<(Event, Exit)>, lost: seq<Event>)

  datatype Step = Offer(event: Event) | DropOldest | Resend | Take

  function Initial(): Queue {
    Queue([], Empty, [], [], [])
  }

  predicate CanStep(q: Queue, step: Step) {
    match step
    case Offer(_) => q.hand.Empty?
    case DropOldest => q.hand.MustDrop?
    case Resend => q.hand.MustResend?
    case Take => q.items != []
  }

  function Next(q: Queue, step: Step): Queue
    requires CanStep(q, step)
  {
    match step
    case Offer(e) =>
      if |q.items| < CAPACITY then q.(items := q.items + [e], offered := q.offered + [e])
      else q.(hand := MustDrop(e), offered := q.offered + [e])
    case DropOldest =>
      if q.items == [] then q.(hand := MustResend(q.hand.event))
      else q.(items := q.items[1..], left := q.left + [(q.items[0], Dropped)], hand := MustResend(q.hand.event))
    case Resend =>
      if |q.items| < CAPACITY then q.(items := q.items + [q.hand.event], hand := Empty)
      else q.(lost := q.lost + [q.hand.event], hand := Empty)
    case Take => q.(items := q.items[1..], left := q.left + [(q.items[0], Taken)])
  }

  function Held(h: Hand): seq<Event> {
    if h.Empty? then [] else [h.event]
  }

  function Events(left: seq<(Event, Exit)>): (r: seq<Event>)
    ensures |r| == |left| && forall i :: 0 <= i < |left| ==> r[i] == left[i].0
  {
    if left == [] then [] else Events(left[..|left| - 1]) + [left[|left| - 1].0]
  }

  /**
   Nothing is lost and nothing overtakes: what has left, what is queued and what is held are what was offered, in
   order.
   */
  predicate Invariant(q: Queue) {
    && |q.items| <= CAPACITY
    && (q.hand.MustResend? ==> |q.items| < CAPACITY)
    && q.lost == []
    && Events(q.left) + q.items + Held(q.hand) == q.offered
  }

  lemma EventsOneMore(left: seq<(Event, Exit)>, e: Event, how: Exit)
    ensures Events(left + [(e, how)]) == Events(left) + [e]
  {
    assert (left + [(e, how)])[..|left|] == left;
  }

  lemma Moved(gone: seq<Event>, items: seq<Event>, held: seq<Event>)
    requires items != []
    ensures gone + items + held == gone + [items[0]] + items[1..] + held
  {
    assert items == [items[0]] + items[1..];
  }

  lemma StepKeepsInvariant(q: Queue, step: Step)
    requires Invariant(q) && CanStep(q, step)
    ensures Invariant(Next(q, step))
  {
    var gone := Events(q.left);
    hide Events;
    match step {
      case Offer(e) =>
        assert gone + (q.items + [e]) + [] == gone + q.items + [] + [e];
        assert gone + q.items + [e] == gone + q.items + [] + [e];
      case Resend =>
        var e := q.hand.event;
        assert gone + (q.items + [e]) + [] == gone + q.items + [e];
      case _ =>
        if q.items != [] {
          EventsOneMore(q.left, q.items[0], Dropped);
          EventsOneMore(q.left, q.items[0], Taken);
          Moved(gone, q.items, Held(q.hand));
        }
    }
  }

  ghost predicate IsRun(steps: seq<Step>, states: seq<Queue>) {
    && |states| == |steps| + 1 && states[0] == Initial()
    && forall k :: 0 <= k < |steps| ==> CanStep(states[k], steps[k]) && states[k + 1] == Next(states[k], steps[k])
  }

  /** In every interleaving the second attempt to send succeeds, and events come out in the order they were offered. */
  lemma {:induction false} NothingOvertakes(steps: seq<Step>, states: seq<Queue>, k: nat)
    requires IsRun(steps, states) && k <= |steps|
    ensures Invariant(states[k])
  {
    if k > 0 {
      NothingOvertakes(steps, states, k - 1);
      StepKeepsInvariant(states[k - 1], steps[k - 1]);
    }
  }

  /** An event is dropped only after a newer one found the queue full. */
  lemma {:induction false} DroppedOnlyWhenFull(steps: seq<Step>, states: seq<Queue>, k: nat) returns (j: nat)
    requires IsRun(steps, states) && k < |steps| && steps[k].DropOldest?
    ensures j < k && steps[j].Offer? && |states[j].items| == 64 && states[k].hand == MustDrop(steps[j].event)
  {
    j := HeldSince(steps, states, k);
  }

  lemma {:induction false} HeldSince(steps: seq<Step>, states: seq<Queue>, k: nat) returns (j: nat)
    requires IsRun(steps, states) && k <= |steps| && states[k].hand.MustDrop?
    ensures j < k && steps[j].Offer? && |states[j].items| == CAPACITY && states[k].hand == MustDrop(steps[j].event)
  {
    NothingOvertakes(steps, states, k - 1);
    if steps[k - 1].Offer? { j := k - 1; } else { j := HeldSince(steps, states, k - 1); }
  }
}
