// What clients of the buffer pool see over a whole run, whatever the pool does inside.
module PoolRuns {
  import opened Common

  type Pages = map<nat, Bytes>

  /** What one call does, as a client sees it. Kept stands for unpinning, for flushing and
      for every call that fails. */
  datatype PoolEvent = Fetched(id: nat, data: Bytes) | Written(id: nat, data: Bytes) | Created(id: nat) | Deleted(id: nat) | Kept

  /** The contents of all allocated pages before and after an event. A deleted page may
      stay allocated when the disk fails. */
  ghost predicate PoolStep(a: Pages, event: PoolEvent, b: Pages) {
    match event
    case Fetched(id, data) => b == a && id in a && a[id] == data
    case Written(id, data) => id in a && b == a[id := data]
    case Created(id) => id !in a && b == a[id := Zeros(PAGE_SIZE)]
    case Deleted(id) => b - {id} == a - {id}
    case Kept => b == a
  }

  ghost predicate PoolRun(states: seq<Pages>, events: seq<PoolEvent>) {
    |states| == |events| + 1 && forall i: nat :: i < |events| ==> PoolStep(states[i], events[i], states[i + 1])
  }

  /** The bytes last given to a page, by a client or by its creation; none if it has been
      deleted since, or never existed. */
  function LastBytes(initial: Pages, events: seq<PoolEvent>, id: nat): Option<Bytes> {
    if events == [] then if id in initial then Some(initial[id]) else None
    else
      var before := LastBytes(initial, events[..|events| - 1], id);
      match events[|events| - 1]
      case Fetched(_, _) => before
      case Written(other, data) => if other == id then Some(data) else before
      case Created(other) => if other == id then Some(Zeros(PAGE_SIZE)) else before
      case Deleted(other) => if other == id then None else before
      case Kept => before
  }

  lemma StepKeepsLast(a: Pages, event: PoolEvent, b: Pages, id: nat, before: Option<Bytes>)
    requires PoolStep(a, event, b) && (before.Some? ==> id in a && a[id] == before.value)
    ensures event.Written? && event.id == id ==> id in b && b[id] == event.data
    ensures event.Created? && event.id == id ==> id in b && b[id] == Zeros(PAGE_SIZE)
    ensures before.Some? && (event.Fetched? || event.Kept? || event.id != id) ==> id in b && b[id] == before.value
  {
    if event.Deleted? && event.id != id && before.Some? {
      assert id in a - {event.id};
      assert id in b - {event.id} && (b - {event.id})[id] == (a - {event.id})[id];
    }
  }

  lemma {:induction false} LastBytesAreHeld(states: seq<Pages>, events: seq<PoolEvent>, id: nat)
    requires PoolRun(states, events)
    ensures LastBytes(states[0], events, id).Some? ==>
              id in states[|events|] && states[|events|][id] == LastBytes(states[0], events, id).value
    decreases |events|
  {
    if events != [] {
      var n := |events| - 1;
      LastBytesAreHeld(states[..n + 1], events[..n], id);
      assert PoolStep(states[n], events[n], states[n + 1]);
      hide PoolStep, PoolRun;
      StepKeepsLast(states[n], events[n], states[n + 1], id, LastBytes(states[0], events[..n], id));
    }
  }

  /** Over any run, a page that is fetched shows the bytes last written to it. */
  lemma FetchShowsLastWrite(states: seq<Pages>, events: seq<PoolEvent>, i: nat)
    requires PoolRun(states, events) && i < |events| && events[i].Fetched?
    ensures LastBytes(states[0], events[..i], events[i].id).Some? ==>
              events[i].data == LastBytes(states[0], events[..i], events[i].id).value
  {
    assert PoolStep(states[i], events[i], states[i + 1]);
    assert PoolRun(states[..i + 1], events[..i]);
    hide PoolRun;
    LastBytesAreHeld(states[..i + 1], events[..i], events[i].id);
  }

  /** Two pools, of any sizes and evicting as they like, that start from the same pages and
      see the same events up to a fetch, fetch the same bytes. */
  lemma PoolsAgree(p: seq<Pages>, q: seq<Pages>, events: seq<PoolEvent>, id: nat, x: Bytes, y: Bytes)
    requires PoolRun(p, events + [Fetched(id, x)]) && PoolRun(q, events + [Fetched(id, y)]) && p[0] == q[0]
    requires LastBytes(p[0], events, id).Some?
    ensures x == y
  {
    var n := |events|;
    assert (events + [Fetched(id, x)])[..n] == events && (events + [Fetched(id, y)])[..n] == events;
    FetchShowsLastWrite(p, events + [Fetched(id, x)], n);
    FetchShowsLastWrite(q, events + [Fetched(id, y)], n);
  }

  /** The steps of the pool, one by one. */
  lemma Steps(a: Pages, id: nat)
    ensures PoolStep(a, Kept, a)
    ensures id in a ==> PoolStep(a, Fetched(id, a[id]), a) && forall data: Bytes :: PoolStep(a, Written(id, data), a[id := data])
    ensures id !in a ==> PoolStep(a, Created(id), a[id := Zeros(PAGE_SIZE)])
    ensures forall b: Pages :: b - {id} == a - {id} ==> PoolStep(a, Deleted(id), b)
  {
  }
}
