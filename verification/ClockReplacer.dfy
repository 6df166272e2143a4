// The second-chance clock that picks the frame to evict
// (src/buffer/clock_replacer.cpp).
module Clock {

  /** What the clock remembers: which frames may be evicted, which of them have
      a second chance left, and where the hand is. */
  datatype ClockState = ClockState(inReplacer: seq<bool>, refs: seq<bool>, hand: nat)
  {
    ghost predicate WellFormed() {
      |inReplacer| == |refs| && (hand < |refs| || hand == 0)
    }

    ghost function Evictable(): set<nat> {
      set f: nat | f < |inReplacer| && inReplacer[f]
    }

    /** The frame `k` steps after the hand. */
    ghost function At(k: nat): (f: nat)
      requires hand < |refs| && k <= |refs|
      ensures f < |refs|
    {
      if hand + k < |refs| then hand + k else hand + k - |refs|
    }

    /** How many steps after the hand frame `f` is. */
    ghost function Distance(f: nat): (k: nat)
      requires hand < |refs| && f < |refs|
      ensures k < |refs| && At(k) == f
    {
      if hand <= f then f - hand else f + |refs| - hand
    }

    /** The frame at distance `k` is evictable and its second chance is used up. */
    ghost predicate Candidate(k: nat)
      requires WellFormed() && k < |refs|
    {
      inReplacer[At(k)] && !refs[At(k)]
    }

    ghost predicate AllReferenced()
      requires WellFormed()
    {
      forall k: nat :: k < |refs| ==> !Candidate(k)
    }

    /** The frame at distance `k` is the one the clock must choose: the first
        unreferenced evictable frame or, if all are referenced, the first evictable one. */
    ghost predicate IsVictim(k: nat)
      requires WellFormed()
    {
      && k < |refs|
      && inReplacer[At(k)]
      && if AllReferenced() then
           forall j: nat :: j < k ==> !inReplacer[At(j)]
         else
           Candidate(k) && forall j: nat :: j < k ==> !Candidate(j)
    }

    /** The state once the hand has passed `k` frames without evicting: the
        evictable ones among them have lost their second chance. */
    ghost function Passed(k: nat): ClockState
      requires WellFormed() && 0 < |refs| && k <= |refs|
    {
      ClockState(
        inReplacer,
        seq(|refs|, f requires 0 <= f < |refs| => refs[f] && !(inReplacer[f] && Distance(f) < k)),
        At(k))
    }

    /** The state once frame `f` may be evicted, with a second chance, or may not be. */
    ghost function Marked(f: int, evictable: bool): ClockState
      requires WellFormed()
    {
      if 0 <= f < |refs| then ClockState(inReplacer[f := evictable], refs[f := evictable], hand) else this
    }

    /** The state after evicting the frame at distance `k`. When every evictable
        frame is referenced, the hand makes a whole turn before it reaches the victim. */
    ghost function After(k: nat): ClockState
      requires WellFormed() && k < |refs|
    {
      var swept := if AllReferenced() then Passed(|refs|) else Passed(k);
      ClockState(inReplacer[At(k) := false], swept.refs, At(k + 1))
    }
  }

  lemma VictimIsUnique(s: ClockState, j: nat, k: nat)
    requires s.WellFormed() && s.IsVictim(j) && s.IsVictim(k)
    ensures j == k
  {
    assert s.Candidate(j) || s.AllReferenced();
  }

  lemma {:induction false} LeastDistance(p: nat -> bool, k: nat) returns (least: nat)
    requires p(k)
    ensures least <= k && p(least) && forall j: nat :: j < least ==> !p(j)
    decreases k
  {
    if j: nat :| j < k && p(j) {
      least := LeastDistance(p, j);
    } else {
      least := k;
    }
  }

  /** A victim exists exactly when some frame is evictable. */
  lemma VictimExists(s: ClockState)
    requires s.WellFormed()
    ensures (exists k: nat :: s.IsVictim(k)) <==> s.Evictable() != {}
  {
    if k: nat :| s.IsVictim(k) {
      assert s.At(k) in s.Evictable();
    }
    if f :| f in s.Evictable() {
      if s.AllReferenced() {
        var evictableAt := (k: nat) => k < |s.refs| && s.inReplacer[s.At(k)];
        var k := LeastDistance(evictableAt, s.Distance(f));
        forall j: nat | j < k ensures !s.inReplacer[s.At(j)] { assert !evictableAt(j); }
        assert s.IsVictim(k);
      } else {
        var c: nat :| c < |s.refs| && s.Candidate(c);
        var candidateAt := (k: nat) => k < |s.refs| && s.Candidate(k);
        var k := LeastDistance(candidateAt, c);
        forall j: nat | j < k ensures !s.Candidate(j) { assert !candidateAt(j); }
        assert s.IsVictim(k);
      }
    }
  }

  /** One step of the hand. */
  lemma PassOne(s: ClockState, k: nat)
    requires s.WellFormed() && k < |s.refs|
    ensures s.At(k + 1) == (s.At(k) + 1) % |s.refs|
    ensures s.Passed(k).refs[s.At(k)] == s.refs[s.At(k)]
    ensures s.Passed(k + 1).refs
         == if s.inReplacer[s.At(k)] then s.Passed(k).refs[s.At(k) := false] else s.Passed(k).refs
  {
    DistanceOfAt(s, k);
    StepOfHand(s, k);
    forall f: nat | f < |s.refs|
      ensures s.Passed(k + 1).refs[f] == if s.inReplacer[s.At(k)] && f == s.At(k) then false else s.Passed(k).refs[f]
    {
      assert s.Distance(f) < k + 1 <==> s.Distance(f) < k || s.Distance(f) == k;
      assert s.Distance(f) == k <==> f == s.At(k);
    }
  }

  lemma DistanceOfAt(s: ClockState, k: nat)
    requires s.WellFormed() && k < |s.refs|
    ensures s.Distance(s.At(k)) == k
    ensures forall f: nat :: f < |s.refs| ==> (s.Distance(f) == k <==> f == s.At(k))
  {
  }

  lemma StepOfHand(s: ClockState, k: nat)
    requires s.WellFormed() && k < |s.refs|
    ensures s.At(k + 1) == (s.At(k) + 1) % |s.refs|
  {
    if s.At(k) + 1 == |s.refs| {
      assert (s.At(k) + 1) % |s.refs| == 0;
    }
  }

  /** The frames that successive Victim calls return when nothing is pinned or
      unpinned in between, until the replacer is empty. */
  ghost function Drain(s: ClockState): (frames: seq<nat>)
    requires s.WellFormed()
    decreases |s.Evictable()|
  {
    VictimExists(s);
    if s.Evictable() == {} then []
    else
      var k: nat :| s.IsVictim(k);
      assert s.After(k).Evictable() == s.Evictable() - {s.At(k)};
      [s.At(k)] + Drain(s.After(k))
  }

  /** Draining returns each evictable frame exactly once. */
  lemma {:induction false} DrainReturnsEachOnce(s: ClockState)
    requires s.WellFormed()
    ensures multiset(Drain(s)) == multiset(s.Evictable())
    decreases |s.Evictable()|
  {
    VictimExists(s);
    if s.Evictable() != {} {
      var k: nat :| s.IsVictim(k) && Drain(s) == [s.At(k)] + Drain(s.After(k));
      assert s.After(k).Evictable() == s.Evictable() - {s.At(k)};
      DrainReturnsEachOnce(s.After(k));
    }
  }

  class ClockReplacer {
    var clockHand: nat
    const refFlags: array<bool>
    const inReplacer: array<bool>

    ghost predicate Valid()
      reads this, refFlags, inReplacer
    {
      && refFlags != inReplacer
      && State().WellFormed()
    }

    ghost function State(): ClockState
      reads this, refFlags, inReplacer
    {
      ClockState(inReplacer[..], refFlags[..], clockHand)
    }

    ghost function Evictable(): set<nat>
      reads this, refFlags, inReplacer
    {
      State().Evictable()
    }

    constructor (numPages: nat)
      ensures Valid() && fresh(refFlags) && fresh(inReplacer)
      ensures refFlags.Length == numPages
      ensures Evictable() == {}
    {
      clockHand := 0;
      refFlags := new bool[numPages](_ => false);
      inReplacer := new bool[numPages](_ => false);
    }

    /** Number of evictable frames. */
    method Size() returns (count: nat)
      requires Valid()
      ensures count == |Evictable()|
    {
      count := 0;
      ghost var seen: set<nat> := {};
      for f := 0 to inReplacer.Length
        invariant seen == set g: nat | g < f && inReplacer[g]
        invariant count == |seen|
      {
        if inReplacer[f] {
          count := count + 1;
          seen := seen + {f};
        }
      }
      assert seen == Evictable();
    }

    /** Chooses and removes the victim; `found` is false exactly when no frame is
        evictable. `steps` is how far from the hand the victim was. */
    method Victim() returns (found: bool, frame: int, ghost steps: nat)
      requires Valid()
      modifies this, refFlags, inReplacer
      ensures Valid()
      ensures found <==> old(Evictable()) != {}
      ensures !found ==> State() == old(State()) && Evictable() == {}
      ensures found ==> old(State()).IsVictim(steps) && frame == old(State()).At(steps)
      ensures found ==> State() == old(State()).After(steps)
      ensures found ==> frame in old(Evictable()) && Evictable() == old(Evictable()) - {frame}
    {
      found, frame, steps := false, -1, 0;
      var evictableCount := Size();
      if evictableCount == 0 {
        return;
      }
      VictimExists(State());
      found, frame, steps := EvictUnreferenced();
      if !found {
        found, frame, steps := EvictFirst(old(State()));
      }
    }

    /** The first turn of the hand: evicts the first unreferenced frame it meets and
        clears the reference bits before it. */
    method EvictUnreferenced() returns (found: bool, frame: int, ghost steps: nat)
      requires Valid() && refFlags.Length > 0
      modifies this, refFlags, inReplacer
      ensures Valid()
      ensures found <==> !old(State()).AllReferenced()
      ensures !found ==> State() == old(State()).Passed(refFlags.Length)
      ensures found ==> old(State()).IsVictim(steps) && frame == old(State()).At(steps)
      ensures found ==> State() == old(State()).After(steps)
    {
      ghost var s := State();
      var size := refFlags.Length;
      var count := 0;
      while count < size
        invariant count <= size && State() == s.Passed(count)
        invariant forall j: nat :: j < count ==> !s.Candidate(j)
      {
        PassOne(s, count);
        if inReplacer[clockHand] {
          if refFlags[clockHand] {
            refFlags[clockHand] := false;
          } else {
            assert s.Candidate(count) by { assert refFlags[..][clockHand] == s.refs[clockHand]; }
            assert s.IsVictim(count);
            inReplacer[clockHand] := false;
            found, frame, steps := true, clockHand, count;
            clockHand := (clockHand + 1) % size;
            return;
          }
        }
        clockHand := (clockHand + 1) % size;
        count := count + 1;
      }
      found, frame, steps := false, -1, 0;
    }

    /** The second turn, after the first has cleared every reference bit of `s`. */
    method EvictFirst(ghost s: ClockState) returns (found: bool, frame: int, ghost steps: nat)
      requires Valid() && refFlags.Length > 0
      requires s.WellFormed() && s.AllReferenced() && |s.refs| == refFlags.Length
      requires State() == s.Passed(refFlags.Length)
      requires exists k: nat :: s.IsVictim(k)
      modifies this, refFlags, inReplacer
      ensures Valid()
      ensures found && s.IsVictim(steps) && frame == s.At(steps) && State() == s.After(steps)
    {
      ghost var victim: nat :| s.IsVictim(victim);
      var size := refFlags.Length;
      var count := 0;
      while count < size
        invariant count <= size && State() == s.Passed(size).(hand := s.At(count))
        invariant forall j: nat :: j < count ==> !s.inReplacer[s.At(j)]
      {
        PassOne(s, count);
        if inReplacer[clockHand] {
          assert s.IsVictim(count);
          inReplacer[clockHand] := false;
          found, frame, steps := true, clockHand, count;
          clockHand := (clockHand + 1) % size;
          return;
        }
        clockHand := (clockHand + 1) % size;
        count := count + 1;
      }
      assert false;
    }

    method Pin(frame: int)
      requires Valid()
      modifies refFlags, inReplacer
      ensures Valid()
      ensures State() == old(State()).Marked(frame, false)
      ensures Evictable() == old(Evictable()) - {frame}
    {
      if 0 <= frame < inReplacer.Length {
        inReplacer[frame] := false;
        refFlags[frame] := false;
      }
    }

    method Unpin(frame: int)
      requires Valid()
      modifies refFlags, inReplacer
      ensures Valid()
      ensures State() == old(State()).Marked(frame, true)
      ensures 0 <= frame < refFlags.Length ==> Evictable() == old(Evictable()) + {frame}
      ensures !(0 <= frame < refFlags.Length) ==> Evictable() == old(Evictable())
    {
      if 0 <= frame < inReplacer.Length {
        inReplacer[frame] := true;
        refFlags[frame] := true;
      }
    }
  }
}
