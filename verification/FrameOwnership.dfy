// What the frame allocator promises, stated on the set of free blocks and the runs of
// blocks that are currently handed out, independently of the bitmap that implements it.
module FrameOwnership {
  import opened Bits

  /** The blocks s, s + 1, ..., s + n - 1. */
  function Run(s: nat, n: nat): (r: set<nat>)
    ensures forall b: nat :: b in r <==> s <= b < s + n
  {
    if n == 0 then {} else Run(s, n - 1) + {s + n - 1}
  }

  /**
   * free: the blocks whose bit is clear; live: the length of each run handed out and not
   * yet returned, by its first block; used: the manager's own counter.
   */
  datatype Frames = Frames(free: set<nat>, live: map<nat, nat>, used: Word)

  ghost predicate LiveRunsDisjoint(live: map<nat, nat>) {
    forall s, t | s in live && t in live && s < t :: s + live[s] <= t
  }

  /** Live runs are non-empty, above the first bitmap word, marked used and pairwise disjoint. */
  ghost predicate Owned(free: set<nat>, live: map<nat, nat>) {
    && 0 !in free
    && (forall s | s in live :: 32 <= s && 1 <= live[s])
    && (forall s, b: nat | s in live && s <= b < s + live[s] :: b !in free)
    && LiveRunsDisjoint(live)
  }

  ghost predicate Inv(f: Frames) {
    Owned(f.free, f.live)
  }

  ghost predicate AllocStep(f: Frames, g: Frames, s: nat, n: nat) {
    && 1 <= n && 32 <= s
    && Run(s, n) <= f.free
    && g == Frames(f.free - Run(s, n), f.live[s := n], Wrap(f.used + n))
  }

  ghost predicate FreeStep(f: Frames, g: Frames, s: nat) {
    && s in f.live
    && g == Frames(f.free + Run(s, f.live[s]), f.live - {s}, Wrap(f.used - f.live[s]))
  }

  /**
   * A run the search is sure to find: the counter leaves room, and from a word boundary of the
   * searched words on n blocks are free.
   */
  ghost predicate Offers(f: Frames, max: Word, c: nat, n: nat) {
    1 <= n < Wrap(max - f.used) && c % 32 == 0 && 32 <= c < max / 32 * 32 && Run(c, n) <= f.free
  }

  ghost predicate NoOffer(f: Frames, max: Word, n: nat) {
    forall c: nat :: !Offers(f, max, c, n)
  }

  /** No such run starts below base. */
  ghost predicate FirstOffer(f: Frames, max: Word, base: nat, n: nat) {
    forall c: nat | Offers(f, max, c, n) :: base <= c
  }

  /** From block c on n blocks are sure to be found, and no run of n blocks starts earlier. */
  ghost predicate Lowest(f: Frames, max: Word, c: nat, n: nat) {
    Offers(f, max, c, n) && forall b: nat | b < c :: !(Run(b, n) <= f.free)
  }

  lemma LowestOfAll(f: Frames, max: Word, c: nat, n: nat)
    requires Offers(f, max, c, n) && forall b | b in f.free :: c <= b
    ensures Lowest(f, max, c, n)
  {
    forall b: nat | b < c ensures !(Run(b, n) <= f.free) {
      assert b in Run(b, n);
    }
  }

  lemma NotRefused(f: Frames, max: Word, c: nat, n: nat)
    requires Lowest(f, max, c, n)
    ensures !NoOffer(f, max, n)
  {
  }

  datatype Event = Alloc(start: nat, count: nat) | Release(start: nat)

  ghost predicate Step(f: Frames, e: Event, g: Frames) {
    match e
    case Alloc(s, n) => AllocStep(f, g, s, n)
    case Release(s) => FreeStep(f, g, s)
  }

  lemma AllocKeepsOwned(f: Frames, g: Frames, s: nat, n: nat)
    requires Inv(f) && AllocStep(f, g, s, n)
    ensures Inv(g)
    ensures s !in f.live
  {
    assert s in Run(s, n);
    forall t | t in f.live
      ensures t + f.live[t] <= s || s + n <= t
    {
      if t < s + n { assert t !in f.free && t !in Run(s, n); }
    }
  }

  lemma FreeKeepsOwned(f: Frames, g: Frames, s: nat)
    requires Inv(f) && FreeStep(f, g, s)
    ensures Inv(g)
  {
  }

  lemma {:induction false} RunSize(s: nat, n: nat)
    ensures |Run(s, n)| == n
  {
    if n == 0 {
    } else {
      RunSize(s, n - 1);
    }
  }

  /** used_blocks plus the number of free blocks, as a 32-bit value. */
  ghost function Balance(f: Frames): Word {
    Wrap(f.used + |f.free|)
  }

  lemma AllocKeepsBalance(f: Frames, g: Frames, s: nat, n: nat)
    requires AllocStep(f, g, s, n)
    ensures Balance(g) == Balance(f)
  {
    RunSize(s, n);
    var rest := f.free - Run(s, n);
    assert f.free == rest + Run(s, n);
    assert |rest| == |f.free| - n;
    WrapAdd(f.used + n, |rest|);
  }

  lemma FreeKeepsBalance(f: Frames, g: Frames, s: nat)
    requires Inv(f) && FreeStep(f, g, s)
    ensures Balance(g) == Balance(f)
  {
    var n := f.live[s];
    RunSize(s, n);
    assert Run(s, n) !! f.free;
    assert |f.free + Run(s, n)| == |f.free| + n;
    WrapAdd(f.used - n, |f.free| + n);
  }

  ghost predicate Trace(states: seq<Frames>, events: seq<Event>) {
    && |states| == |events| + 1
    && forall i | 0 <= i < |events| :: Step(states[i], events[i], states[i + 1])
  }

  /**
   * Ownership over whole runs: after any number of allocations and releases of live runs,
   * live runs are pairwise disjoint, no block of a live run is free, block 0 is not free,
   * and the counter differs from the number of used blocks by the same amount as at the start.
   */
  lemma {:induction false} OwnershipOverTraces(states: seq<Frames>, events: seq<Event>)
    requires Trace(states, events) && Inv(states[0])
    ensures forall i | 0 <= i < |states| :: Inv(states[i]) && Balance(states[i]) == Balance(states[0])
  {
    if |events| == 0 {
    } else {
      var k := |events| - 1;
      OwnershipOverTraces(states[..k + 1], events[..k]);
      assert Inv(states[..k + 1][k]) && Balance(states[..k + 1][k]) == Balance(states[0]);
      assert Step(states[k], events[k], states[k + 1]);
      match events[k] {
        case Alloc(s, n) =>
          AllocKeepsOwned(states[k], states[k + 1], s, n);
          AllocKeepsBalance(states[k], states[k + 1], s, n);
        case Release(s) =>
          FreeKeepsOwned(states[k], states[k + 1], s);
          FreeKeepsBalance(states[k], states[k + 1], s);
      }
      forall i | 0 <= i < |states|
        ensures Inv(states[i]) && Balance(states[i]) == Balance(states[0])
      {
        if i <= k { assert states[i] == states[..k + 1][i]; }
      }
    }
  }

  /**
   * Exclusive hand-out: while a run stays live, no allocation returns one of its blocks.
   */
  lemma NeverHandedOutTwice(states: seq<Frames>, events: seq<Event>, j: nat, s: nat)
    requires Trace(states, events) && Inv(states[0])
    requires j < |events| && s in states[j].live && events[j].Alloc?
    ensures Run(s, states[j].live[s]) !! Run(events[j].start, events[j].count)
  {
    OwnershipOverTraces(states, events);
    assert Inv(states[j]) && Step(states[j], events[j], states[j + 1]);
  }
}
