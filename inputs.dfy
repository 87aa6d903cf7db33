/** Edge-detecting key latches (src/main.rs:62-86) and the six latches the
    game reads (src/main.rs:322-351). */
module Inputs {

  /** One logical key: `curr` is the raw state written since the last tick,
      `prev` the state the key had when the previous tick ended. */
  class Latch {
    var prev: bool
    var curr: bool

    constructor ()
      ensures !prev && !curr
    {
      prev, curr := false, false;
    }

    /** Record the raw key state; the last write before a tick wins. */
    method Set(value: bool)
      modifies this
      ensures curr == value && prev == old(prev)
    {
      curr := value;
    }

    /** The key went down since the last tick: it changed, and it is now pressed. */
    predicate FrontEdge(): (b: bool)
      reads this
      ensures b <==> curr != prev && curr
    {
      curr && !prev
    }

    /** End of a logic tick: remember the current state. */
    method Tick()
      modifies this
      ensures prev == old(curr) && curr == old(curr)
    {
      prev := curr;
    }
  }

  /** The front edges a latch reports when, starting with `prev` remembered,
      each tick sets it to the next sample, reads `FrontEdge` and ticks. */
  function EdgeTrace(prev: bool, samples: seq<bool>): (edges: seq<bool>)
    ensures |edges| == |samples|
    decreases samples
  {
    if samples == [] then [] else [samples[0] && !prev] + EdgeTrace(samples[0], samples[1..])
  }

  /** The sample before tick `k`: the remembered state for the first tick. */
  function Before(prev: bool, samples: seq<bool>, k: nat): bool
    requires k < |samples|
  {
    if k == 0 then prev else samples[k - 1]
  }

  /** On tick `k` the edge is seen exactly when the key is down now and was up the tick before. */
  lemma {:induction false} EdgeTraceAt(prev: bool, samples: seq<bool>, k: nat)
    requires k < |samples|
    ensures EdgeTrace(prev, samples)[k] == (samples[k] && !Before(prev, samples, k))
    decreases k
  {
    if k > 0 {
      EdgeTraceAt(samples[0], samples[1..], k - 1);
    }
  }

  /** A key pressed on tick `i` and held through tick `j - 1` produces one
      front edge, on tick `i`, and none on the ticks it stays held. */
  lemma HeldKeyFiresOnce(prev: bool, samples: seq<bool>, i: nat, j: nat)
    requires i < j <= |samples|
    requires !Before(prev, samples, i)
    requires forall k :: i <= k < j ==> samples[k]
    ensures EdgeTrace(prev, samples)[i]
    ensures forall k :: i < k < j ==> !EdgeTrace(prev, samples)[k]
  {
    EdgeTraceAt(prev, samples, i);
    forall k | i < k < j
      ensures !EdgeTrace(prev, samples)[k]
    {
      EdgeTraceAt(prev, samples, k);
    }
  }

  /** A key that is up on a tick never reports a front edge on it. */
  lemma ReleasedKeyNoEdge(prev: bool, samples: seq<bool>, k: nat)
    requires k < |samples| && !samples[k]
    ensures !EdgeTrace(prev, samples)[k]
  {
    EdgeTraceAt(prev, samples, k);
  }

  /** Drive one latch through `samples` the way the game loop does on every
      logic tick: set the raw state, read the front edge, tick. */
  method TrackKey(latch: Latch, samples: seq<bool>) returns (edges: seq<bool>)
    modifies latch
    ensures edges == EdgeTrace(old(latch.prev), samples)
    ensures samples != [] ==> latch.prev == latch.curr == samples[|samples| - 1]
  {
    ghost var prev0 := latch.prev;
    edges := [];
    var i := 0;
    while i < |samples|
      invariant 0 <= i <= |samples|
      invariant i > 0 ==> latch.prev == latch.curr == samples[i - 1]
      invariant edges + EdgeTrace(latch.prev, samples[i..]) == EdgeTrace(prev0, samples)
    {
      ghost var p := latch.prev;
      ghost var before := edges;
      latch.Set(samples[i]);
      var edge := latch.FrontEdge();
      assert edge == (samples[i] && !p);
      edges := edges + [edge];
      latch.Tick();
      EdgeTraceStep(before, p, samples, i);
      i := i + 1;
    }
    assert samples[i..] == [];
  }

  /** Reporting the edge of tick `i` moves it from the rest of the trace to the edges seen. */
  lemma EdgeTraceStep(edges: seq<bool>, prev: bool, samples: seq<bool>, i: nat)
    requires i < |samples|
    ensures (edges + [samples[i] && !prev]) + EdgeTrace(samples[i], samples[i + 1..]) ==
            edges + EdgeTrace(prev, samples[i..])
  {
    assert samples[i..][1..] == samples[i + 1..];
  }

  /** The six logical buttons of the game (`Input`). */
  class Input {
    const escape: Latch
    const enter: Latch
    const up: Latch
    const left: Latch
    const down: Latch
    const right: Latch

    /** The six latches are six distinct objects. */
    ghost predicate Valid() {
      escape != enter && escape != up && escape != left && escape != down && escape != right &&
      enter != up && enter != left && enter != down && enter != right &&
      up != left && up != down && up != right &&
      left != down && left != right &&
      down != right
    }

    constructor ()
      ensures Valid()
      ensures fresh(escape) && fresh(enter) && fresh(up) && fresh(left) && fresh(down) && fresh(right)
      ensures !escape.prev && !escape.curr && !enter.prev && !enter.curr
      ensures !up.prev && !up.curr && !left.prev && !left.curr
      ensures !down.prev && !down.curr && !right.prev && !right.curr
    {
      escape := new Latch();
      enter := new Latch();
      up := new Latch();
      left := new Latch();
      down := new Latch();
      right := new Latch();
    }

    /** End of a logic tick for every latch. */
    method Tick()
      requires Valid()
      modifies escape, enter, up, left, down, right
      ensures escape.prev == old(escape.curr) && escape.curr == old(escape.curr)
      ensures enter.prev == old(enter.curr) && enter.curr == old(enter.curr)
      ensures up.prev == old(up.curr) && up.curr == old(up.curr)
      ensures left.prev == old(left.curr) && left.curr == old(left.curr)
      ensures down.prev == old(down.curr) && down.curr == old(down.curr)
      ensures right.prev == old(right.curr) && right.curr == old(right.curr)
    {
      escape.Tick();
      enter.Tick();
      up.Tick();
      left.Tick();
      down.Tick();
      right.Tick();
    }
  }
}
