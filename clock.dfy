/** The clock (second-chance) sweep shared by the simulator's two clocks: the one
    over TLB reference bits (`add_to_tlb`) and the one over frame `chance` bits.
    A hand starts at a slot; while the slot's bit is set it clears the bit and moves
    one slot forward (wrapping round); it stops at the first slot whose bit is clear. */
module Clock {

  /** The slot `j` steps ahead of `hand` on a clock of `n` slots (`(hand + j) % n`). */
  function Slot(n: nat, hand: nat, j: nat): (s: nat)
    requires hand < n && j <= n
    ensures s < n
  {
    if hand + j < n then hand + j else hand + j - n
  }

  /** How far slot `i` lies ahead of `hand` on a clock of `n` slots (`(i - hand) % n`). */
  function Ahead(n: nat, hand: nat, i: nat): (d: nat)
    requires hand < n && i < n
    ensures d < n
    ensures Slot(n, hand, d) == i
  {
    if hand <= i then i - hand else i + n - hand
  }

  /** The number of slots the hand clears, starting at `hand` and having already
      passed `j` slots. */
  function SweepFrom(bits: seq<bool>, hand: nat, j: nat): (k: nat)
    requires hand < |bits| && j <= |bits|
    ensures j <= k <= |bits|
    ensures forall i :: j <= i < k ==> bits[Slot(|bits|, hand, i)]
    ensures k < |bits| ==> !bits[Slot(|bits|, hand, k)]
    decreases |bits| - j
  {
    if j == |bits| || !bits[Slot(|bits|, hand, j)] then j
    else SweepFrom(bits, hand, j + 1)
  }

  /** The number of slots a full sweep from `hand` clears before it stops: every
      slot it passes had its bit set, and it stops at the first clear one. When all
      bits are set it goes once round, clearing all of them, and stops where it began. */
  function SweepLength(bits: seq<bool>, hand: nat): (k: nat)
    requires hand < |bits|
    ensures k <= |bits|
    ensures forall i :: 0 <= i < k ==> bits[Slot(|bits|, hand, i)]
    ensures k < |bits| ==> !bits[Slot(|bits|, hand, k)]
  {
    SweepFrom(bits, hand, 0)
  }

  /** The slot at which the sweep stops: the victim. */
  function Stop(bits: seq<bool>, hand: nat): (v: nat)
    requires hand < |bits|
    ensures v < |bits|
  {
    Slot(|bits|, hand, SweepLength(bits, hand))
  }

  /** The bits after the sweep: every slot the hand passed over is cleared. */
  function Swept(bits: seq<bool>, hand: nat): (r: seq<bool>)
    requires hand < |bits|
    ensures |r| == |bits|
  {
    var k := SweepLength(bits, hand);
    seq(|bits|, i requires 0 <= i < |bits| => if Ahead(|bits|, hand, i) < k then false else bits[i])
  }

  /** The sweep always ends on a slot whose bit is clear once it has passed, it
      only ever clears bits, and the slot it stops at is the first clear slot at or
      after `hand` (or `hand` itself after a full turn). */
  lemma {:induction false} SweepStopsOnClearSlot(bits: seq<bool>, hand: nat)
    requires hand < |bits|
    ensures !Swept(bits, hand)[Stop(bits, hand)]
    ensures forall i :: 0 <= i < |bits| && Swept(bits, hand)[i] ==> bits[i]
    ensures SweepLength(bits, hand) < |bits| ==> !bits[Stop(bits, hand)]
    ensures SweepLength(bits, hand) == |bits| ==> Stop(bits, hand) == hand && forall i :: 0 <= i < |bits| ==> !Swept(bits, hand)[i]
  {
    var n, k := |bits|, SweepLength(bits, hand);
    if k < n {
      assert Ahead(n, hand, Stop(bits, hand)) == k;
    } else {
      assert Ahead(n, hand, Stop(bits, hand)) == 0;
    }
  }
}
