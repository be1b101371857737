/** Counting events that keep a minimum distance from each other. */
module Spacing {

  /** Nanoseconds since Go's zero time. */
  type Time = nat

  /** The stamps of the events at these positions. */
  function StampsAt<E>(h: seq<E>, stamp: E -> Time, positions: seq<nat>): (stamps: seq<Time>)
    requires forall n | 0 <= n < |positions| :: positions[n] < |h|
    ensures |stamps| == |positions| && forall n | 0 <= n < |positions| :: stamps[n] == stamp(h[positions[n]])
  {
    seq(|positions|, n requires 0 <= n < |positions| => stamp(h[positions[n]]))
  }

  ghost predicate Spaced(stamps: seq<int>, gap: int) {
    forall i | 0 < i < |stamps| :: stamps[i - 1] + gap <= stamps[i]
  }

  lemma {:induction false} SpacedSpan(stamps: seq<int>, gap: int)
    requires Spaced(stamps, gap) && stamps != []
    ensures (|stamps| - 1) * gap <= stamps[|stamps| - 1] - stamps[0]
  {
    if |stamps| <= 1 {
    } else {
      var init := stamps[..|stamps| - 1];
      SpacedSpan(init, gap);
      assert (|stamps| - 1) * gap == (|init| - 1) * gap + gap;
    }
  }

  lemma QuotientBound(n: int, gap: int, length: int)
    requires gap > 0 && n * gap <= length
    ensures n <= length / gap
  {
    var q := length / gap;
    assert (q + 1) * gap == q * gap + gap > length;
    assert (n - q - 1) * gap == n * gap - (q + 1) * gap;
  }

  /** A window of a given length holds at most length / gap + 1 of them. */
  lemma SpacedCount(stamps: seq<int>, gap: int, start: int, length: nat)
    requires gap > 0 && Spaced(stamps, gap)
    requires forall i | 0 <= i < |stamps| :: start <= stamps[i] <= start + length
    ensures |stamps| <= length / gap + 1
  {
    if stamps != [] {
      SpacedSpan(stamps, gap);
      QuotientBound(|stamps| - 1, gap, length);
    }
  }
}
