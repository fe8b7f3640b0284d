/** The brute-force longest-match search of `PngEncoder::find_longest_match`:
    for every back-distance up to 32768 it measures how far the bytes at
    `pos` repeat the bytes `distance` earlier, addressing the earlier bytes
    modulo `distance` so that a match may run into the bytes it copies. */
module Match {
  import opened Bytes

  const MAX_DISTANCE := 32768
  const MAX_MATCH := 258

  /** The longest match the search considers at `pos`: `min(258, |data| - pos)`. */
  function MaxLength(data: seq<byte>, pos: nat): nat
    requires pos <= |data|
  {
    Min(MAX_MATCH, |data| - pos)
  }

  /** `k % d` for a positive `d`, as repeated subtraction: the offset, within
      a window of `d` bytes, of the `k`-th byte a match reads. */
  function Wrap(k: nat, d: nat): (r: nat)
    requires d >= 1
    ensures r < d
    decreases k
  {
    if k < d then k else Wrap(k - d, d)
  }

  lemma {:induction false} WrapIsMod(k: nat, d: nat)
    requires d >= 1
    ensures Wrap(k, d) == k % d
    decreases k
  {
    if k >= d {
      WrapIsMod(k - d, d);
      var q, r := (k - d) / d, (k - d) % d;
      assert k - d == q * d + r;
      assert k == (q + 1) * d + r;
      ModUnique(k, d, q + 1, r);
    }
  }

  /** The remainder of a division is the one `r < d` with `k == q * d + r`. */
  lemma ModUnique(k: nat, d: nat, q: nat, r: nat)
    requires 1 <= d && r < d && k == q * d + r
    ensures k % d == r
  {
    var q2, r2 := k / d, k % d;
    assert k == q2 * d + r2;
    assert (q + 1) * d == q * d + d && (q2 + 1) * d == q2 * d + d;
    if q2 > q {
      MulMonotone(q + 1, q2, d);
    } else if q2 < q {
      MulMonotone(q2 + 1, q, d);
    }
  }

  /** The bytes `data[pos..pos + n]` repeat, with period `distance`, the
      `distance` bytes before `pos`. */
  ghost predicate RepeatsBack(data: seq<byte>, pos: nat, distance: nat, n: nat)
    requires 1 <= distance <= pos && pos + n <= |data|
  {
    forall k :: 0 <= k < n ==> data[pos - distance + Wrap(k, distance)] == data[pos + k]
  }

  /** The inner `while` loop: the match length at `distance`, counting on
      from `k` already-matched bytes. It stops at the first mismatch or at
      the cap. */
  function MatchFrom(data: seq<byte>, pos: nat, distance: nat, k: nat): (n: nat)
    requires 1 <= distance <= pos <= |data| && k <= MaxLength(data, pos)
    decreases MaxLength(data, pos) - k
  {
    if k < MaxLength(data, pos) && pos + k < |data| && data[pos - distance + Wrap(k, distance)] == data[pos + k]
    then MatchFrom(data, pos, distance, k + 1)
    else k
  }

  /** The match length at `distance`. */
  function MatchLength(data: seq<byte>, pos: nat, distance: nat): nat
    requires 1 <= distance <= pos <= |data|
  {
    MatchFrom(data, pos, distance, 0)
  }

  /** Counting on from `k`, the loop ends between `k` and the cap, exactly
      at the first mismatch after `k` or at the cap. */
  lemma {:induction false} MatchFromStopsAtMismatch(data: seq<byte>, pos: nat, distance: nat, k: nat)
    requires 1 <= distance <= pos <= |data| && k <= MaxLength(data, pos)
    ensures var n := MatchFrom(data, pos, distance, k);
      && k <= n <= MaxLength(data, pos)
      && (forall j :: k <= j < n ==> data[pos - distance + Wrap(j, distance)] == data[pos + j])
      && (n < MaxLength(data, pos) ==> data[pos - distance + Wrap(n, distance)] != data[pos + n])
    decreases MaxLength(data, pos) - k
  {
    if k < MaxLength(data, pos) && data[pos - distance + Wrap(k, distance)] == data[pos + k] {
      MatchFromStopsAtMismatch(data, pos, distance, k + 1);
    }
  }

  /** The match length at a distance is the longest repetition at that
      distance within the cap: it repeats, and no longer prefix does. */
  lemma MatchLengthIsLongest(data: seq<byte>, pos: nat, distance: nat, n: nat)
    requires 1 <= distance <= pos <= |data| && n <= MaxLength(data, pos)
    ensures n <= MatchLength(data, pos, distance) <==> RepeatsBack(data, pos, distance, n)
  {
    var m := MatchLength(data, pos, distance);
    MatchFromStopsAtMismatch(data, pos, distance, 0);
    if n > m {
      assert data[pos - distance + Wrap(m, distance)] != data[pos + m];
    }
  }

  /** The outer `for` loop after the distances `1..=maxDistance`: the pair
      `(best_distance, best_length)`. A later distance replaces the best only
      with a strictly longer match, so ties keep the smallest distance. */
  function BestUpTo(data: seq<byte>, pos: nat, maxDistance: nat): (r: (nat, nat))
    requires maxDistance <= pos <= |data|
    decreases maxDistance
  {
    if maxDistance == 0 then (0, 0)
    else
      var best := BestUpTo(data, pos, maxDistance - 1);
      var length := MatchLength(data, pos, maxDistance);
      if length > best.1 then (maxDistance, length) else best
  }

  /** The best pair is `(0, 0)` or a distance in `1..=maxDistance` with its
      match length, which is within the cap. */
  lemma {:induction false} BestUpToBounds(data: seq<byte>, pos: nat, maxDistance: nat)
    requires maxDistance <= pos <= |data|
    ensures var r := BestUpTo(data, pos, maxDistance);
      && r.1 <= MaxLength(data, pos)
      && (r.1 == 0 ==> r.0 == 0)
      && (r.1 > 0 ==> 1 <= r.0 <= maxDistance && r.1 == MatchLength(data, pos, r.0))
    decreases maxDistance
  {
    if maxDistance > 0 {
      BestUpToBounds(data, pos, maxDistance - 1);
      MatchFromStopsAtMismatch(data, pos, maxDistance, 0);
    }
  }

  /** No distance up to `maxDistance` matches longer than the best, and every
      distance before the best one matches strictly shorter. */
  lemma {:induction false} BestUpToIsBest(data: seq<byte>, pos: nat, maxDistance: nat)
    requires maxDistance <= pos <= |data|
    ensures var r := BestUpTo(data, pos, maxDistance);
      && (forall d :: 1 <= d <= maxDistance ==> MatchLength(data, pos, d) <= r.1)
      && (forall d :: 1 <= d < r.0 && d <= maxDistance ==> MatchLength(data, pos, d) < r.1)
    decreases maxDistance
  {
    if maxDistance > 0 {
      BestUpToIsBest(data, pos, maxDistance - 1);
      BestUpToBounds(data, pos, maxDistance - 1);
    }
  }

  /** What `find_longest_match(data, pos)` returns: the best over the
      distances `1..=min(pos, 32768)`. */
  function LongestMatch(data: seq<byte>, pos: nat): (r: (nat, nat))
    requires pos <= |data|
  {
    BestUpTo(data, pos, Min(pos, MAX_DISTANCE))
  }

  /** The result of the search: nothing at position 0; otherwise a distance
      within the window, a length within the cap, bytes that really repeat,
      no longer match at any distance in the window, and the smallest
      distance among the longest. */
  lemma LongestMatchSpec(data: seq<byte>, pos: nat)
    requires pos <= |data|
    ensures pos == 0 ==> LongestMatch(data, pos) == (0, 0)
    ensures var (d, l) := LongestMatch(data, pos);
      && l <= Min(MAX_MATCH, |data| - pos)
      && (l == 0 ==> d == 0)
      && (l > 0 ==> 1 <= d <= Min(pos, MAX_DISTANCE) && RepeatsBack(data, pos, d, l))
      && (forall d', n: nat :: 1 <= d' <= Min(pos, MAX_DISTANCE) && n <= MaxLength(data, pos) && RepeatsBack(data, pos, d', n) ==> n <= l)
      && (forall d' :: 1 <= d' < d ==> !RepeatsBack(data, pos, d', l))
  {
    var (d, l) := LongestMatch(data, pos);
    BestUpToBounds(data, pos, Min(pos, MAX_DISTANCE));
    BestUpToIsBest(data, pos, Min(pos, MAX_DISTANCE));
    if l > 0 {
      MatchLengthIsLongest(data, pos, d, l);
    }
    forall d', n: nat | 1 <= d' <= Min(pos, MAX_DISTANCE) && n <= MaxLength(data, pos) && RepeatsBack(data, pos, d', n)
      ensures n <= l
    {
      MatchLengthIsLongest(data, pos, d', n);
    }
    forall d' | 1 <= d' < d
      ensures !RepeatsBack(data, pos, d', l)
    {
      MatchLengthIsLongest(data, pos, d', l);
    }
  }

  /** `PngEncoder::find_longest_match`, with its nested loops. */
  method FindLongestMatch(data: seq<byte>, pos: nat) returns (bestDistance: nat, bestLength: nat)
    requires pos <= |data|
    ensures (bestDistance, bestLength) == LongestMatch(data, pos)
  {
    bestDistance, bestLength := 0, 0;
    var maxDistance := Min(pos, MAX_DISTANCE);
    var maxLength := Min(MAX_MATCH, |data| - pos);
    for distance := 1 to maxDistance + 1
      invariant (bestDistance, bestLength) == BestUpTo(data, pos, distance - 1)
    {
      var start := pos - distance;
      var length := 0;
      while length < maxLength && pos + length < |data| && data[start + length % distance] == data[pos + length]
        invariant length <= maxLength
        invariant Wrap(length, distance) == length % distance
        invariant MatchFrom(data, pos, distance, length) == MatchLength(data, pos, distance)
      {
        length := length + 1;
        WrapIsMod(length, distance);
      }
      assert length == MatchLength(data, pos, distance);
      if length > bestLength {
        bestLength := length;
        bestDistance := distance;
      }
      assert (bestDistance, bestLength) == BestUpTo(data, pos, distance);
    }
  }
}
