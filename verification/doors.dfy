/** The random helpers of src/maze/variant1_recursiveDivision.js: the preset table,
    even and odd picks with JavaScript's `%`, and `chooseDoors` (Fisher–Yates shuffle,
    greedy spaced picks, then uniform top-up picks). */
module Doors {
  import opened Grids
  import opened Prng

  // ---------------------------------------------------------------------------
  // Presets.

  datatype PresetName = A | B | C

  /** `PRESETS[presetName] || PRESETS.A` for a name that is not an inherited
      object property: "B" and "C" select their presets and any other such name
      falls back to A. A name such as "constructor" reads a truthy inherited
      property in the source instead, which this model does not represent. */
  function PresetByName(name: string): (p: PresetName)
    ensures name == "B" <==> p == B
    ensures name == "C" <==> p == C
  {
    if name == "B" then B else if name == "C" then C else A
  }

  function MinRectSize(p: PresetName): (n: nat)
    ensures n >= 5
  {
    match p
    case A => 7
    case B => 5
    case C => 7
  }

  function DoorMinSpacing(p: PresetName): nat {
    match p
    case A => 5
    case B => 3
    case C => 5
  }

  /** `preset.doorCount(depth)`: two doors near the top of the recursion, one below. */
  function DoorCount(p: PresetName, depth: nat): (n: nat)
    ensures n == 1 || n == 2
  {
    match p
    case A => if depth <= 2 then 2 else 1
    case B => if depth <= 1 then 2 else 1
    case C => if depth <= 3 then 2 else 1
  }

  /** `preset.extraDoors ? preset.extraDoors(depth, rng) : 0`: only preset C has the
      hook, and it draws only at depth 0 and 1 (`depth <= 1 && rng.next() < 0.25`). */
  function ExtraDoors(p: PresetName, depth: nat, rng: Rng): (r: (nat, Rng))
    ensures r.0 <= 1
    ensures p != C || depth > 1 ==> r == (0, rng)
    ensures p == C && depth <= 1 ==> r.1 == Next(rng).1 && (r.0 == 1 <==> Next(rng).0 < 0.25)
  {
    if p == C && depth <= 1 then
      var (u, rng') := Next(rng);
      (if u < 0.25 then 1 else 0, rng')
    else (0, rng)
  }

  // ---------------------------------------------------------------------------
  // Even and odd picks.

  predicate Even(n: int) {
    n % 2 == 0
  }

  predicate Odd(n: int) {
    n % 2 == 1
  }

  /** JavaScript's `n % 2`: the remainder takes the sign of n, so it is -1 for a
      negative odd n. */
  function JsRem2(n: int): (r: int)
    ensures Even(n) <==> r == 0
    ensures Odd(n) && n > 0 ==> r == 1
    ensures Odd(n) && n < 0 ==> r == -1
  {
    if n >= 0 then n % 2 else -((-n) % 2)
  }

  /** `min % 2 === 0 ? min : min + 1`: the least even value from n on. */
  function EvenAtOrAbove(n: int): (r: int)
    ensures Even(r) && n <= r <= n + 1
  {
    if JsRem2(n) == 0 then n else n + 1
  }

  /** `max % 2 === 0 ? max : max - 1`: the greatest even value up to n. */
  function EvenAtOrBelow(n: int): (r: int)
    ensures Even(r) && n - 1 <= r <= n
  {
    if JsRem2(n) == 0 then n else n - 1
  }

  /** `min % 2 === 1 ? min : min + 1`, the rounding `randomOddBetween` performs. */
  function OddAtOrAboveAsWritten(n: int): (r: int)
    ensures n >= 0 ==> Odd(r) && n <= r <= n + 1
    ensures n < 0 && Odd(n) ==> r == n + 1 && Even(r)
  {
    if JsRem2(n) == 1 then n else n + 1
  }

  /** `max % 2 === 1 ? max : max - 1`. */
  function OddAtOrBelowAsWritten(n: int): (r: int)
    ensures n >= 0 ==> Odd(r) && n - 1 <= r <= n
    ensures n < 0 && Odd(n) ==> r == n - 1 && Even(r)
  {
    if JsRem2(n) == 1 then n else n - 1
  }

  /** The least odd value from n on, for either sign of n. */
  function OddAtOrAbove(n: int): (r: int)
    ensures Odd(r) && n <= r <= n + 1
  {
    if JsRem2(n) != 0 then n else n + 1
  }

  /** The greatest odd value up to n, for either sign of n. */
  function OddAtOrBelow(n: int): (r: int)
    ensures Odd(r) && n - 1 <= r <= n
  {
    if JsRem2(n) != 0 then n else n - 1
  }

  /** Values two apart have the same parity. */
  lemma ParityShift(a: int, b: int)
    requires (b - a) % 2 == 0
    ensures Even(a) <==> Even(b)
    ensures Odd(a) <==> Odd(b)
  {
  }

  lemma DoubleStep(start: int, idx: int)
    ensures (start + idx * 2 - start) % 2 == 0
  {
  }

  /** The shared tail of both picks: `count = (end - start) / 2 + 1`, then
      `start + rng.int(0, count - 1) * 2`, or `null` without drawing when
      start > end. */
  function PickStep(rng: Rng, start: int, end: int): (r: (Option<int>, Rng))
    ensures start > end ==> r == (None, rng)
    ensures start <= end ==>
      r.0.Some? && start <= r.0.value <= end && r.1 == NextUint32(rng).1 &&
      (Even(r.0.value) <==> Even(start)) && (Odd(r.0.value) <==> Odd(start))
  {
    if start > end then (None, rng)
    else
      var count := (end - start) / 2 + 1;
      var (idx, rng') := IntBetween(rng, 0, count - 1);
      PickInRange(start, end, idx);
      DoubleStep(start, idx);
      ParityShift(start, start + idx * 2);
      (Some(start + idx * 2), rng')
  }

  /** An index below the number of values of the same parity as start in
      [start, end] stays within [start, end]. */
  lemma PickInRange(start: int, end: int, idx: int)
    requires start <= end && 0 <= idx <= (end - start) / 2
    ensures start <= start + idx * 2 <= end
  {
  }

  /** When the rounded ends cross, the range holds no even value. */
  lemma NoEvenBetween(min: int, max: int)
    requires EvenAtOrAbove(min) > EvenAtOrBelow(max)
    ensures forall e :: min <= e <= max ==> !Even(e)
  {
  }

  /** When the rounded ends cross, the range holds no odd value. */
  lemma NoOddBetween(min: int, max: int)
    requires OddAtOrAbove(min) > OddAtOrBelow(max)
    ensures forall e :: min <= e <= max ==> !Odd(e)
  {
  }

  /** `randomEvenBetween(rng, min, max)`: round min up and max down to even values and
      draw one of the even values between them, or `null` without drawing. */
  function RandomEvenBetween(rng: Rng, min: int, max: int): (r: (Option<int>, Rng))
    ensures r.0.None? <==> !exists e :: min <= e <= max && Even(e)
    ensures r.0.None? ==> r.1 == rng
    ensures r.0.Some? ==> min <= r.0.value <= max && Even(r.0.value) && r.1 == NextUint32(rng).1
  {
    var start := EvenAtOrAbove(min);
    var end := EvenAtOrBelow(max);
    var r := PickStep(rng, start, end);
    if r.0.Some? then r
    else
      NoEvenBetween(min, max);
      r
  }

  /** `randomOddBetween(rng, min, max)` as written: the tests `min % 2 === 1` and
      `max % 2 === 1` are false for negative odd values, whose remainder is -1. */
  function RandomOddBetweenAsWritten(rng: Rng, min: int, max: int): (r: (Option<int>, Rng))
    ensures r.0.Some? ==> min <= r.0.value <= max
  {
    PickStep(rng, OddAtOrAboveAsWritten(min), OddAtOrBelowAsWritten(max))
  }

  /** On [-3, -1] the as-written pick rounds both ends to -2 and returns that even
      value, although -3 and -1 are odd values in range. */
  lemma OddPickReturnsEven(rng: Rng)
    ensures RandomOddBetweenAsWritten(rng, -3, -1).0 == Some(-2)
    ensures exists e :: -3 <= e <= -1 && Odd(e)
  {
    assert OddAtOrAboveAsWritten(-3) == -2 && OddAtOrBelowAsWritten(-1) == -2;
    assert Odd(-1);
  }

  /** For a non-negative min the as-written pick is the intended one: the two differ
      only on ranges that start below zero. */
  lemma OddPickAgreesFromZero(rng: Rng, min: int, max: int)
    requires min >= 0
    ensures RandomOddBetweenAsWritten(rng, min, max) == RandomOddBetween(rng, min, max)
  {
    assert OddAtOrAboveAsWritten(min) == OddAtOrAbove(min);
    if max >= 0 {
      assert OddAtOrBelowAsWritten(max) == OddAtOrBelow(max);
    }
  }

  /** `randomOddBetween` with an oddness test that holds for negative values too. */
  function RandomOddBetween(rng: Rng, min: int, max: int): (r: (Option<int>, Rng))
    ensures r.0.None? <==> !exists e :: min <= e <= max && Odd(e)
    ensures r.0.None? ==> r.1 == rng
    ensures r.0.Some? ==> min <= r.0.value <= max && Odd(r.0.value) && r.1 == NextUint32(rng).1
  {
    var start := OddAtOrAbove(min);
    var end := OddAtOrBelow(max);
    var r := PickStep(rng, start, end);
    if r.0.Some? then r
    else
      NoOddBetween(min, max);
      r
  }

  // ---------------------------------------------------------------------------
  // `chooseDoors`.

  function Swap(s: seq<int>, i: int, j: int): (r: seq<int>)
    requires 0 <= i < |s| && 0 <= j < |s|
    ensures |r| == |s| && multiset(r) == multiset(s)
    ensures r[i] == s[j] && r[j] == s[i]
    ensures forall k :: 0 <= k < |s| && k != i && k != j ==> r[k] == s[k]
  {
    s[i := s[j]][j := s[i]]
  }

  /** The Fisher–Yates loop from index i down to 1: swap slot i with a slot drawn from
      [0, i]. */
  function ShuffleFrom(rng: Rng, s: seq<int>, i: int): (r: (seq<int>, Rng))
    requires i < |s|
    decreases i
    ensures multiset(r.0) == multiset(s) && |r.0| == |s|
  {
    if i <= 0 then (s, rng)
    else
      var (j, rng') := IntBetween(rng, 0, i);
      ShuffleFrom(rng', Swap(s, i, j), i - 1)
  }

  function Abs(x: int): nat {
    if x < 0 then -x else x
  }

  /** `chosen.every((c) => Math.abs(c - pos) >= minSpacing)`. */
  predicate FarFrom(chosen: seq<int>, pos: int, minSpacing: int) {
    forall i :: 0 <= i < |chosen| ==> Abs(chosen[i] - pos) >= minSpacing
  }

  /** Every two picks are at least minSpacing apart. */
  predicate Spaced(s: seq<int>, minSpacing: int) {
    forall i, j :: 0 <= i < j < |s| ==> Abs(s[i] - s[j]) >= minSpacing
  }

  /** The `for (const pos of shuffled)` loop: keep a position that is far enough from
      everything kept so far, until count positions are kept. */
  function GreedyPick(shuffled: seq<int>, count: int, minSpacing: int, chosen: seq<int>): (r: seq<int>)
    requires Spaced(chosen, minSpacing)
    decreases |shuffled|
    ensures Spaced(r, minSpacing)
    ensures chosen <= r
    ensures forall k :: |chosen| <= k < |r| ==> r[k] in shuffled
    ensures |r| <= |chosen| + |shuffled|
    ensures |r| > |chosen| ==> |r| <= count
    ensures |chosen| == 0 < count && |shuffled| > 0 ==> |r| > 0
  {
    if |shuffled| == 0 || |chosen| >= count then chosen
    else
      var pos := shuffled[0];
      if FarFrom(chosen, pos, minSpacing) then
        var next := chosen + [pos];
        assert Spaced(next, minSpacing);
        var r := GreedyPick(shuffled[1..], count, minSpacing, next);
        r
      else
        GreedyPick(shuffled[1..], count, minSpacing, chosen)
  }

  /** The `while (chosen.length < count && positions.length > 0)` loop: top up with
      uniform picks from the unshuffled positions. */
  function FillDoors(rng: Rng, positions: seq<int>, chosen: seq<int>, count: int): (r: (seq<int>, Rng))
    decreases count - |chosen|
    ensures |positions| == 0 || |chosen| >= count ==> r == (chosen, rng)
    ensures |positions| > 0 && |chosen| < count ==> |r.0| == count
    ensures chosen <= r.0
    ensures forall k :: |chosen| <= k < |r.0| ==> r.0[k] in positions
  {
    if |chosen| >= count || |positions| == 0 then (chosen, rng)
    else
      var (k, rng') := IntBetween(rng, 0, |positions| - 1);
      var next := chosen + [positions[k]];
      var r := FillDoors(rng', positions, next, count);
      r
  }

  /** The first phase of `chooseDoors`: shuffle a copy of the positions, then keep
      the shuffled positions greedily. The picks are positions, pairwise at least
      minSpacing apart, at most count of them, and at least one when there is a
      position and a door to place. */
  function FirstPhase(rng: Rng, positions: seq<int>, count: nat, minSpacing: int): (r: (seq<int>, Rng))
    ensures Spaced(r.0, minSpacing)
    ensures forall k :: 0 <= k < |r.0| ==> r.0[k] in positions
    ensures |r.0| <= count
    ensures |positions| > 0 && count > 0 ==> |r.0| > 0
  {
    var (shuffled, rng1) := ShuffleFrom(rng, positions, |positions| - 1);
    var picked := GreedyPick(shuffled, count, minSpacing, []);
    assert forall k :: 0 <= k < |picked| ==> picked[k] in multiset(shuffled);
    (picked, rng1)
  }

  /** `chooseDoors(rng, positions, count, minSpacing)`. Every door is one of the
      positions; there are exactly count of them unless there is no position at all;
      and the picks of the first phase come first and are pairwise spaced. */
  function ChooseDoors(rng: Rng, positions: seq<int>, count: nat, minSpacing: int): (r: (seq<int>, Rng))
    ensures forall k :: 0 <= k < |r.0| ==> r.0[k] in positions
    ensures |positions| == 0 ==> r.0 == []
    ensures |positions| > 0 ==> |r.0| == count
    ensures var picked := FirstPhase(rng, positions, count, minSpacing).0;
      && picked <= r.0 && Spaced(picked, minSpacing)
      && (|positions| > 0 && count > 0 ==> |picked| > 0)
  {
    var (picked, rng1) := FirstPhase(rng, positions, count, minSpacing);
    FillDoors(rng1, positions, picked, count)
  }
}
