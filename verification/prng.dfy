/** The seeded generator of src/prng.js: a Mulberry32 mixer over one 32-bit state.
    The generator object of the source becomes an immutable `Rng` value; every draw
    takes an `Rng` and returns the drawn value together with the advanced `Rng`. */
module Prng {
  import opened Grids

  newtype u32 = x: int | 0 <= x < 0x1_0000_0000

  const Modulus: int := 0x1_0000_0000
  /** The Weyl increment added to the state on every draw. */
  const Increment: int := 0x6D2B79F5

  /** A JavaScript number after `Number(seed)`: either not finite (NaN, Infinity)
      or a finite value. */
  datatype SeedInput = NonFinite | Finite(value: real)

  /** The whole generator state. */
  datatype Rng = Rng(state: u32)

  /** Truncation toward zero, the first step of the `>>> 0` conversion. */
  function Trunc(r: real): int {
    if r >= 0.0 then r.Floor else -((-r).Floor)
  }

  /** `num >>> 0`: truncate, then reduce modulo 2^32 into [0, 2^32). */
  function NormalizeSeed(seed: SeedInput): (r: u32)
    ensures seed.NonFinite? ==> r == 0
    ensures seed.Finite? ==> (r as int - Trunc(seed.value)) % Modulus == 0
    ensures seed.Finite? && 0.0 <= seed.value < Modulus as real ==> r as int == seed.value.Floor
  {
    match seed
    case NonFinite => 0
    case Finite(v) => (Trunc(v) % Modulus) as u32
  }

  /** A value that is already an unsigned 32-bit integer normalises to itself; this is
      why `createRng(subSeed)` starts exactly at the drawn sub-seed. */
  lemma NormalizeU32(n: u32)
    ensures NormalizeSeed(Finite(n as int as real)) == n
  {
  }

  function CreateRng(seed: SeedInput): (r: Rng)
    ensures r.state == NormalizeSeed(seed)
  {
    Rng(NormalizeSeed(seed))
  }

  /** `(state + 0x6d2b79f5) >>> 0` */
  function Advance(state: u32): u32 {
    ((state as int + Increment) % Modulus) as u32
  }

  function Pow2(n: nat): (r: nat)
    ensures r > 0
  {
    if n == 0 then 1 else 2 * Pow2(n - 1)
  }

  lemma {:induction false} Pow2Add(a: nat, b: nat)
    decreases a
    ensures Pow2(a + b) == Pow2(a) * Pow2(b)
  {
    if a > 0 {
      Pow2Add(a - 1, b);
    }
  }

  lemma Pow2Of32()
    ensures Pow2(32) == Modulus
  {
    assert Pow2(4) == 16;
    Pow2Add(4, 4);
    Pow2Add(8, 8);
    Pow2Add(16, 16);
  }

  /** Bitwise xor of the low n bits of a and b. */
  function Xor(a: nat, b: nat, n: nat): (r: nat)
    ensures r < Pow2(n)
  {
    if n == 0 then 0 else (if a % 2 == b % 2 then 0 else 1) + 2 * Xor(a / 2, b / 2, n - 1)
  }

  /** Bitwise or of the low n bits of a and b. */
  function Or(a: nat, b: nat, n: nat): (r: nat)
    ensures r < Pow2(n)
  {
    if n == 0 then 0 else (if a % 2 == 1 || b % 2 == 1 then 1 else 0) + 2 * Or(a / 2, b / 2, n - 1)
  }

  /** `Math.imul(a, b)` read as an unsigned word: the low 32 bits of the product. */
  function Imul(a: nat, b: nat): (r: nat)
    ensures r < Modulus
  {
    (a * b) % Modulus
  }

  /** The output function on 32-bit words held as unsigned integers; `>>>` by k is
      division by 2^k. The signed values JavaScript holds between the steps have the
      same 32 bits, and `^`, `|` and `Math.imul` look only at those bits. In
      `t ^= t + Math.imul(...)` JavaScript adds two signed 32-bit values exactly and
      `^` then keeps the low 32 bits of the sum, which is the sum modulo 2^32 (see
      `WrappedSum`). */
  function Mix(state: u32): u32 {
    Pow2Of32();
    MixRounds(state as int, 3) as u32
  }

  /** The word after the first k of the three rounds of `Mix`. */
  function MixRounds(t: nat, k: nat): (r: nat)
    decreases k
    ensures k > 0 ==> r < Pow2(32)
  {
    if k == 0 then t
    else
      var p := MixRounds(t, k - 1);
      if k == 1 then
        Pow2Of32();
        Imul(Xor(p, p / 0x8000, 32), Or(p, 1, 32))
      else if k == 2 then Xor(p, (p + Imul(Xor(p, p / 0x80, 32), Or(p, 61, 32))) % Modulus, 32)
      else Xor(p, p / 0x4000, 32)
  }

  /** ToInt32 of the ECMAScript specification, on integers. */
  function ToInt32(n: int): (r: int)
    ensures -0x8000_0000 <= r < 0x8000_0000
    ensures (r - n) % Modulus == 0
  {
    var u := n % Modulus;
    if u >= 0x8000_0000 then u - Modulus else u
  }

  /** Adding the signed 32-bit readings of two values and wrapping the exact sum with
      ToInt32 gives the wrapped sum of the values themselves: the wrapped addition
      in `Mix` is the JavaScript one. */
  lemma WrappedSum(a: int, b: int)
    ensures ToInt32(ToInt32(a) + ToInt32(b)) == ToInt32(a + b)
  {
    var a' := ToInt32(a);
    var b' := ToInt32(b);
    assert (a' + b' - (a + b)) % Modulus == 0 by {
      ModSum(a' - a, b' - b);
    }
    ToInt32Congruent(a' + b', a + b);
  }

  lemma ModSum(p: int, q: int)
    requires p % Modulus == 0 && q % Modulus == 0
    ensures (p + q) % Modulus == 0
  {
    var k := p / Modulus;
    var l := q / Modulus;
    assert p == k * Modulus;
    assert q == l * Modulus;
    assert p + q == (k + l) * Modulus;
  }

  lemma ToInt32Congruent(m: int, n: int)
    requires (m - n) % Modulus == 0
    ensures ToInt32(m) == ToInt32(n)
  {
    var k := (m - n) / Modulus;
    assert m == n + k * Modulus;
    ModShift(n, k);
  }

  lemma ModShift(n: int, k: int)
    ensures (n + k * Modulus) % Modulus == n % Modulus
  {
    var q := n / Modulus;
    var r := n % Modulus;
    assert n + k * Modulus == (q + k) * Modulus + r;
  }

  /** `nextUint32()`: advance the state, then mix it. */
  function NextUint32(rng: Rng): (r: (u32, Rng))
    ensures r.1.state == Advance(rng.state)
  {
    var s := Advance(rng.state);
    (Mix(s), Rng(s))
  }

  /** `next()`: the same draw scaled into [0, 1). Dividing a 32-bit integer by 2^32
      is exact in a double, so the real quotient is the value the source computes. */
  function Next(rng: Rng): (r: (real, Rng))
    ensures 0.0 <= r.0 < 1.0
    ensures r.1 == NextUint32(rng).1
    ensures r.0 * Modulus as real == NextUint32(rng).0 as real
  {
    var (u, rng') := NextUint32(rng);
    (u as real / Modulus as real, rng')
  }

  /** `intBetween(min, max)`: `min + nextUint32() % (max - min + 1)`, or `min`
      without drawing when the range is empty. */
  function IntBetween(rng: Rng, min: int, max: int): (r: (int, Rng))
    ensures max < min ==> r == (min, rng)
    ensures min <= max ==> min <= r.0 <= max && r.1 == NextUint32(rng).1
  {
    if max < min then (min, rng)
    else
      var (u, rng') := NextUint32(rng);
      (min + u as int % (max - min + 1), rng')
  }

  /** `choice(arr)`: no element and no draw for an empty array, otherwise the element
      at `intBetween(0, length - 1)`. */
  function Choice<T>(rng: Rng, arr: seq<T>): (r: (Option<T>, Rng))
    ensures |arr| == 0 ==> r == (None, rng)
    ensures |arr| > 0 ==> r.0.Some? && r.0.value in arr && r.1 == NextUint32(rng).1
  {
    if |arr| == 0 then (None, rng)
    else
      var (i, rng') := IntBetween(rng, 0, |arr| - 1);
      (Some(arr[i]), rng')
  }

  /** The generator after n draws of any kind (each draw advances the state once). */
  function AfterDraws(rng: Rng, n: nat): Rng
    decreases n
  {
    if n == 0 then rng else AfterDraws(Rng(Advance(rng.state)), n - 1)
  }

  /** One more draw after n draws is n + 1 draws. */
  lemma {:induction false} AfterDrawsStep(rng: Rng, n: nat)
    decreases n
    ensures AfterDraws(rng, n + 1) == NextUint32(AfterDraws(rng, n)).1
  {
    if n > 0 {
      AfterDrawsStep(Rng(Advance(rng.state)), n - 1);
    }
  }

  /** The first n values of `nextUint32()`. */
  function Draws(rng: Rng, n: nat): (r: seq<u32>)
    decreases n
    ensures |r| == n
  {
    if n == 0 then [] else [NextUint32(rng).0] + Draws(NextUint32(rng).1, n - 1)
  }

  /** After n draws the state is the seed plus n increments modulo 2^32. */
  lemma {:induction false} StateClosedForm(rng: Rng, n: nat)
    decreases n
    ensures AfterDraws(rng, n).state as int == (rng.state as int + n * Increment) % Modulus
  {
    if n > 0 {
      var s := rng.state as int;
      StateClosedForm(Rng(Advance(rng.state)), n - 1);
      assert AfterDraws(rng, n).state as int == ((s + Increment) % Modulus + (n - 1) * Increment) % Modulus;
      ModAddShift(s, Increment, (n - 1) * Increment);
      assert s + Increment + (n - 1) * Increment == s + n * Increment;
    }
  }

  /** Draw k is the draw made by the generator that has already made k draws: with
      `StateClosedForm` the stream is a function of the seed alone. */
  lemma {:induction false} DrawsFollowStates(rng: Rng, n: nat, k: nat)
    requires k < n
    decreases k
    ensures Draws(rng, n)[k] == NextUint32(AfterDraws(rng, k)).0
  {
    if k > 0 {
      var rng1 := NextUint32(rng).1;
      DrawsFollowStates(rng1, n - 1, k - 1);
      assert Draws(rng, n)[k] == Draws(rng1, n - 1)[k - 1];
    }
  }

  lemma ModAddShift(s: int, a: int, b: int)
    ensures ((s + a) % Modulus + b) % Modulus == (s + a + b) % Modulus
  {
    var q := (s + a) / Modulus;
    assert (s + a) % Modulus + b == s + a + b + (-q) * Modulus;
    ModShift(s + a + b, -q);
  }

  /** Two generators created from seeds with equal normalised value produce the same
      stream of any length. */
  lemma SameSeedSameStream(a: SeedInput, b: SeedInput, n: nat)
    requires NormalizeSeed(a) == NormalizeSeed(b)
    ensures Draws(CreateRng(a), n) == Draws(CreateRng(b), n)
    ensures AfterDraws(CreateRng(a), n) == AfterDraws(CreateRng(b), n)
  {
  }
}
