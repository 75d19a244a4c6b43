/** The pure checks of tests/runGoldenTests.js: the FNV-1a hash of a grid's wall
    pattern rendered as eight hex digits, the open-cell count behind `openPct`, and
    the matching rules of `comparePair`. */
module Golden {
  import opened Grids
  import opened Prng

  // ---------------------------------------------------------------------------
  // FNV-1a over the wall pattern.

  const FnvOffsetBasis: nat := 2166136261
  const FnvPrime: nat := 16777619

  /** The byte a cell contributes: 0x01 for a wall (exactly 1), 0x00 for anything else. */
  function CellByte(v: int): (b: nat)
    ensures b <= 1
    ensures b == 1 <==> v == Wall
  {
    if v == Wall then 1 else 0
  }

  function RowBytes(row: seq<int>): (r: seq<nat>)
    ensures |r| == |row|
    ensures forall i :: 0 <= i < |row| ==> r[i] == CellByte(row[i])
  {
    seq(|row|, i requires 0 <= i < |row| => CellByte(row[i]))
  }

  /** The bytes of all cells in row-major order. */
  function WallBytes(g: seq<seq<int>>): seq<nat> {
    if |g| == 0 then [] else WallBytes(g[..|g| - 1]) + RowBytes(g[|g| - 1])
  }

  /** One round: xor the byte into the low bits, then `Math.imul` by the prime and
      `>>> 0`. The source's `^=` yields a signed value, but `Math.imul` reads only its
      32 bits, which are the unsigned ones used here. */
  function FnvStep(h: nat, b: nat): (r: nat)
    ensures r < Modulus
  {
    Imul(Xor(h, b, 32), FnvPrime)
  }

  /** The hash state h folded with the bytes bs from the first to the last. */
  function HashFrom(h: nat, bs: seq<nat>): (r: nat)
    requires h < Modulus
    ensures r < Modulus
  {
    if |bs| == 0 then h else FnvStep(HashFrom(h, bs[..|bs| - 1]), bs[|bs| - 1])
  }

  /** The hash of a byte sequence: the offset basis folded with `FnvStep`. */
  function HashBytes(bs: seq<nat>): (r: nat)
    ensures r < Modulus
  {
    HashFrom(FnvOffsetBasis, bs)
  }

  lemma {:induction false} HashFromConcat(h: nat, a: seq<nat>, b: seq<nat>)
    requires h < Modulus
    decreases |b|
    ensures HashFrom(h, a + b) == HashFrom(HashFrom(h, a), b)
  {
    if |b| == 0 {
      assert a + b == a;
    } else {
      assert (a + b)[..|a + b| - 1] == a + b[..|b| - 1];
      HashFromConcat(h, a, b[..|b| - 1]);
    }
  }

  lemma HashStep(h: nat, bs: seq<nat>, b: nat)
    requires h < Modulus
    ensures HashFrom(h, bs + [b]) == FnvStep(HashFrom(h, bs), b)
  {
    assert (bs + [b])[..|bs|] == bs;
  }

  lemma {:induction false} RowBytesPrefix(row: seq<int>, x: int)
    requires 0 <= x < |row|
    ensures RowBytes(row[..x + 1]) == RowBytes(row[..x]) + [CellByte(row[x])]
  {
    assert RowBytes(row[..x + 1]) == RowBytes(row[..x]) + [CellByte(row[x])] by {
      var a := RowBytes(row[..x + 1]);
      var b := RowBytes(row[..x]) + [CellByte(row[x])];
      assert |a| == |b|;
      forall i | 0 <= i < |a| ensures a[i] == b[i] {
        assert row[..x + 1][i] == row[i];
      }
    }
  }

  lemma WallBytesAppend(g: seq<seq<int>>, y: int)
    requires 0 <= y < |g|
    ensures WallBytes(g[..y + 1]) == WallBytes(g[..y]) + RowBytes(g[y])
  {
    assert g[..y + 1][..y] == g[..y];
  }

  /** The inner loop of `fnv1a32GridHash`: one row folded into the hash. */
  method HashRow(h0: nat, row: seq<int>) returns (h: nat)
    requires h0 < Modulus
    ensures h == HashFrom(h0, RowBytes(row))
  {
    h := h0;
    var x := 0;
    while x < |row|
      invariant 0 <= x <= |row|
      invariant h == HashFrom(h0, RowBytes(row[..x]))
    {
      var value := if row[x] == 1 then 1 else 0;
      RowBytesPrefix(row, x);
      HashStep(h0, RowBytes(row[..x]), value);
      h := FnvStep(h, value);
      x := x + 1;
    }
    assert row[..x] == row;
  }

  /** The nested loops of `fnv1a32GridHash`, with the numeric hash as result. */
  method Fnv1a32GridHash(g: Grid) returns (h: nat)
    requires IsGrid(g)
    ensures h == HashBytes(WallBytes(g))
    ensures h < Modulus
  {
    h := FnvOffsetBasis;
    var y := 0;
    while y < |g|
      invariant 0 <= y <= |g|
      invariant h == HashBytes(WallBytes(g[..y]))
    {
      h := HashRow(h, g[y]);
      WallBytesAppend(g, y);
      HashFromConcat(FnvOffsetBasis, WallBytes(g[..y]), RowBytes(g[y]));
      y := y + 1;
    }
    assert g[..y] == g;
  }

  /** Grids of the same shape with walls in the same places have the same bytes, and
      so the same hash: the hash depends on the wall pattern only. */
  lemma {:induction false} SameWallsSameBytes(g1: seq<seq<int>>, g2: seq<seq<int>>)
    requires |g1| == |g2|
    requires forall y :: 0 <= y < |g1| ==> |g1[y]| == |g2[y]|
    requires forall y, x :: 0 <= y < |g1| && 0 <= x < |g1[y]| ==> (g1[y][x] == Wall <==> g2[y][x] == Wall)
    decreases |g1|
    ensures WallBytes(g1) == WallBytes(g2)
    ensures HashBytes(WallBytes(g1)) == HashBytes(WallBytes(g2))
  {
    if |g1| > 0 {
      var n := |g1| - 1;
      SameWallsSameBytes(g1[..n], g2[..n]);
      assert RowBytes(g1[n]) == RowBytes(g2[n]);
    }
  }

  // ---------------------------------------------------------------------------
  // Rendering: `hash.toString(16).padStart(8, "0")`.

  /** A lowercase hex digit. */
  predicate IsHexDigit(c: char) {
    '0' <= c <= '9' || 'a' <= c <= 'f'
  }

  function HexDigit(d: nat): (c: char)
    requires d < 16
    ensures IsHexDigit(c)
  {
    if d < 10 then ('0' as int + d) as char else ('a' as int + d - 10) as char
  }

  /** The value of a lowercase hex digit. */
  function DigitValue(c: char): (d: nat)
    requires IsHexDigit(c)
    ensures d < 16 && HexDigit(d) == c
  {
    if '0' <= c <= '9' then (c as int - '0' as int) else (c as int - 'a' as int) + 10
  }

  predicate IsHex(s: string) {
    forall i :: 0 <= i < |s| ==> IsHexDigit(s[i])
  }

  /** `n.toString(16)`: the lowercase digits of n with no leading zero. */
  function ToHexString(n: nat): (r: string)
    decreases n
    ensures |r| > 0 && IsHex(r)
    ensures r[0] == '0' ==> n == 0 && |r| == 1
  {
    if n < 16 then [HexDigit(n)]
    else ToHexString(n / 16) + [HexDigit(n % 16)]
  }

  /** `s.padStart(k, "0")`. */
  function PadStart(s: string, k: nat): (r: string)
    ensures |r| == if |s| >= k then |s| else k
    ensures r[|r| - |s|..] == s
    ensures forall i :: 0 <= i < |r| - |s| ==> r[i] == '0'
  {
    if |s| >= k then s else seq(k - |s|, _ => '0') + s
  }

  /** Reading a hex string back, most significant digit first. */
  function ParseHex(s: string): nat
    requires IsHex(s)
  {
    if |s| == 0 then 0 else 16 * ParseHex(s[..|s| - 1]) + DigitValue(s[|s| - 1])
  }

  function Pow16(k: nat): nat {
    if k == 0 then 1 else 16 * Pow16(k - 1)
  }

  /** The rendered hash: exactly eight lowercase hex digits that read back as the hash. */
  function ToHex8(h: nat): (r: string)
    requires h < Modulus
    ensures |r| == 8 && IsHex(r)
    ensures ParseHex(r) == h
  {
    HexRoundTrip(h);
    HexLength(h, 8);
    Pow16Of8();
    var s := ToHexString(h);
    var r := PadStart(s, 8);
    LeadingZeros(8 - |s|, s);
    r
  }

  lemma Pow16Of8()
    ensures Pow16(8) == Modulus
  {
    assert Pow16(4) == 0x1_0000;
  }

  lemma {:induction false} HexRoundTrip(n: nat)
    decreases n
    ensures ParseHex(ToHexString(n)) == n
  {
    var s := ToHexString(n);
    if n >= 16 {
      HexRoundTrip(n / 16);
      assert s[..|s| - 1] == ToHexString(n / 16);
      assert ParseHex(s) == 16 * (n / 16) + n % 16;
    }
  }

  lemma {:induction false} HexLength(n: nat, k: nat)
    requires 0 < k && n < Pow16(k)
    decreases k
    ensures |ToHexString(n)| <= k
  {
    if n >= 16 {
      HexLength(n / 16, k - 1);
    }
  }

  /** Leading zeros do not change the value read. */
  lemma {:induction false} LeadingZeros(z: nat, s: string)
    requires IsHex(s)
    decreases |s|
    ensures IsHex(seq(z, _ => '0') + s)
    ensures ParseHex(seq(z, _ => '0') + s) == ParseHex(s)
  {
    var zs: string := seq(z, _ => '0');
    if |s| == 0 {
      assert zs + s == zs;
      ZerosReadZero(z);
    } else {
      var t := zs + s;
      var u := s[..|s| - 1];
      assert IsHex(t) by {
        forall i | 0 <= i < |t| ensures IsHexDigit(t[i]) {
          if i < z {
            assert t[i] == '0';
          } else {
            assert t[i] == s[i - z];
          }
        }
      }
      assert t[..|t| - 1] == zs + u;
      assert t[|t| - 1] == s[|s| - 1];
      LeadingZeros(z, u);
      assert ParseHex(t) == 16 * ParseHex(zs + u) + DigitValue(s[|s| - 1]);
    }
  }

  lemma {:induction false} ZerosReadZero(z: nat)
    decreases z
    ensures IsHex(seq(z, _ => '0'))
    ensures ParseHex(seq(z, _ => '0')) == 0
  {
    if z > 0 {
      assert seq(z, _ => '0')[..z - 1] == seq(z - 1, _ => '0');
      ZerosReadZero(z - 1);
    }
  }

  /** Two hashes render alike exactly when they are equal. */
  lemma RenderingInjective(a: nat, b: nat)
    requires a < Modulus && b < Modulus
    ensures ToHex8(a) == ToHex8(b) <==> a == b
  {
  }

  // ---------------------------------------------------------------------------
  // The open-cell count behind `computeOpenPct`.

  lemma {:induction false} CountRowAppend(row: seq<int>, x: int, v: int)
    decreases |row|
    ensures CountRow(row + [x], v) == CountRow(row, v) + (if x == v then 1 else 0)
  {
    if |row| > 0 {
      assert (row + [x])[1..] == row[1..] + [x];
      CountRowAppend(row[1..], x, v);
    }
  }

  lemma {:induction false} CountMatrixAppend(m: seq<seq<int>>, r: seq<int>, v: int)
    decreases |m|
    ensures CountMatrix(m + [r], v) == CountMatrix(m, v) + CountRow(r, v)
  {
    if |m| > 0 {
      assert (m + [r])[1..] == m[1..] + [r];
      CountMatrixAppend(m[1..], r, v);
    }
  }

  lemma {:induction false} CountRowBound(row: seq<int>, v: int)
    decreases |row|
    ensures CountRow(row, v) <= |row|
  {
    if |row| > 0 {
      CountRowBound(row[1..], v);
    }
  }

  lemma {:induction false} CountMatrixBound(m: seq<seq<int>>, w: nat, v: int)
    requires forall y :: 0 <= y < |m| ==> |m[y]| == w
    decreases |m|
    ensures CountMatrix(m, v) <= |m| * w
  {
    if |m| > 0 {
      CountRowBound(m[0], v);
      CountMatrixBound(m[1..], w, v);
      assert |m| * w == w + |m[1..]| * w;
    }
  }

  /** The rows of m, one after another. */
  function Flatten(m: seq<seq<int>>): seq<int> {
    if |m| == 0 then [] else m[0] + Flatten(m[1..])
  }

  lemma {:induction false} CountRowIsMultiplicity(row: seq<int>, v: int)
    decreases |row|
    ensures CountRow(row, v) == multiset(row)[v]
  {
    if |row| > 0 {
      assert row == [row[0]] + row[1..];
      CountRowIsMultiplicity(row[1..], v);
    }
  }

  /** The recursive count agrees with the multiplicity of v among all entries. */
  lemma {:induction false} CountIsMultiplicity(m: seq<seq<int>>, v: int)
    decreases |m|
    ensures CountMatrix(m, v) == multiset(Flatten(m))[v]
  {
    if |m| > 0 {
      CountRowIsMultiplicity(m[0], v);
      CountIsMultiplicity(m[1..], v);
    }
  }

  /** The nested loops of `computeOpenPct` up to the division: the number of cells
      equal to 0. */
  method CountOpen(g: Grid) returns (open: nat)
    requires IsGrid(g)
    ensures open == multiset(Flatten(g))[Open]
    ensures open <= Width(g) * Height(g)
  {
    open := 0;
    var y := 0;
    while y < |g|
      invariant 0 <= y <= |g|
      invariant open == CountMatrix(g[..y], Open)
    {
      var x := 0;
      while x < |g[y]|
        invariant 0 <= x <= |g[y]|
        invariant open == CountMatrix(g[..y], Open) + CountRow(g[y][..x], Open)
      {
        CountRowAppend(g[y][..x], g[y][x], Open);
        assert g[y][..x + 1] == g[y][..x] + [g[y][x]];
        if g[y][x] == 0 {
          open := open + 1;
        }
        x := x + 1;
      }
      CountMatrixAppend(g[..y], g[y], Open);
      assert g[y][..x] == g[y];
      assert g[..y + 1] == g[..y] + [g[y]];
      y := y + 1;
    }
    assert g[..y] == g;
    CountIsMultiplicity(g, Open);
    CountMatrixBound(g, Width(g), Open);
  }

  // ---------------------------------------------------------------------------
  // `comparePair`.

  /** The JavaScript values the comparison meets. Numbers are reals (no NaN); arrays
      are fresh objects, so two of them are never `===`. */
  datatype JsValue = Undefined | Null | Num(n: real) | Str(s: string) | Arr(items: seq<JsValue>)

  predicate StrictEquals(a: JsValue, b: JsValue) {
    !a.Arr? && !b.Arr? && a == b
  }

  /** `v[i]`: an array element or a one-character string, `undefined` otherwise. */
  function Index(v: JsValue, i: nat): JsValue
    requires !v.Undefined? && !v.Null?
  {
    match v
    case Arr(items) => if i < |items| then items[i] else Undefined
    case Str(s) => if i < |s| then Str([s[i]]) else Undefined
    case _ => Undefined
  }

  predicate Scalar(v: JsValue) {
    v.Num? || v.Str?
  }

  function Abs(x: real): real {
    if x < 0.0 then -x else x
  }

  /** Whether `comparePair(label, actual, expected)` (the label is `field` here) pushes a diff. The source reads
      `actual[0]` when the expectation is an array, which throws for an undefined or
      null actual value; its one call with the label "openPct" passes a number.
      Numbers are exact reals: the `openPct` tolerance test is not rounded to
      doubles. */
  function ComparePair(field: string, actual: JsValue, expected: JsValue): (diff: bool)
    requires expected.Arr? ==> !actual.Undefined? && !actual.Null?
    requires field == "openPct" && expected.Num? ==> actual.Num?
    ensures expected.Undefined? || expected.Null? ==> !diff
    ensures (expected.Arr? && |expected.items| >= 2 && Scalar(expected.items[0]) && Scalar(expected.items[1]) &&
             actual.Arr? && |actual.items| >= 2) ==>
      (diff <==> expected.items[..2] != actual.items[..2])
    ensures field == "openPct" && expected.Num? && actual.Num? ==>
      (diff <==> Abs(expected.n - actual.n) > 0.0001)
    ensures Scalar(expected) && !(field == "openPct" && expected.Num?) ==> (diff <==> expected != actual)
  {
    if expected.Undefined? || expected.Null? then false
    else if expected.Arr? then
      !StrictEquals(Index(expected, 0), Index(actual, 0)) || !StrictEquals(Index(expected, 1), Index(actual, 1))
    else if expected.Num? && field == "openPct" then
      Abs(expected.n - actual.n) > 0.0001
    else !StrictEquals(expected, actual)
  }
}
