// A model of the 64-bit FarmHash port in Circus.Core/hash (farmhashna,
// farmhashuo and farmhashxo variants). Bytes are `bv8`, words are `bv64`, so
// every `+`, `*` and `-` on a word wraps modulo 2^64 exactly as `uint64_t`
// does. A `const char* s` with a `size_t len` is modelled by the byte sequence
// `s` whose length is `len`; pointer offsets become indices into `s`.
//
// Dafny's bit-vector operators `&`, `|` and `^` bind tighter than `*` and
// `+`, and `<<`/`>>` looser, so every mixed expression below is fully
// parenthesised in the order of the C++ source.

module FarmhashDetail {

  const K0: bv64 := 0xc3a5c85c97cb3127
  const K1: bv64 := 0xb492b66fbe98f273
  const K2: bv64 := 0x9ae16a3b2f90404f
  const KMUL: bv64 := 0x9ddfea08eb382d69

  const TWO64: int := 0x1_0000_0000_0000_0000

  /** `uint128_t`: a pair of 64-bit halves, low first. */
  datatype Uint128 = Uint128(lo: bv64, hi: bv64)

  /** `std::pair<uint64_t, uint64_t>` as returned by WeakHashLen32WithSeeds. */
  datatype Pair = Pair(first: bv64, second: bv64)

  /** A `size_t` value converted to a word (the conversion C++ does implicitly). */
  function Len(n: nat): bv64
  {
    (n % TWO64) as bv64
  }

  function Hash128to64(x: Uint128): bv64
  {
    var a0 := (x.lo ^ x.hi) * KMUL;
    var a := a0 ^ (a0 >> 47);
    var b0 := (x.hi ^ a) * KMUL;
    var b1 := b0 ^ (b0 >> 47);
    b1 * KMUL
  }

  function BasicRotate64(val: bv64, shift: int): bv64
    requires 0 <= shift < 64
  {
    if shift == 0 then val else (val >> shift) | (val << (64 - shift))
  }

  /** Rotation by zero is the identity, and every rotation amount the hash
    * functions use is a right rotation. */
  lemma RotateIsRightRotation(v: bv64)
    ensures BasicRotate64(v, 0) == v
    ensures BasicRotate64(v, 18) == v.RotateRight(18)
    ensures BasicRotate64(v, 20) == v.RotateRight(20)
    ensures BasicRotate64(v, 21) == v.RotateRight(21)
    ensures BasicRotate64(v, 25) == v.RotateRight(25)
    ensures BasicRotate64(v, 26) == v.RotateRight(26)
    ensures BasicRotate64(v, 28) == v.RotateRight(28)
    ensures BasicRotate64(v, 29) == v.RotateRight(29)
    ensures BasicRotate64(v, 30) == v.RotateRight(30)
    ensures BasicRotate64(v, 31) == v.RotateRight(31)
    ensures BasicRotate64(v, 32) == v.RotateRight(32)
    ensures BasicRotate64(v, 33) == v.RotateRight(33)
    ensures BasicRotate64(v, 34) == v.RotateRight(34)
    ensures BasicRotate64(v, 37) == v.RotateRight(37)
    ensures BasicRotate64(v, 42) == v.RotateRight(42)
    ensures BasicRotate64(v, 43) == v.RotateRight(43)
    ensures BasicRotate64(v, 44) == v.RotateRight(44)
  {
  }

  /** Little-endian 32-bit read of s[i..i+4) (the DLL targets x64). */
  function Fetch32(s: seq<bv8>, i: nat): bv32
    requires i + 4 <= |s|
  {
    (s[i] as bv32)
    | ((s[i + 1] as bv32) << 8)
    | ((s[i + 2] as bv32) << 16)
    | ((s[i + 3] as bv32) << 24)
  }

  /** Little-endian 64-bit read of s[i..i+8). */
  function Fetch64(s: seq<bv8>, i: nat): bv64
    requires i + 8 <= |s|
  {
    (s[i] as bv64)
    | ((s[i + 1] as bv64) << 8)
    | ((s[i + 2] as bv64) << 16)
    | ((s[i + 3] as bv64) << 24)
    | ((s[i + 4] as bv64) << 32)
    | ((s[i + 5] as bv64) << 40)
    | ((s[i + 6] as bv64) << 48)
    | ((s[i + 7] as bv64) << 56)
  }

  /** A 64-bit fetch depends only on the eight bytes it covers. */
  lemma Fetch64Local(s: seq<bv8>, t: seq<bv8>, i: nat)
    requires i + 8 <= |s| && i + 8 <= |t|
    requires s[i..i + 8] == t[i..i + 8]
    ensures Fetch64(s, i) == Fetch64(t, i)
  {
    assert forall k | i <= k < i + 8 :: s[k] == s[i..i + 8][k - i];
    assert forall k | i <= k < i + 8 :: t[k] == t[i..i + 8][k - i];
  }

  /** A 32-bit fetch depends only on the four bytes it covers. */
  lemma Fetch32Local(s: seq<bv8>, t: seq<bv8>, i: nat)
    requires i + 4 <= |s| && i + 4 <= |t|
    requires s[i..i + 4] == t[i..i + 4]
    ensures Fetch32(s, i) == Fetch32(t, i)
  {
    assert forall k | i <= k < i + 4 :: s[k] == s[i..i + 4][k - i];
    assert forall k | i <= k < i + 4 :: t[k] == t[i..i + 4][k - i];
  }

  /** The low half of a 64-bit fetch is the 32-bit fetch at the same place. */
  lemma Fetch64LowIsFetch32(s: seq<bv8>, i: nat)
    requires i + 8 <= |s|
    ensures Fetch64(s, i) & 0xffff_ffff == Fetch32(s, i) as bv64
  {
  }
}

/** farmhashna: the base 64-bit variant. */
module Farmn {
  import opened FarmhashDetail

  function ShiftMix(val: bv64): bv64
  {
    val ^ (val >> 47)
  }

  /** The two-argument HashLen16. */
  function HashLen16(u: bv64, v: bv64): bv64
  {
    Hash128to64(Uint128(u, v))
  }

  /** The three-argument HashLen16 with an explicit multiplier. */
  function HashLen16Mul(u: bv64, v: bv64, mul: bv64): bv64
  {
    var a0 := (u ^ v) * mul;
    var a := a0 ^ (a0 >> 47);
    var b0 := (v ^ a) * mul;
    var b1 := b0 ^ (b0 >> 47);
    b1 * mul
  }

  /** Lengths 8 to 16: mixes the first and the last eight bytes. */
  function Mix8to16(first: bv64, last: bv64, len: bv64): bv64
  {
    var mul := K2 + (len * 2);
    var a := first + K2;
    var b := last;
    var c := (BasicRotate64(b, 37) * mul) + a;
    var d := (BasicRotate64(a, 25) + b) * mul;
    HashLen16Mul(c, d, mul)
  }

  /** `a << 3` with the 32-bit fetch first widened to `uint64_t`, so none of
    * its bits are lost: shifting back gives the fetch, and the three bits
    * shifted in are clear. */
  function Times8(first: bv32): (r: bv64)
    ensures r >> 3 == first as bv64
    ensures r & 7 == 0
  {
    var a: bv64 := first as bv64;
    a << 3
  }

  /** The fetch 0x20000000 of the bytes 00 00 00 20 shifts to 2^32. */
  lemma Times8Carries()
    ensures Times8(0x2000_0000) == 0x1_0000_0000
  {
  }

  /** Lengths 4 to 7: mixes the first and the last four bytes. */
  function Mix4to7(first: bv32, last: bv32, len: bv64): bv64
  {
    var mul := K2 + (len * 2);
    HashLen16Mul(len + Times8(first), last as bv64, mul)
  }

  /** Lengths 1 to 3: mixes three sampled bytes. The length is at most 3, so
    * `len + (c << 2)` fits the `uint32_t` it is stored in. */
  function Mix1to3(a: bv8, b: bv8, c: bv8, len: bv32): bv64
  {
    var y: bv32 := (a as bv32) + ((b as bv32) << 8);
    var z: bv32 := len + ((c as bv32) << 2);
    ShiftMix(((y as bv64) * K2) ^ ((z as bv64) * K0)) * K2
  }

  function HashLen0to16(s: seq<bv8>): bv64
  {
    var len := |s|;
    if len >= 8 then
      Mix8to16(Fetch64(s, 0), Fetch64(s, len - 8), Len(len))
    else if len >= 4 then
      Mix4to7(Fetch32(s, 0), Fetch32(s, len - 4), Len(len))
    else if len > 0 then
      Mix1to3(s[0], s[len / 2], s[len - 1], len as bv32)
    else
      K2
  }

  /** An empty input hashes to k2. */
  lemma HashLen0to16Empty(s: seq<bv8>)
    requires |s| == 0
    ensures HashLen0to16(s) == 0x9ae16a3b2f90404f
  {
  }

  /** Lengths 1 to 3 sample only the first, middle and last byte (and the
    * length). */
  lemma HashLen0to16Samples(s: seq<bv8>)
    requires 1 <= |s| <= 3
    ensures HashLen0to16(s) == Mix1to3(s[0], s[|s| / 2], s[|s| - 1], |s| as bv32)
  {
  }

  /** Lengths 4 to 7 read only the first four and the last four bytes. */
  lemma HashLen0to16Reads4(s: seq<bv8>, t: seq<bv8>)
    requires 4 <= |s| < 8 && |t| == |s|
    requires s[..4] == t[..4] && s[|s| - 4..] == t[|s| - 4..]
    ensures HashLen0to16(s) == HashLen0to16(t)
  {
    Fetch32Local(s, t, 0);
    Fetch32Local(s, t, |s| - 4);
  }

  /** Lengths 8 to 16 read only the first eight and the last eight bytes. */
  lemma HashLen0to16Reads8(s: seq<bv8>, t: seq<bv8>)
    requires 8 <= |s| <= 16 && |t| == |s|
    requires s[..8] == t[..8] && s[|s| - 8..] == t[|s| - 8..]
    ensures HashLen0to16(s) == HashLen0to16(t)
  {
    Fetch64Local(s, t, 0);
    Fetch64Local(s, t, |s| - 8);
  }

  function HashLen17to32(s: seq<bv8>): bv64
    requires |s| >= 16
  {
    var len := |s|;
    var mul := K2 + (Len(len) * 2);
    var a := Fetch64(s, 0) * K1;
    var b := Fetch64(s, 8);
    var c := Fetch64(s, len - 8) * mul;
    var d := Fetch64(s, len - 16) * K2;
    HashLen16Mul(BasicRotate64(a + b, 43) + BasicRotate64(c, 30) + d,
                 a + BasicRotate64(b + K2, 18) + c, mul)
  }

  function WeakHashLen32WithSeeds(w: bv64, x: bv64, y: bv64, z: bv64, a: bv64, b: bv64): Pair
  {
    var a1 := a + w;
    var b1 := BasicRotate64(b + a1 + z, 21);
    var c := a1;
    var a2 := a1 + x + y;
    var b2 := b1 + BasicRotate64(a2, 44);
    Pair(a2 + z, b2 + c)
  }

  /** The overload reading its four words from s[p..p+32). */
  function WeakHashLen32WithSeedsAt(s: seq<bv8>, p: nat, a: bv64, b: bv64): Pair
    requires p + 32 <= |s|
  {
    WeakHashLen32WithSeeds(Fetch64(s, p), Fetch64(s, p + 8), Fetch64(s, p + 16), Fetch64(s, p + 24), a, b)
  }

  function HashLen33to64(s: seq<bv8>): bv64
    requires |s| >= 32
  {
    var len := |s|;
    Mix33to64(Fetch64(s, 0), Fetch64(s, 8), Fetch64(s, 16), Fetch64(s, 24),
              Fetch64(s, len - 32), Fetch64(s, len - 24), Fetch64(s, len - 16), Fetch64(s, len - 8),
              Len(len))
  }

  /** The mixing step of HashLen33to64 over the words it reads: the four at
    * offsets 0, 8, 16, 24 and the four at len-32, len-24, len-16, len-8. */
  function Mix33to64(f0: bv64, f8: bv64, f16: bv64, f24: bv64,
                     l32: bv64, l24: bv64, l16: bv64, l8: bv64, len: bv64): bv64
  {
    var mul := K2 + (len * 2);
    var a := f0 * K2;
    var b := f8;
    var c := l8 * mul;
    var d := l16 * K2;
    var y := BasicRotate64(a + b, 43) + BasicRotate64(c, 30) + d;
    var z := HashLen16Mul(y, a + BasicRotate64(b + K2, 18) + c, mul);
    var e := f16 * mul;
    var f := f24;
    var g := (y + l32) * mul;
    var h := (z + l24) * mul;
    HashLen16Mul(BasicRotate64(e + f, 43) + BasicRotate64(g, 30) + h,
                 e + BasicRotate64(f + a, 18) + g, mul)
  }

  /** The rolling state of the block loop: x, y, z and the pairs v, w. */
  datatype State = State(x: bv64, y: bv64, z: bv64, v: Pair, w: Pair)

  const SEED: bv64 := 81

  /** The state before the first block. */
  function Init(s: seq<bv8>): State
    requires |s| >= 8
  {
    var y := (SEED * K1) + 113;
    var z := ShiftMix((y * K2) + 113) * K2;
    State((SEED * K2) + Fetch64(s, 0), y, z, Pair(0, 0), Pair(0, 0))
  }

  /** One pass of the loop body over the block s[p..p+64), ending with swap(z, x). */
  function Round(st: State, s: seq<bv8>, p: nat): State
    requires p + 64 <= |s|
  {
    var x1 := BasicRotate64(st.x + st.y + st.v.first + Fetch64(s, p + 8), 37) * K1;
    var y1 := BasicRotate64(st.y + st.v.second + Fetch64(s, p + 48), 42) * K1;
    var x2 := x1 ^ st.w.second;
    var y2 := y1 + st.v.first + Fetch64(s, p + 40);
    var z1 := BasicRotate64(st.z + st.w.first, 33) * K1;
    var v := WeakHashLen32WithSeedsAt(s, p, st.v.second * K1, x2 + st.w.first);
    var w := WeakHashLen32WithSeedsAt(s, p + 32, z1 + st.w.second, y2 + Fetch64(s, p + 16));
    State(z1, y2, x2, v, w)
  }

  /** The state after the first k blocks s[0..64), ..., s[64(k-1)..64k). */
  function Blocks(st: State, s: seq<bv8>, k: nat): State
    requires 64 * k <= |s|
  {
    if k == 0 then st else Round(Blocks(st, s, k - 1), s, 64 * (k - 1))
  }

  method Step(st: State, s: seq<bv8>, k: nat, ghost st0: State) returns (st': State)
    requires 64 * (k + 1) <= |s|
    requires st == Blocks(st0, s, k)
    ensures st' == Blocks(st0, s, k + 1)
  {
    BlocksStep(st0, s, k);
    st' := Round(st, s, 64 * k);
  }

  /** One more block is one more Round. */
  lemma BlocksStep(st: State, s: seq<bv8>, k: nat)
    requires 64 * (k + 1) <= |s|
    ensures Blocks(st, s, k + 1) == Round(Blocks(st, s, k), s, 64 * k)
  {
  }

  lemma BlockCountBounds(len: nat)
    requires len > 64
    ensures 1 <= (len - 1) / 64 && 64 * ((len - 1) / 64) < len
  {
  }

  /** Block accounting shared by the farmn and farmu loops: `end` is
    * ((len-1)/64)*64, the loop covers [0, end) in at least one 64-byte block,
    * and `last64` = end + ((len-1) & 63) - 63 is len - 64. The final block
    * [len-64, len) starts inside the last loop block or right at `end`, so it
    * overlaps instead of padding, and it covers the bytes [end, len). */
  lemma BlockAccounting(len: nat)
    requires len > 64
    ensures var end := (len - 1) / 64 * 64;
            var last64 := end + (len - 1) % 64 - 63;
            && (len - 1) / 64 >= 1
            && last64 == len - 64
            && end - 64 < last64 <= end < len
  {
  }

  function Finish(st: State, s: seq<bv8>): bv64
    requires |s| > 64
  {
    var len := |s|;
    var mul := K1 + ((st.z & 0xff) << 1);
    var p := len - 64;
    var w1 := st.w.first + Len((len - 1) % 64);
    var v1 := st.v.first + w1;
    var w2 := w1 + v1;
    var x1 := BasicRotate64(st.x + st.y + v1 + Fetch64(s, p + 8), 37) * mul;
    var y1 := BasicRotate64(st.y + st.v.second + Fetch64(s, p + 48), 42) * mul;
    var x2 := x1 ^ (st.w.second * 9);
    var y2 := y1 + (v1 * 9) + Fetch64(s, p + 40);
    var z1 := BasicRotate64(st.z + w2, 33) * mul;
    var v := WeakHashLen32WithSeedsAt(s, p, st.v.second * mul, x2 + w2);
    var w := WeakHashLen32WithSeedsAt(s, p + 32, z1 + st.w.second, y2 + Fetch64(s, p + 16));
    // swap(z, x): z is now x2 and x is z1
    HashLen16Mul(HashLen16Mul(v.first, w.first, mul) + (ShiftMix(y2) * K0) + x2,
                 HashLen16Mul(v.second, w.second, mul) + z1, mul)
  }

  function Hash64(s: seq<bv8>): bv64
  {
    if |s| <= 32 then
      if |s| <= 16 then HashLen0to16(s) else HashLen17to32(s)
    else if |s| <= 64 then
      HashLen33to64(s)
    else
      Hash64Long(s)
  }

  function Hash64Long(s: seq<bv8>): bv64
    requires |s| > 64
  {
    Finish(Blocks(Init(s), s, (|s| - 1) / 64), s)
  }

  /** The length dispatch of farmn::Hash64. */
  lemma Hash64Tiers(s: seq<bv8>)
    ensures |s| <= 16 ==> Hash64(s) == HashLen0to16(s)
    ensures 16 < |s| <= 32 ==> Hash64(s) == HashLen17to32(s)
    ensures 32 < |s| <= 64 ==> Hash64(s) == HashLen33to64(s)
    ensures 64 < |s| ==> Hash64(s) == Hash64Long(s)
  {
  }

  /** farmn::Hash64 as the source writes it: the length dispatch, then a
    * do-while over 64-byte blocks, then the final (overlapping) block. */
  method ComputeHash64(s: seq<bv8>) returns (r: bv64)
    ensures r == Hash64(s)
  {
    Hash64Tiers(s);
    var len := |s|;
    if len <= 32 {
      if len <= 16 {
        return HashLen0to16(s);
      } else {
        return HashLen17to32(s);
      }
    } else if len <= 64 {
      return HashLen33to64(s);
    }
    r := ComputeHash64Long(s);
  }

  /** The part of farmn::Hash64 for inputs over 64 bytes. */
  method ComputeHash64Long(s: seq<bv8>) returns (r: bv64)
    requires |s| > 64
    ensures r == Hash64Long(s)
  {
    var len := |s|;
    BlockCountBounds(len);
    var st := BlockLoop(s, Init(s), (len - 1) / 64);
    r := Finish(st, s);
  }

  /** The do-while of farmn::Hash64 for inputs over 64 bytes: n blocks, each
    * replacing the state words by one Round, from the initial state `st0`. */
  method BlockLoop(s: seq<bv8>, st0: State, n: nat) returns (st: State)
    requires 64 * n <= |s|
    ensures st == Blocks(st0, s, n)
  {
    st := st0;
    var k := 0;
    while k < n
      invariant 0 <= k <= n
      invariant st == Blocks(st0, s, k)
    {
      st := Step(st, s, k, st0);
      k := k + 1;
    }
  }

  function Hash64WithSeeds(s: seq<bv8>, seed0: bv64, seed1: bv64): bv64
  {
    HashLen16(Hash64(s) - seed0, seed1)
  }

  function Hash64WithSeed(s: seq<bv8>, seed: bv64): bv64
  {
    Hash64WithSeeds(s, K2, seed)
  }

  /** The seeded variants rehash the unseeded digest, and the one-seed form
    * uses k2 as the first seed. */
  lemma SeedsRehashDigest(s: seq<bv8>, a: bv64, b: bv64, x: bv64)
    ensures Hash64WithSeeds(s, a, b) == HashLen16(Hash64(s) - a, b)
    ensures Hash64WithSeed(s, x) == HashLen16(Hash64(s) - 0x9ae16a3b2f90404f, x)
  {
  }
}

/** farmhashuo: the variant used for long inputs. */
module Farmu {
  import opened FarmhashDetail
  import Farmn

  function H(x: bv64, y: bv64, mul: bv64, r: int): bv64
    requires 0 <= r < 64
  {
    var a0 := (x ^ y) * mul;
    var a := a0 ^ (a0 >> 47);
    var b := (y ^ a) * mul;
    BasicRotate64(b, r) * mul
  }

  /** The rolling state of the loop: u, x, y, z and the pairs v, w. */
  datatype State = State(u: bv64, x: bv64, y: bv64, z: bv64, v: Pair, w: Pair)

  function Init(seed0: bv64, seed1: bv64): State
  {
    var y := (seed1 * K2) + 113;
    var z := Farmn.ShiftMix(y * K2) * K2;
    State(seed0 - z, seed0 * K2, y, z, Pair(seed0, seed1), Pair(0, 0))
  }

  /** The loop's constant multiplier, taken from the initial u. */
  function Mul(st: State): bv64
  {
    K2 + (st.u & 0x82)
  }

  /** One pass of the loop body over s[p..p+64), with its two swaps. */
  function Round(st: State, s: seq<bv8>, p: nat, mul: bv64): State
    requires p + 64 <= |s|
  {
    Mix(st, Fetch64(s, p), Fetch64(s, p + 8), Fetch64(s, p + 16), Fetch64(s, p + 24),
        Fetch64(s, p + 32), Fetch64(s, p + 40), Fetch64(s, p + 48), Fetch64(s, p + 56), mul)
  }

  /** The loop body over the eight words a0..a7 of one block. */
  function Mix(st: State, a0: bv64, a1: bv64, a2: bv64, a3: bv64,
               a4: bv64, a5: bv64, a6: bv64, a7: bv64, mul: bv64): State
  {
    var x1 := st.x + (a0 + a1);
    var y1 := st.y + a2;
    var z1 := st.z + a3;
    var vf1 := st.v.first + a4;
    var vs1 := st.v.second + (a5 + a1);
    var wf1 := st.w.first + a6;
    var ws1 := st.w.second + a7;
    var x2 := BasicRotate64(x1, 26) * 9;
    var y2 := BasicRotate64(y1, 29);
    var z2 := z1 * mul;
    var vf2 := BasicRotate64(vf1, 33);
    var vs2 := BasicRotate64(vs1, 30);
    var wf2 := (wf1 ^ x2) * 9;
    var z3 := BasicRotate64(z2, 32) + ws1;
    var ws2 := ws1 + z3;
    var z4 := z3 * 9;
    // swap(u, y)
    var u1 := y2;
    var y3 := st.u;
    var z5 := z4 + (a0 + a6);
    var vf3 := vf2 + a2;
    var vs3 := vs2 + a3;
    var wf3 := wf2 + a4;
    var ws3 := ws2 + (a5 + a6);
    var x3 := x2 + a1;
    var y4 := y3 + a7;
    var y5 := y4 + vf3;
    var vf4 := vf3 + (x3 - y5);
    var vs4 := vs3 + wf3;
    var wf4 := wf3 + vs4;
    var ws4 := ws3 + (x3 - y5);
    var x4 := x3 + ws4;
    var ws5 := BasicRotate64(ws4, 34);
    // swap(u, z)
    State(z5, x4, y5, u1, Pair(vf4, vs4), Pair(wf4, ws5))
  }

  function Blocks(st: State, s: seq<bv8>, k: nat, mul: bv64): State
    requires 64 * k <= |s|
  {
    if k == 0 then st else Round(Blocks(st, s, k - 1, mul), s, 64 * (k - 1), mul)
  }

  function Finish(st: State, s: seq<bv8>, mul: bv64): bv64
    requires |s| > 64
  {
    var len := |s|;
    var p := len - 64;
    var u1 := st.u * 9;
    var vs1 := BasicRotate64(st.v.second, 28);
    var vf1 := BasicRotate64(st.v.first, 20);
    var wf1 := st.w.first + Len((len - 1) % 64);
    var u2 := u1 + st.y;
    var y1 := st.y + u2;
    var x1 := BasicRotate64(y1 - st.x + vf1 + Fetch64(s, p + 8), 37) * mul;
    var y2 := BasicRotate64(y1 ^ vs1 ^ Fetch64(s, p + 48), 42) * mul;
    var x2 := x1 ^ (st.w.second * 9);
    var y3 := y2 + vf1 + Fetch64(s, p + 40);
    var z1 := BasicRotate64(st.z + wf1, 33) * mul;
    var v := Farmn.WeakHashLen32WithSeedsAt(s, p, vs1 * mul, x2 + wf1);
    var w := Farmn.WeakHashLen32WithSeedsAt(s, p + 32, z1 + st.w.second, y3 + Fetch64(s, p + 16));
    H(Farmn.HashLen16Mul(v.first + x2, w.first ^ y3, mul) + z1 - u2,
      H(v.second + y3, w.second + z1, K2, 30) ^ x2, K2, 31)
  }

  function Hash64WithSeeds(s: seq<bv8>, seed0: bv64, seed1: bv64): bv64
  {
    if |s| <= 64 then Farmn.Hash64WithSeeds(s, seed0, seed1) else Hash64Long(s, seed0, seed1)
  }

  function Hash64Long(s: seq<bv8>, seed0: bv64, seed1: bv64): bv64
    requires |s| > 64
  {
    var st := Init(seed0, seed1);
    Finish(Blocks(st, s, (|s| - 1) / 64, Mul(st)), s, Mul(st))
  }

  lemma Hash64WithSeedsTiers(s: seq<bv8>, seed0: bv64, seed1: bv64)
    ensures |s| <= 64 ==> Hash64WithSeeds(s, seed0, seed1) == Farmn.Hash64WithSeeds(s, seed0, seed1)
    ensures |s| > 64 ==> Hash64WithSeeds(s, seed0, seed1) == Hash64Long(s, seed0, seed1)
  {
  }

  /** farmu::Hash64WithSeeds as the source writes it: delegation to farmn up
    * to 64 bytes, otherwise the state set-up, the do-while over 64-byte
    * blocks and the final (overlapping) block. */
  method ComputeHash64WithSeeds(s: seq<bv8>, seed0: bv64, seed1: bv64) returns (r: bv64)
    ensures r == Hash64WithSeeds(s, seed0, seed1)
  {
    Hash64WithSeedsTiers(s, seed0, seed1);
    if |s| <= 64 {
      return Farmn.Hash64WithSeeds(s, seed0, seed1);
    }
    var st := Init(seed0, seed1);
    var mul := Mul(st);
    Farmn.BlockCountBounds(|s|);
    st := BlockLoop(s, st, mul, (|s| - 1) / 64);
    r := Finish(st, s, mul);
  }

  /** The do-while of farmu::Hash64WithSeeds: n blocks from the initial
    * state `st0`; `mul` stays fixed throughout. */
  method BlockLoop(s: seq<bv8>, st0: State, mul: bv64, n: nat) returns (st: State)
    requires 64 * n <= |s|
    ensures st == Blocks(st0, s, n, mul)
  {
    st := st0;
    var k := 0;
    while k < n
      invariant 0 <= k <= n
      invariant st == Blocks(st0, s, k, mul)
    {
      st := Step(st, s, k, st0, mul);
      k := k + 1;
    }
  }

  /** One pass of the loop body over s[64k..64k+64). */
  method Step(st: State, s: seq<bv8>, k: nat, ghost st0: State, mul: bv64) returns (st': State)
    requires 64 * (k + 1) <= |s|
    requires st == Blocks(st0, s, k, mul)
    ensures st' == Blocks(st0, s, k + 1, mul)
  {
    BlocksStep(st0, s, k, mul);
    st' := Round(st, s, 64 * k, mul);
  }

  lemma BlocksStep(st: State, s: seq<bv8>, k: nat, mul: bv64)
    requires 64 * (k + 1) <= |s|
    ensures Blocks(st, s, k + 1, mul) == Round(Blocks(st, s, k, mul), s, 64 * k, mul)
  {
  }

  function Hash64WithSeed(s: seq<bv8>, seed: bv64): bv64
  {
    if |s| <= 64 then Farmn.Hash64WithSeed(s, seed) else Hash64WithSeeds(s, 0, seed)
  }

  function Hash64(s: seq<bv8>): bv64
  {
    if |s| <= 64 then Farmn.Hash64(s) else Hash64WithSeeds(s, 81, 0)
  }

  /** Up to 64 bytes farmu is farmn; longer inputs use the seeded loop with
    * seeds 81 and 0. */
  lemma Hash64Delegates(s: seq<bv8>, seed0: bv64, seed1: bv64)
    ensures |s| <= 64 ==> Hash64(s) == Farmn.Hash64(s)
    ensures |s| > 64 ==> Hash64(s) == Hash64WithSeeds(s, 81, 0)
    ensures |s| <= 64 ==> Hash64WithSeeds(s, seed0, seed1) == Farmn.Hash64WithSeeds(s, seed0, seed1)
  {
  }
}

/** farmhashxo: the variant behind the library's hash64 entry point. */
module Farmx {
  import opened FarmhashDetail
  import Farmn
  import Farmu

  /** H32 over the len bytes starting at s[at]. */
  function H32(s: seq<bv8>, at: nat, len: nat, mul: bv64, seed0: bv64, seed1: bv64): bv64
    requires len >= 16 && at + len <= |s|
  {
    var a := Fetch64(s, at) * K1;
    var b := Fetch64(s, at + 8);
    var c := Fetch64(s, at + len - 8) * mul;
    var d := Fetch64(s, at + len - 16) * K2;
    var u := BasicRotate64(a + b, 43) + BasicRotate64(c, 30) + d + seed0;
    var v := a + BasicRotate64(b + K2, 18) + c + seed1;
    var a1 := Farmn.ShiftMix((u ^ v) * mul);
    Farmn.ShiftMix((v ^ a1) * mul)
  }

  function HashLen33to64(s: seq<bv8>): bv64
    requires |s| >= 32
  {
    var len := |s|;
    var mul0 := K2 - 30;
    var mul1 := K2 - 30 + (2 * Len(len));
    var h0 := H32(s, 0, 32, mul0, 0, 0);
    var h1 := H32(s, len - 32, 32, mul1, 0, 0);
    ((h1 * mul1) + h0) * mul1
  }

  function HashLen65to96(s: seq<bv8>): bv64
    requires |s| >= 64
  {
    var len := |s|;
    var mul0 := K2 - 114;
    var mul1 := K2 - 114 + (2 * Len(len));
    var h0 := H32(s, 0, 32, mul0, 0, 0);
    var h1 := H32(s, 32, 32, mul1, 0, 0);
    var h2 := H32(s, len - 32, 32, mul1, h0, h1);
    ((h2 * 9) + (h0 >> 17) + (h1 >> 21)) * mul1
  }

  function Hash64(s: seq<bv8>): bv64
  {
    if |s| <= 32 then
      if |s| <= 16 then Farmn.HashLen0to16(s) else Farmn.HashLen17to32(s)
    else if |s| <= 64 then
      HashLen33to64(s)
    else if |s| <= 96 then
      HashLen65to96(s)
    else if |s| <= 256 then
      Farmn.Hash64(s)
    else
      Farmu.Hash64(s)
  }

  /** The length dispatch of farmx::Hash64. */
  lemma Hash64Dispatch(s: seq<bv8>)
    ensures |s| <= 16 ==> Hash64(s) == Farmn.HashLen0to16(s)
    ensures 16 < |s| <= 32 ==> Hash64(s) == Farmn.HashLen17to32(s)
    ensures 32 < |s| <= 64 ==> Hash64(s) == HashLen33to64(s)
    ensures 64 < |s| <= 96 ==> Hash64(s) == HashLen65to96(s)
    ensures 96 < |s| <= 256 ==> Hash64(s) == Farmn.Hash64(s)
    ensures 256 < |s| ==> Hash64(s) == Farmu.Hash64WithSeeds(s, 81, 0)
  {
  }

  function Hash64WithSeeds(s: seq<bv8>, seed0: bv64, seed1: bv64): bv64
  {
    Farmu.Hash64WithSeeds(s, seed0, seed1)
  }

  function Hash64WithSeed(s: seq<bv8>, seed: bv64): bv64
  {
    Farmu.Hash64WithSeed(s, seed)
  }
}

/** The library entry point circus::farmhash::hash64. */
module Farmhash {
  import opened FarmhashDetail
  import Farmx

  /** hash64(str, size): the digest of the first size bytes of str. */
  function Hash64(str: seq<bv8>, size: nat): (r: bv64)
    requires size <= |str|
    ensures r == Farmx.Hash64(str[..size])
    ensures size == 0 ==> r == 0x9ae16a3b2f90404f
  {
    Farmx.Hash64(str[..size])
  }

  /** The digest depends only on the first size bytes: bytes past size are
    * never read, and there is no per-instance or per-process seed. */
  lemma Hash64ReadsOnlyPrefix(a: seq<bv8>, b: seq<bv8>, size: nat)
    requires size <= |a| && size <= |b|
    requires a[..size] == b[..size]
    ensures Hash64(a, size) == Hash64(b, size)
  {
  }
}
