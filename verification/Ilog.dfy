/** The integer logarithms of ccan/ilog: the branchless form, the de Bruijn form and the macros for
    constants, over machine words of 32 and 64 bits. */
module Ilog {

  // ---------------------------------------------------------------- what a logarithm is

  /** r is the number of bits of v: 0 for 0, and otherwise what is left after r - 1 shifts is 1. */
  predicate IsLog32(v: bv32, r: bv8) {
    if v == 0 then r == 0 else 1 <= r <= 32 && v >> (r - 1) as bv5 == 1
  }

  predicate IsLog64(v: bv64, r: bv8) {
    if v == 0 then r == 0 else 1 <= r <= 64 && v >> (r - 1) as bv6 == 1
  }

  /** As documented, 2^(r-1) <= v < 2^r: the upper bound is v - 2^(r-1) < 2^(r-1), which does not overflow. */
  lemma LogBounds32(v: bv32, r: bv8, p: bv5, power: bv32)
    requires v != 0 && 1 <= r <= 32 && p as bv8 == r - 1 && power == (1 as bv32) << p
    ensures IsLog32(v, r) <==> power <= v && v - power < power
  {
  }

  lemma LogBounds64(v: bv64, r: bv8, p: bv6, power: bv64)
    requires v != 0 && 1 <= r <= 64 && p == (r - 1) as bv6 && power == (1 as bv64) << p && IsLog64(v, r)
    ensures power <= v && v - power < power
  {
    TopBounds(v, p, power);
  }

  lemma TopBounds(v: bv64, p: bv6, power: bv64)
    requires power == (1 as bv64) << p && v >> p == 1
    ensures power <= v && v - power < power
  {
  }

  lemma BoundsLog64(v: bv64, r: bv8, p: bv6, power: bv64)
    requires v != 0 && 1 <= r <= 64 && p == (r - 1) as bv6 && power == (1 as bv64) << p
    requires power <= v && v - power < power
    ensures IsLog64(v, r)
  {
  }

  /** There is one logarithm, so all forms that give one agree. */
  lemma OneLog32(v: bv32, r: bv8, s: bv8)
    requires IsLog32(v, r) && IsLog32(v, s)
    ensures r == s
  {
  }

  lemma OneLog64(v: bv64, r: bv8, s: bv8)
    requires IsLog64(v, r) && IsLog64(v, s)
    ensures r == s
  {
  }

  /** The top bit of the lower half of a word whose upper half is empty, ... */
  lemma LowerHalf(w: bv64, h: bv32, p: bv5)
    requires h as bv64 == w && h >> p == 1
    ensures IsLog64(w, 1 + p as bv8)
  {
  }

  /** ... and of the upper half. */
  lemma UpperHalf(w: bv64, h: bv32, p: bv5)
    requires w > 0xFFFF_FFFF && h as bv64 == w >> 32 && h >> p == 1
    ensures IsLog64(w, 33 + p as bv8)
  {
  }

  lemma HalfLog(w: bv64, m: bv8, v: bv32, p: bv5, r: bv8)
    requires w > 0xFFFF_FFFF ==> m == 32 && v as bv64 == w >> 32
    requires w <= 0xFFFF_FFFF ==> m == 0 && v as bv64 == w
    requires v >> p == 1 && r == 1 + m + p as bv8
    ensures IsLog64(w, r)
  {
    if w > 0xFFFF_FFFF {
      UpperHalf(w, v, p);
      assert r == 33 + p as bv8;
    } else {
      LowerHalf(w, v, p);
      assert r == 1 + p as bv8;
    }
  }

  lemma Position(h: bv32, r: bv8) returns (p: bv5)
    requires h != 0 && IsLog32(h, r)
    ensures h >> p == 1 && r == 1 + p as bv8
  {
    p := (r - 1) as bv5;
  }

  lemma PositionLog(h: bv32, p: bv5)
    requires h >> p == 1
    ensures IsLog32(h, 1 + p as bv8)
  {
  }

  /** The position of the top bit. */
  lemma TopBit32(v: bv32) returns (p: bv5)
    requires v != 0
    ensures v >> p == 1
  {
    p := if v > 0xFFFF then 16 else 0;
    var m: bv5 := if v >> p > 0xFF then 8 else 0;
    p := p + m;
    m := if v >> p > 0xF then 4 else 0;
    p := p + m;
    m := if v >> p > 3 then 2 else 0;
    p := p + m;
    m := if v >> p > 1 then 1 else 0;
    p := p + m;
  }

  // ---------------------------------------------------------------- the macros for constants

  function Static0(v: bv64): bv8 { if v != 0 then 1 else 0 }
  function Static1(v: bv64): bv8 { if v & 0x2 != 0 then 2 else Static0(v) }
  function Static2(v: bv64): bv8 { if v & 0xC != 0 then 2 + Static1(v >> 2) else Static1(v) }
  function Static3(v: bv64): bv8 { if v & 0xF0 != 0 then 4 + Static2(v >> 4) else Static2(v) }
  function Static4(v: bv64): bv8 { if v & 0xFF00 != 0 then 8 + Static3(v >> 8) else Static3(v) }
  function Static5(v: bv64): bv8 { if v & 0xFFFF_0000 != 0 then 16 + Static4(v >> 16) else Static4(v) }
  function Static6(v: bv64): bv8 {
    if v & 0xFFFF_FFFF_0000_0000 != 0 then 32 + Static5(v >> 32) else Static5(v)
  }

  /** The logarithm of the upper part gives that of the whole. */
  lemma UpperLog8(v: bv64, u: bv64, r: bv8)
    requires u == v >> 8 && u != 0 && r <= 8 && IsLog64(u, r)
    ensures IsLog64(v, 8 + r)
  {
  }

  lemma UpperLog16(v: bv64, u: bv64, r: bv8)
    requires u == v >> 16 && u != 0 && r <= 16 && IsLog64(u, r)
    ensures IsLog64(v, 16 + r)
  {
  }

  lemma UpperLog32(v: bv64, u: bv64, r: bv8)
    requires u == v >> 32 && u != 0 && r <= 32 && IsLog64(u, r)
    ensures IsLog64(v, 32 + r)
  {
  }

  lemma Static3IsLog(v: bv64)
    requires v <= 0xFF
    ensures Static3(v) <= 8 && IsLog64(v, Static3(v))
  {
  }

  lemma Static4IsLog(v: bv64)
    requires v <= 0xFFFF
    ensures Static4(v) <= 16 && IsLog64(v, Static4(v))
  {
    if v & 0xFF00 != 0 {
      Static3IsLog(v >> 8);
      UpperLog8(v, v >> 8, Static3(v >> 8));
    } else {
      Static3IsLog(v);
    }
  }

  /** STATIC_ILOG_32, on what the cast to 32 bits leaves. */
  lemma Static5IsLog(v: bv64)
    requires v <= 0xFFFF_FFFF
    ensures Static5(v) <= 32 && IsLog64(v, Static5(v))
  {
    if v & 0xFFFF_0000 != 0 {
      Static4IsLog(v >> 16);
      UpperLog16(v, v >> 16, Static4(v >> 16));
    } else {
      Static4IsLog(v);
    }
  }

  /** STATIC_ILOG_64. */
  lemma Static6IsLog(v: bv64)
    ensures Static6(v) <= 64 && IsLog64(v, Static6(v))
  {
    if v & 0xFFFF_FFFF_0000_0000 != 0 {
      Static5IsLog(v >> 32);
      UpperLog32(v, v >> 32, Static5(v >> 32));
    } else {
      Static5IsLog(v);
    }
  }

  /** A 32-bit value has the same logarithm in 64 bits. */
  lemma SameLog(h: bv32, w: bv64, r: bv8)
    requires w == h as bv64
    ensures IsLog32(h, r) <==> IsLog64(w, r)
  {
    if h != 0 {
      var p := TopBit32(h);
      LowerHalf(w, h, p);
      PositionLog(h, p);
      SameValue(h, w, r, 1 + p as bv8);
    }
  }

  lemma SameValue(h: bv32, w: bv64, r: bv8, s: bv8)
    requires IsLog32(h, s) && IsLog64(w, s)
    ensures IsLog32(h, r) <==> IsLog64(w, r)
  {
    if IsLog32(h, r) {
      OneLog32(h, r, s);
    }
    if IsLog64(w, r) {
      OneLog64(w, r, s);
    }
  }

  /** Whatever 32-bit form gives a logarithm gives what STATIC_ILOG_32 gives. */
  lemma Agrees32(v: bv32, r: bv8)
    requires IsLog32(v, r)
    ensures r == Static5(v as bv64)
  {
    var w := v as bv64;
    SameLog(v, w, r);
    Static5IsLog(w);
    OneLog64(w, r, Static5(w));
  }

  /** Whatever 64-bit form gives a logarithm gives what STATIC_ILOG_64 gives. */
  lemma Agrees64(v: bv64, r: bv8)
    requires IsLog64(v, r)
    ensures r == Static6(v)
  {
    Static6IsLog(v);
    OneLog64(v, r, Static6(v));
  }

  // ---------------------------------------------------------------- the branchless form

  /** The steps that both widths share, on a 32-bit word, after the first ones set `ret`. */
  method Narrow(w: bv32, first: bv8) returns (ret: bv8)
    requires if w == 0 then first == 0 else first == 1 || first == 33
    ensures if w == 0 then ret == 0 else IsLog32(w, ret - (first - 1))
  {
    var v := w;
    ret := first;
    var m: bv8 := if v > 0xFFFF then 16 else 0;
    v := v >> m;
    ret := ret | m;
    m := if v > 0xFF then 8 else 0;
    v := v >> m;
    ret := ret | m;
    m := if v > 0xF then 4 else 0;
    v := v >> m;
    ret := ret | m;
    m := if v > 3 then 2 else 0;
    v := v >> m;
    ret := ret | m;
    ret := ret + if v > 1 then 1 else 0;
  }

  /** `(uint32_t) (w >> m)`. */
  method Half(w: bv64, m: bv8) returns (v: bv32)
    requires m == if w > 0xFFFF_FFFF then 32 else 0
    ensures w > 0xFFFF_FFFF ==> m == 32 && v as bv64 == w >> 32
    ensures w <= 0xFFFF_FFFF ==> m == 0 && v as bv64 == w
    ensures v == 0 <==> w == 0
  {
    v := (w >> m) as bv32;
  }

  method Branchless32(w: bv32) returns (ret: bv8)
    ensures IsLog32(w, ret)
  {
    ret := if w > 0 then 1 else 0;
    ret := Narrow(w, ret);
  }

  method Branchless64(w: bv64) returns (ret: bv8)
    ensures IsLog64(w, ret)
  {
    ret := if w > 0 then 1 else 0;
    var m: bv8 := if w > 0xFFFF_FFFF then 32 else 0;
    var v := Half(w, m);
    var first := ret | m;
    ret := Narrow(v, first);
    if w != 0 {
      ghost var p := Position(v, ret - (first - 1));
      HalfLog(w, m, v, p, ret);
    }
  }

  // ---------------------------------------------------------------- the de Bruijn form

  function Row32_0(i: bv5): bv5 {
    if i == 0 then 0
    else if i == 1 then 1
    else if i == 2 then 28
    else if i == 3 then 2
    else if i == 4 then 29
    else if i == 5 then 14
    else if i == 6 then 24
    else if i == 7 then 3
    else if i == 8 then 30
    else if i == 9 then 22
    else if i == 10 then 20
    else if i == 11 then 15
    else if i == 12 then 25
    else if i == 13 then 17
    else if i == 14 then 4
    else 8
  }

  function Row32_1(i: bv5): bv5 {
    if i == 16 then 31
    else if i == 17 then 27
    else if i == 18 then 13
    else if i == 19 then 23
    else if i == 20 then 21
    else if i == 21 then 19
    else if i == 22 then 16
    else if i == 23 then 7
    else if i == 24 then 26
    else if i == 25 then 12
    else if i == 26 then 18
    else if i == 27 then 6
    else if i == 28 then 11
    else if i == 29 then 5
    else if i == 30 then 10
    else 9
  }

  /** DEBRUIJN_IDX32. */
  function Debruijn32(i: bv5): bv5 {
    if i < 16 then Row32_0(i)
    else Row32_1(i)
  }

  function Row64_0(i: bv6): bv6 {
    if i == 0 then 0
    else if i == 1 then 1
    else if i == 2 then 2
    else if i == 3 then 7
    else if i == 4 then 3
    else if i == 5 then 13
    else if i == 6 then 8
    else if i == 7 then 19
    else if i == 8 then 4
    else if i == 9 then 25
    else if i == 10 then 14
    else if i == 11 then 28
    else if i == 12 then 9
    else if i == 13 then 34
    else if i == 14 then 20
    else 40
  }

  function Row64_1(i: bv6): bv6 {
    if i == 16 then 5
    else if i == 17 then 17
    else if i == 18 then 26
    else if i == 19 then 38
    else if i == 20 then 15
    else if i == 21 then 46
    else if i == 22 then 29
    else if i == 23 then 48
    else if i == 24 then 10
    else if i == 25 then 31
    else if i == 26 then 35
    else if i == 27 then 54
    else if i == 28 then 21
    else if i == 29 then 50
    else if i == 30 then 41
    else 57
  }

  function Row64_2(i: bv6): bv6 {
    if i == 32 then 63
    else if i == 33 then 6
    else if i == 34 then 12
    else if i == 35 then 18
    else if i == 36 then 24
    else if i == 37 then 27
    else if i == 38 then 33
    else if i == 39 then 39
    else if i == 40 then 16
    else if i == 41 then 37
    else if i == 42 then 45
    else if i == 43 then 47
    else if i == 44 then 30
    else if i == 45 then 53
    else if i == 46 then 49
    else 56
  }

  function Row64_3(i: bv6): bv6 {
    if i == 48 then 62
    else if i == 49 then 11
    else if i == 50 then 23
    else if i == 51 then 32
    else if i == 52 then 36
    else if i == 53 then 44
    else if i == 54 then 52
    else if i == 55 then 55
    else if i == 56 then 61
    else if i == 57 then 22
    else if i == 58 then 43
    else if i == 59 then 51
    else if i == 60 then 60
    else if i == 61 then 42
    else if i == 62 then 59
    else 58
  }

  /** DEBRUIJN_IDX64. */
  function Debruijn64(i: bv6): bv6 {
    if i < 16 then Row64_0(i)
    else if i < 32 then Row64_1(i)
    else if i < 48 then Row64_2(i)
    else Row64_3(i)
  }

  lemma Table32(p: bv5, x: bv32, i: bv5)
    requires x == (0x77CB531 as bv32) << p && i as bv32 == x >> 27
    ensures Debruijn32(i) == p
  {
  }

  lemma Table64(p: bv6, x: bv64, i: bv6)
    requires x == (0x218A392CD3D5DBF as bv64) << p && i as bv64 == x >> 58
    ensures Debruijn64(i) == p
  {
  }

  /** Smearing the top bit down and rounding up leaves the top bit alone. */
  lemma Smear32(v: bv32, p: bv5, v1: bv32, v2: bv32, v4: bv32, v8: bv32, v16: bv32)
    requires v >> p == 1 && v1 == v | (v >> 1) && v2 == v1 | (v1 >> 2) && v4 == v2 | (v2 >> 4)
    requires v8 == v4 | (v4 >> 8) && v16 == v8 | (v8 >> 16)
    ensures (v16 >> 1) + 1 == (1 as bv32) << p
  {
  }

  lemma Smear64(v: bv64, p: bv6, v1: bv64, v2: bv64, v4: bv64, v8: bv64, v16: bv64, v32: bv64)
    requires v >> p == 1 && v1 == v | (v >> 1) && v2 == v1 | (v1 >> 2) && v4 == v2 | (v2 >> 4)
    requires v8 == v4 | (v4 >> 8) && v16 == v8 | (v8 >> 16) && v32 == v16 | (v16 >> 32)
    ensures (v32 >> 1) + 1 == (1 as bv64) << p
  {
  }

  /** Multiplying a power of two moves the constant up. */
  lemma Product32(p: bv5, v: bv32)
    requires v == (1 as bv32) << p
    ensures v * 0x77CB531 == (0x77CB531 as bv32) << p
  {
  }

  lemma Product64(p: bv6, v: bv64)
    requires v == (1 as bv64) << p
    ensures v * 0x218A392CD3D5DBF == (0x218A392CD3D5DBF as bv64) << p
  {
  }

  lemma SomeLog(v: bv64) returns (r: bv8)
    ensures IsLog64(v, r)
  {
    Static6IsLog(v);
    r := Static6(v);
  }

  /** The position of the top bit. */
  lemma TopBit64(v: bv64) returns (p: bv6)
    requires v != 0
    ensures v >> p == 1
  {
    var r := SomeLog(v);
    p := (r - 1) as bv6;
  }

  /** The table finds the place of a power of two. */
  lemma Locate32(p: bv5, top: bv32, x: bv32, i: bv5)
    requires top == (1 as bv32) << p && x == top * 0x77CB531 && i as bv32 == (x >> 27) & 0x1F
    ensures Debruijn32(i) == p
  {
    Product32(p, top);
    Table32(p, x, i);
  }

  lemma Locate64(p: bv6, top: bv64, x: bv64, i: bv6)
    requires top == (1 as bv64) << p && x == top * 0x218A392CD3D5DBF && i as bv64 == (x >> 58) & 0x3F
    ensures Debruijn64(i) == p
  {
    Product64(p, top);
    Table64(p, x, i);
  }

  /** Smear the top bit down and round up. */
  method Isolate32(w: bv32) returns (top: bv32, ghost p: bv5)
    ensures if w == 0 then p == 0 else w >> p == 1
    ensures top == (1 as bv32) << p
  {
    var v := w | (w >> 1);
    var v2 := v | (v >> 2);
    var v4 := v2 | (v2 >> 4);
    var v8 := v4 | (v4 >> 8);
    var v16 := v8 | (v8 >> 16);
    top := (v16 >> 1) + 1;
    p := 0;
    if w != 0 {
      p := TopBit32(w);
      Smear32(w, p, v, v2, v4, v8, v16);
    }
  }

  method Isolate64(w: bv64) returns (top: bv64, ghost p: bv6)
    ensures if w == 0 then p == 0 else w >> p == 1
    ensures top == (1 as bv64) << p
  {
    var v := w | (w >> 1);
    var v2 := v | (v >> 2);
    var v4 := v2 | (v2 >> 4);
    var v8 := v4 | (v4 >> 8);
    var v16 := v8 | (v8 >> 16);
    var v32 := v16 | (v16 >> 32);
    top := (v32 >> 1) + 1;
    p := 0;
    if w != 0 {
      p := TopBit64(w);
      Smear64(w, p, v, v2, v4, v8, v16, v32);
    }
  }

  /** The table look-up on a power of two. */
  method Look32(top: bv32, ghost p: bv5) returns (q: bv5)
    requires top == (1 as bv32) << p
    ensures q == p
  {
    var x := top * 0x77CB531;
    var i := ((x >> 27) & 0x1F) as bv5;
    Locate32(p, top, x, i);
    q := Debruijn32(i);
  }

  method Look64(top: bv64, ghost p: bv6) returns (q: bv6)
    requires top == (1 as bv64) << p
    ensures q == p
  {
    var x := top * 0x218A392CD3D5DBF;
    var i := ((x >> 58) & 0x3F) as bv6;
    Locate64(p, top, x, i);
    q := Debruijn64(i);
  }

  method Ilog32(w: bv32) returns (ret: bv8)
    ensures IsLog32(w, ret)
  {
    ret := if w > 0 then 1 else 0;
    var top;
    ghost var p;
    top, p := Isolate32(w);
    var q := Look32(top, p);
    ret := ret + q as bv8;
    if w != 0 {
      PositionLog(w, p);
    }
  }

  method Ilog64(w: bv64) returns (ret: bv8)
    ensures IsLog64(w, ret)
  {
    ret := if w > 0 then 1 else 0;
    var top;
    ghost var p;
    top, p := Isolate64(w);
    var q := Look64(top, p);
    ret := ret + q as bv8;
  }

  /** The de Bruijn form on a platform with 32-bit words: the upper half if it is there, else the lower. */
  method Ilog64Halves(w: bv64) returns (ret: bv8)
    ensures IsLog64(w, ret)
  {
    ret := if w > 0 then 1 else 0;
    var m: bv8 := if w > 0xFFFF_FFFF then 32 else 0;
    var v := Half(w, m);
    ret := ret | m;
    var top;
    ghost var p;
    top, p := Isolate32(v);
    var q := Look32(top, p);
    ret := ret + q as bv8;
    if w != 0 {
      HalfLog(w, m, v, p, ret);
    }
  }
}
