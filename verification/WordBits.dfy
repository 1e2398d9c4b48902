/** Single bitmap words of ccan/bitmap: 64-bit machine words whose bit 0 is the most significant
    one, and what the shifts and masks of bitmap.h and bitmap.c do to their bits. */
module WordBits {

  const BITS := 64
  const ONES: bv64 := 0xFFFF_FFFF_FFFF_FFFF

  /** A shift count as a machine word. */
  function Count(n: nat): bv6 {
    if n == 0 then 0 else Count(n - 1) + 1
  }

  /** `mask >>= 1`: on to the next bit. */
  function Halve(m: bv64): bv64 {
    m >> 1
  }

  /** The word with only bit b set, counted from the most significant end. */
  function BitMask(b: nat): bv64 {
    if b == 0 then 0x8000_0000_0000_0000 else Halve(BitMask(b - 1))
  }

  predicate Masked(w: bv64, m: bv64) {
    w & m != 0
  }

  predicate Bit(w: bv64, b: nat) {
    Masked(w, BitMask(b))
  }

  /** BITMAP_WORDBIT. */
  function WordBit(n: nat): bv64 {
    (1 as bv64) << (63 - Count(n % BITS))
  }

  /** The bits from n % 64 on; the tail mask is its complement. */
  function HeadMask(n: nat): bv64 {
    ONES >> Count(n % BITS)
  }

  // ---------------------------------------------------------------- shift counts

  lemma Increment(x: bv6)
    requires x < 63
    ensures (x + 1) as int == (x as int) + 1
  {
  }

  lemma OrderOf(x: bv6, y: bv6)
    ensures x <= y <==> (x as int) <= (y as int)
  {
  }

  lemma {:induction false} CountIs(n: nat)
    requires n < BITS
    ensures Count(n) as int == n
  {
    if n > 0 {
      CountIs(n - 1);
      OrderOf(63, Count(n - 1));
      Increment(Count(n - 1));
    }
  }

  lemma CountBelow(n: nat)
    requires n < 63
    ensures Count(n) < 63 && Count(n + 1) == Count(n) + 1
  {
    CountIs(n);
    OrderOf(63, Count(n));
  }

  lemma CountOrder(j: nat, k: nat)
    requires j < BITS && k < BITS
    ensures Count(j) <= Count(k) <==> j <= k
  {
    CountIs(j);
    CountIs(k);
    OrderOf(Count(j), Count(k));
  }

  // ---------------------------------------------------------------- bits of single words

  lemma MaskHalved(x: bv6, m: bv64)
    requires x < 63 && m == (1 as bv64) << (63 - x)
    ensures Halve(m) == (1 as bv64) << (63 - (x + 1))
  {
  }

  /** The mask that BITMAP_WORDBIT shifts into place. */
  lemma {:induction false} MaskIsShift(b: nat)
    requires b < BITS
    ensures BitMask(b) == (1 as bv64) << (63 - Count(b))
  {
    if b > 0 {
      MaskIsShift(b - 1);
      CountBelow(b - 1);
      MaskHalved(Count(b - 1), BitMask(b - 1));
    }
  }

  /** Exactly one bit is set. */
  predicate OneHot(m: bv64) {
    m != 0 && m & (m - 1) == 0
  }

  lemma ShiftOneHot(x: bv6, m: bv64)
    requires m == (1 as bv64) << x
    ensures OneHot(m)
  {
  }

  lemma MaskOneHot(b: nat)
    requires b < BITS
    ensures OneHot(BitMask(b))
  {
    MaskIsShift(b);
    ShiftOneHot(63 - Count(b), BitMask(b));
  }

  lemma AndOf(v: bv64, w: bv64, m: bv64)
    requires OneHot(m)
    ensures Masked(v & w, m) <==> Masked(v, m) && Masked(w, m)
  {
  }

  lemma OrLeft(v: bv64, w: bv64, m: bv64)
    requires Masked(v, m)
    ensures Masked(v | w, m) && Masked(w | v, m)
  {
  }

  lemma OrNeither(v: bv64, w: bv64, m: bv64)
    requires !Masked(v, m) && !Masked(w, m)
    ensures !Masked(v | w, m)
  {
  }

  lemma NotOf(v: bv64, m: bv64)
    requires OneHot(m)
    ensures Masked(!v, m) <==> !Masked(v, m)
  {
  }

  lemma AndBit(v: bv64, w: bv64, b: nat)
    requires b < BITS
    ensures Bit(v & w, b) <==> Bit(v, b) && Bit(w, b)
  {
    MaskOneHot(b);
    AndOf(v, w, BitMask(b));
  }

  lemma OrBit(v: bv64, w: bv64, b: nat)
    requires b < BITS
    ensures Bit(v | w, b) <==> Bit(v, b) || Bit(w, b)
  {
    if Bit(v, b) {
      OrLeft(v, w, BitMask(b));
    } else if Bit(w, b) {
      OrLeft(w, v, BitMask(b));
    } else {
      OrNeither(v, w, BitMask(b));
    }
  }

  lemma NotBit(v: bv64, b: nat)
    requires b < BITS
    ensures Bit(!v, b) <==> !Bit(v, b)
  {
    MaskOneHot(b);
    NotOf(v, BitMask(b));
  }

  lemma HeadOf(x: bv6, y: bv6, head: bv64, m: bv64)
    requires head == ONES >> x && m == (1 as bv64) << (63 - y)
    ensures Masked(head, m) <==> x <= y
  {
  }

  lemma HeadBit(n: nat, b: nat)
    requires b < BITS
    ensures Bit(HeadMask(n), b) <==> n % BITS <= b
  {
    MaskIsShift(b);
    CountOrder(n % BITS, b);
    HeadOf(Count(n % BITS), Count(b), HeadMask(n), BitMask(b));
  }

  lemma ZeroBit(b: nat)
    ensures !Bit(0, b)
  {
  }

  lemma AllBit(b: nat)
    requires b < BITS
    ensures Bit(ONES, b)
  {
    ZeroBit(b);
    NotBit(0, b);
    assert !(0 as bv64) == ONES;
  }

  lemma MaskBit(a: nat, b: nat)
    requires a < BITS && b < BITS
    ensures Bit(BitMask(a), b) <==> a == b
  {
    MaskIsShift(a);
    MaskIsShift(b);
    CountIs(a);
    CountIs(b);
    OneBit(Count(a), Count(b), BitMask(a), BitMask(b));
  }

  lemma WordBitBit(n: nat, b: nat)
    requires b < BITS
    ensures WordBit(n) == BitMask(n % BITS) && (Bit(WordBit(n), b) <==> n % BITS == b)
  {
    MaskIsShift(n % BITS);
    MaskBit(n % BITS, b);
  }

  lemma OneBit(x: bv6, y: bv6, k: bv64, m: bv64)
    requires k == (1 as bv64) << (63 - x) && m == (1 as bv64) << (63 - y)
    ensures Masked(k, m) <==> x == y
  {
  }

  /** The bits from the one bit of m on. */
  function From(m: bv64): bv64 {
    m | (m - 1)
  }

  lemma NoneNext(w: bv64, m: bv64, big: bv64)
    requires OneHot(m) && OneHot(big) && m == Halve(big)
    requires w & !From(big) == 0 && !Masked(w, big)
    ensures w & !From(m) == 0
  {
  }

  /** A word without bits before b has nothing outside the rest. */
  lemma {:induction false} NoneBefore(w: bv64, b: nat)
    requires b < BITS && forall c :: 0 <= c < b ==> !Bit(w, c)
    ensures w & !From(BitMask(b)) == 0
  {
    if b == 0 {
      MaskIsShift(0);
    } else {
      NoneBefore(w, b - 1);
      assert !Bit(w, b - 1);
      MaskOneHot(b - 1);
      MaskOneHot(b);
      NoneNext(w, BitMask(b), BitMask(b - 1));
    }
  }

  lemma LastBit(w: bv64)
    requires w & !From(1) == 0 && !Masked(w, 1)
    ensures w == 0
  {
  }

  /** A word is zero when it has no bits. */
  lemma NoBits(w: bv64)
    requires forall b :: 0 <= b < BITS ==> !Bit(w, b)
    ensures w == 0
  {
    NoneBefore(w, 63);
    assert !Bit(w, 63);
    MaskIsShift(63);
    CountIs(63);
    LastBit(w);
  }

  // ---------------------------------------------------------------- words as bit sequences

  function BitsBetween(w: bv64, lo: nat, hi: nat): (r: seq<bool>)
    requires lo < hi
    ensures |r| == hi - lo
    decreases hi - lo, w
  {
    if hi == lo + 1 then [Bit(w, lo)]
    else
      var mid := (lo + hi) / 2;
      BitsBetween(w, lo, mid) + BitsBetween(w, mid, hi)
  }

  /** The bits of a word, in bitmap order. */
  function Bits(w: bv64): (r: seq<bool>)
    ensures |r| == BITS
  {
    BitsBetween(w, 0, BITS)
  }

  lemma {:induction false} BitsBetweenAt(w: bv64, lo: nat, hi: nat, b: nat)
    requires lo <= b < hi
    ensures BitsBetween(w, lo, hi)[b - lo] == Bit(w, b)
    decreases hi - lo
  {
    if hi > lo + 1 {
      var mid := (lo + hi) / 2;
      if b < mid {
        BitsBetweenAt(w, lo, mid, b);
      } else {
        BitsBetweenAt(w, mid, hi, b);
      }
    }
  }

  lemma BitsAt(w: bv64, b: nat)
    requires b < BITS
    ensures Bits(w)[b] == Bit(w, b)
  {
    BitsBetweenAt(w, 0, BITS, b);
  }

  lemma AndBits(v: bv64, w: bv64)
    ensures forall b :: 0 <= b < BITS ==> Bits(v & w)[b] == (Bits(v)[b] && Bits(w)[b])
  {
    var x := v & w;
    forall b | 0 <= b < BITS ensures Bits(x)[b] == (Bits(v)[b] && Bits(w)[b]) {
      BitsAt(x, b);
      BitsAt(v, b);
      BitsAt(w, b);
      AndBit(v, w, b);
    }
  }

  lemma NotBits(v: bv64)
    ensures forall b :: 0 <= b < BITS ==> Bits(!v)[b] == !Bits(v)[b]
  {
    var x := !v;
    forall b | 0 <= b < BITS ensures Bits(x)[b] == !Bits(v)[b] {
      BitsAt(x, b);
      BitsAt(v, b);
      NotBit(v, b);
    }
  }

  lemma OrBits(v: bv64, w: bv64)
    ensures forall b :: 0 <= b < BITS ==> Bits(v | w)[b] == (Bits(v)[b] || Bits(w)[b])
  {
    var x := v | w;
    forall b | 0 <= b < BITS ensures Bits(x)[b] == (Bits(v)[b] || Bits(w)[b]) {
      BitsAt(x, b);
      BitsAt(v, b);
      BitsAt(w, b);
      OrBit(v, w, b);
    }
  }

  lemma XorIs(v: bv64, w: bv64)
    ensures v ^ w == (v | w) & !(v & w)
  {
  }

  lemma XorBits(v: bv64, w: bv64)
    ensures forall b :: 0 <= b < BITS ==> Bits(v ^ w)[b] == (Bits(v)[b] != Bits(w)[b])
  {
    XorIs(v, w);
    OrBits(v, w);
    AndBits(v, w);
    NotBits(v & w);
    AndBits(v | w, !(v & w));
  }

  lemma ZeroHasNone(w: bv64)
    requires w == 0
    ensures forall b :: 0 <= b < BITS ==> !Bits(w)[b]
  {
    forall b | 0 <= b < BITS ensures !Bits(w)[b] {
      BitsAt(w, b);
      ZeroBit(b);
    }
  }

  lemma NoneIsZero(w: bv64)
    requires forall b :: 0 <= b < BITS ==> !Bits(w)[b]
    ensures w == 0
  {
    forall b | 0 <= b < BITS ensures !Bit(w, b) {
      BitsAt(w, b);
    }
    NoBits(w);
  }

  /** The zero word has no bits, and is the only one. */
  lemma ZeroBits(w: bv64)
    ensures w == 0 <==> forall b :: 0 <= b < BITS ==> !Bits(w)[b]
  {
    if w == 0 {
      ZeroHasNone(w);
    } else if forall b :: 0 <= b < BITS ==> !Bits(w)[b] {
      NoneIsZero(w);
    }
  }

  lemma XorZero(v: bv64, w: bv64)
    ensures v ^ w == 0 <==> v == w
  {
  }

  /** Two words are equal when their bits are. */
  lemma BitsEqual(v: bv64, w: bv64)
    ensures v == w <==> forall b :: 0 <= b < BITS ==> Bits(v)[b] == Bits(w)[b]
  {
    var x := v ^ w;
    XorBits(v, w);
    assert forall b :: 0 <= b < BITS ==> Bits(x)[b] == (Bits(v)[b] != Bits(w)[b]);
    ZeroBits(x);
    XorZero(v, w);
  }

  /** The all-ones word has every bit, and is the only one. */
  lemma OnesBits(w: bv64)
    ensures w == ONES <==> forall b :: 0 <= b < BITS ==> Bits(w)[b]
  {
    var ones := ONES;
    forall b | 0 <= b < BITS ensures Bits(ones)[b] {
      BitsAt(ones, b);
      AllBit(b);
    }
    BitsEqual(w, ones);
  }

  // ---------------------------------------------------------------- masks

  /** BITMAP_WORDBIT has exactly bit n % 64. */
  lemma WordBitBits(n: nat)
    ensures forall b :: 0 <= b < BITS ==> Bits(WordBit(n))[b] == (b == n % BITS)
  {
    var m := WordBit(n);
    forall b | 0 <= b < BITS ensures Bits(m)[b] == (b == n % BITS) {
      BitsAt(m, b);
      WordBitBit(n, b);
    }
  }

  lemma HeadBits(n: nat)
    ensures forall b :: 0 <= b < BITS ==> Bits(HeadMask(n))[b] == (n % BITS <= b)
  {
    var m := HeadMask(n);
    forall b | 0 <= b < BITS ensures Bits(m)[b] == (n % BITS <= b) {
      BitsAt(m, b);
      HeadBit(n, b);
    }
  }

  lemma SomeBit(w: bv64) returns (b: nat)
    requires w != 0
    ensures b < BITS && Bits(w)[b]
  {
    ZeroBits(w);
    b :| 0 <= b < BITS && Bits(w)[b];
  }

  /** A word whose one bit is b. */
  predicate Only(m: bv64, b: nat) {
    forall c :: 0 <= c < BITS ==> Bits(m)[c] == (c == b)
  }

  lemma OnlyMask(m: bv64, b: nat)
    requires b < BITS
    ensures Only(m, b) <==> m == BitMask(b)
  {
    var k := BitMask(b);
    forall c | 0 <= c < BITS ensures Bits(k)[c] == (c == b) {
      BitsAt(k, c);
      MaskBit(b, c);
    }
    BitsEqual(m, k);
  }

  /** `w & mask`, where mask is on bit b. */
  method Hit(w: bv64, mask: bv64, ghost b: nat) returns (hit: bool)
    requires b < BITS && Only(mask, b)
    ensures hit == Bits(w)[b]
  {
    OnlyMask(mask, b);
    BitsAt(w, b);
    hit := Masked(w, mask);
  }

  method FirstMask() returns (mask: bv64)
    ensures Only(mask, 0)
  {
    mask := 0x8000_0000_0000_0000;
    OnlyMask(mask, 0);
  }

  method NextMask(mask: bv64, ghost b: nat) returns (next: bv64)
    requires b + 1 < BITS && Only(mask, b)
    ensures Only(next, b + 1)
  {
    next := Halve(mask);
    OnlyMask(mask, b);
    OnlyMask(next, b + 1);
  }

  /** bitmap_clz: the position of the first set bit. */
  method Clz(w: bv64) returns (lz: nat)
    requires w != 0
    ensures lz < BITS && Bits(w)[lz] && forall b :: 0 <= b < lz ==> !Bits(w)[b]
  {
    ghost var some := SomeBit(w);
    lz := 0;
    var mask := FirstMask();
    var hit := Hit(w, mask, lz);
    while !hit
      invariant lz <= some && Only(mask, lz) && hit == Bits(w)[lz]
      invariant forall b :: 0 <= b < lz ==> !Bits(w)[b]
      decreases some - lz, !hit
    {
      mask := NextMask(mask, lz);
      lz := lz + 1;
      hit := Hit(w, mask, lz);
    }
  }

  // ---------------------------------------------------------------- the word operations of bitmap.h

  method HeadOnly(n: nat) returns (mask: bv64)
    ensures forall b :: 0 <= b < BITS ==> Bits(mask)[b] == (n % BITS <= b)
  {
    mask := HeadMask(n);
    HeadBits(n);
  }

  method TailOnly(m: nat) returns (mask: bv64)
    ensures forall b :: 0 <= b < BITS ==> Bits(mask)[b] == (b < m % BITS)
  {
    var head := HeadOnly(m);
    mask := Invert(head);
  }

  method BitOnly(n: nat) returns (mask: bv64)
    ensures Only(mask, n % BITS)
  {
    mask := WordBit(n);
    WordBitBits(n);
  }

  /** The operators that BITMAP_DEF_BINOP is given, and the plain ones. */
  datatype Op = And | Or | Xor | AndNot

  predicate OnBits(op: Op, x: bool, y: bool) {
    match op
    case And => x && y
    case Or => x || y
    case Xor => x != y
    case AndNot => x && !y
  }

  method AndWords(v: bv64, w: bv64) returns (r: bv64)
    ensures forall b :: 0 <= b < BITS ==> Bits(r)[b] == (Bits(v)[b] && Bits(w)[b])
  {
    r := v & w;
    AndBits(v, w);
  }

  method OrWords(v: bv64, w: bv64) returns (r: bv64)
    ensures forall b :: 0 <= b < BITS ==> Bits(r)[b] == (Bits(v)[b] || Bits(w)[b])
  {
    r := v | w;
    OrBits(v, w);
  }

  method XorWords(v: bv64, w: bv64) returns (r: bv64)
    ensures forall b :: 0 <= b < BITS ==> Bits(r)[b] == (Bits(v)[b] != Bits(w)[b])
  {
    r := v ^ w;
    XorBits(v, w);
  }

  /** Each operator acts on every bit of a word separately. */
  method Combine(op: Op, v: bv64, w: bv64) returns (r: bv64)
    ensures forall b :: 0 <= b < BITS ==> Bits(r)[b] == OnBits(op, Bits(v)[b], Bits(w)[b])
  {
    match op
    case And => r := AndWords(v, w);
    case Or => r := OrWords(v, w);
    case Xor => r := XorWords(v, w);
    case AndNot =>
      var not := Invert(w);
      r := AndWords(v, not);
  }

  method Invert(v: bv64) returns (r: bv64)
    ensures forall b :: 0 <= b < BITS ==> Bits(r)[b] == !Bits(v)[b]
  {
    r := !v;
    NotBits(v);
  }
}