/**
 * Block-descriptor address arithmetic of the block allocator.
 *
 * Heap memory is reserved in megablocks of 2^MBLOCK_SHIFT bytes. Each megablock
 * is cut into blocks of 2^BLOCK_SHIFT bytes, and its leading region holds one
 * descriptor of 2^BDESCR_SHIFT bytes per block. `Bdescr` maps any address to the
 * address of the descriptor of the block holding it, using only masks, one shift
 * and one OR. The three shift constants are parameters here (`Layout`).
 *
 * Addresses are unbounded naturals. The C code works on a machine word (`W_`);
 * `BdescrAtMost` shows the result never exceeds the address, so no wrap-around
 * can occur. The bitwise operators are defined bit by bit on naturals, so
 * `Bdescr` is written with the same masks as the source, and the lemmas below
 * reduce each mask to division and remainder by powers of two.
 */
module BlockAlloc {

  // ---------------------------------------------------------------------------
  // Powers of two and bitwise operators on naturals
  // ---------------------------------------------------------------------------

  /** 2^k. */
  function Pow2(k: nat): (r: nat)
    ensures r >= 1
  {
    if k == 0 then 1 else 2 * Pow2(k - 1)
  }

  /** The mask with the low `k` bits set, 2^k - 1 (BLOCK_MASK, MBLOCK_MASK). */
  function Mask(k: nat): nat
  {
    Pow2(k) - 1
  }

  /** Bitwise `a & b`. */
  function And(a: nat, b: nat): nat
    decreases a
  {
    if a == 0 || b == 0 then 0
    else 2 * And(a / 2, b / 2) + (if a % 2 == 1 && b % 2 == 1 then 1 else 0)
  }

  /** Bitwise `a & ~b`. */
  function AndNot(a: nat, b: nat): nat
    decreases a
  {
    if a == 0 then 0
    else 2 * AndNot(a / 2, b / 2) + (if a % 2 == 1 && b % 2 == 0 then 1 else 0)
  }

  /** Bitwise `a | b`. */
  function Or(a: nat, b: nat): nat
    decreases a + b
  {
    if a == 0 then b
    else if b == 0 then a
    else 2 * Or(a / 2, b / 2) + (if a % 2 == 1 || b % 2 == 1 then 1 else 0)
  }

  /** Logical right shift `a >> k`. */
  function Shr(a: nat, k: nat): nat
  {
    DivNonneg(a, Pow2(k));
    a / Pow2(k)
  }

  /** Division of a natural by a positive number stays a natural. */
  lemma DivNonneg(a: nat, d: nat)
    requires d >= 1
    ensures a / d >= 0 && a % d >= 0 && (a / d) * d >= 0
  {
  }

  // ---------------------------------------------------------------------------
  // The descriptor mapping
  // ---------------------------------------------------------------------------

  /** The three layout constants (log2 of block size, megablock size, descriptor size). */
  datatype Layout = Layout(blockShift: nat, mblockShift: nat, bdescrShift: nat)

  /** A descriptor is no larger than a block, and a block no larger than a megablock. */
  predicate ValidLayout(l: Layout)
  {
    l.bdescrShift <= l.blockShift <= l.mblockShift
  }

  /**
   * `Bdescr(p)`: the bits of `p` between BLOCK_SHIFT and MBLOCK_SHIFT (the block's
   * index in its megablock) shifted down by BLOCK_SHIFT - BDESCR_SHIFT, OR-ed with
   * the bits of `p` above MBLOCK_SHIFT (the megablock's base address).
   */
  function Bdescr(l: Layout, p: nat): nat
    requires ValidLayout(l)
  {
    Or(Shr(AndNot(And(p, Mask(l.mblockShift)), Mask(l.blockShift)), l.blockShift - l.bdescrShift),
       AndNot(p, Mask(l.mblockShift)))
  }

  /** The base address of the megablock holding `p`. */
  function MegablockBase(l: Layout, p: nat): nat
  {
    var mb := Pow2(l.mblockShift);
    DivNonneg(p, mb);
    (p / mb) * mb
  }

  /** The index, within its megablock, of the block holding `p`. */
  function BlockIndex(l: Layout, p: nat): nat
  {
    var mb, bl := Pow2(l.mblockShift), Pow2(l.blockShift);
    DivNonneg(p, mb);
    DivNonneg(p % mb, bl);
    (p % mb) / bl
  }

  // ---------------------------------------------------------------------------
  // Arithmetic helpers
  // ---------------------------------------------------------------------------

  lemma {:induction false} Pow2Add(a: nat, b: nat)
    ensures Pow2(a + b) == Pow2(a) * Pow2(b)
  {
    if a > 0 {
      Pow2Add(a - 1, b);
      assert Pow2(a + b) == 2 * Pow2(a - 1 + b);
    }
  }

  lemma DivModUnique(a: int, m: int, q: int, r: int)
    requires m > 0 && 0 <= r < m && a == q * m + r
    ensures a / m == q && a % m == r
  {
    var q0, r0 := a / m, a % m;
    assert a == q0 * m + r0;
    if q > q0 {
      assert (q - q0) * m == r0 - r;
      assert (q - q0) * m >= m by { MulAtLeast(q - q0, m); }
    } else if q < q0 {
      assert (q0 - q) * m == r - r0;
      assert (q0 - q) * m >= m by { MulAtLeast(q0 - q, m); }
    }
  }

  lemma MulAtLeast(x: int, m: int)
    requires x >= 1 && m > 0
    ensures x * m >= m
  {
  }

  /** Dividing by `a` and then by `b` is dividing by `a * b`; the remainders nest. */
  lemma DivModNested(p: nat, a: nat, b: nat)
    requires a > 0 && b > 0
    ensures p / (a * b) == (p / a) / b
    ensures (p % (a * b)) / a == (p / a) % b
    ensures (p % (a * b)) % a == p % a
  {
    var q1, r1 := p / a, p % a;
    var q2, r2 := q1 / b, q1 % b;
    assert p == q2 * (a * b) + (r2 * a + r1) by {
      assert p == q1 * a + r1;
      assert q1 == q2 * b + r2;
      assert q1 * a == (q2 * b + r2) * a;
    }
    assert r2 * a + r1 < a * b by {
      assert r2 <= b - 1;
      assert r2 * a <= (b - 1) * a;
    }
    DivModUnique(p, a * b, q2, r2 * a + r1);
    DivModUnique(r2 * a + r1, a, r2, r1);
  }

  /** Splitting off the lowest bit of a remainder modulo an even number. */
  lemma ModSplit(a: nat, m: nat)
    requires m >= 1
    ensures a % (2 * m) == 2 * ((a / 2) % m) + a % 2
  {
    DivModNested(a, 2, m);
    assert a % (2 * m) == (a % (2 * m)) / 2 * 2 + (a % (2 * m)) % 2;
  }

  // ---------------------------------------------------------------------------
  // The masks as arithmetic
  // ---------------------------------------------------------------------------

  /** `a & MASK(k)` keeps the low `k` bits: it is `a mod 2^k`. */
  lemma {:induction false} AndMask(a: nat, k: nat)
    ensures And(a, Mask(k)) == a % Pow2(k)
    decreases k
  {
    if k > 0 && a != 0 {
      assert Mask(k) / 2 == Mask(k - 1) && Mask(k) % 2 == 1;
      AndMask(a / 2, k - 1);
      ModSplit(a, Pow2(k - 1));
    }
  }

  lemma {:induction false} AndNotZero(a: nat)
    ensures AndNot(a, 0) == a
  {
    if a != 0 {
      AndNotZero(a / 2);
    }
  }

  /** `a & ~MASK(k)` clears the low `k` bits: it is `a - a mod 2^k`. */
  lemma {:induction false} AndNotMask(a: nat, k: nat)
    ensures AndNot(a, Mask(k)) == a - a % Pow2(k)
    decreases k
  {
    if k == 0 {
      AndNotZero(a);
    } else if a != 0 {
      assert Mask(k) / 2 == Mask(k - 1) && Mask(k) % 2 == 1;
      AndNotMask(a / 2, k - 1);
      ModSplit(a, Pow2(k - 1));
    }
  }

  /** OR of a value below 2^k with a multiple of 2^k is their sum. */
  lemma {:induction false} OrDisjoint(a: nat, b: nat, k: nat)
    requires a < Pow2(k) && b % Pow2(k) == 0
    ensures Or(a, b) == a + b
    decreases k
  {
    if a != 0 && b != 0 {
      assert k > 0;
      ModSplit(b, Pow2(k - 1));
      OrDisjoint(a / 2, b / 2, k - 1);
    }
  }

  lemma MulMod(x: nat, m: nat)
    requires m > 0
    ensures (x * m) % m == 0 && (x * m) / m == x
  {
    DivModUnique(x * m, m, x, 0);
  }

  // ---------------------------------------------------------------------------
  // Properties of Bdescr
  // ---------------------------------------------------------------------------

  /** The sizes derived from a valid layout, and how they relate. */
  lemma LayoutSizes(l: Layout)
    requires ValidLayout(l)
    ensures Pow2(l.blockShift) == Pow2(l.blockShift - l.bdescrShift) * Pow2(l.bdescrShift)
    ensures Pow2(l.mblockShift) == Pow2(l.blockShift) * Pow2(l.mblockShift - l.blockShift)
    ensures Pow2(l.mblockShift - l.blockShift + l.bdescrShift)
            == Pow2(l.mblockShift - l.blockShift) * Pow2(l.bdescrShift)
    ensures Pow2(l.mblockShift) == Pow2(l.mblockShift - l.blockShift + l.bdescrShift) * Pow2(l.blockShift - l.bdescrShift)
  {
    var M, B, D := l.mblockShift, l.blockShift, l.bdescrShift;
    Pow2Add(B - D, D);
    Pow2Add(B, M - B);
    Pow2Add(M - B, D);
    Pow2Add(M - B + D, B - D);
  }

  /** Clearing the low block bits and shifting by BLOCK_SHIFT - BDESCR_SHIFT scales the block index. */
  lemma ShiftedIndexArith(o: nat, bl: nat, ds: nat, sh: nat)
    requires ds > 0 && sh > 0 && bl == sh * ds
    ensures (o - o % bl) / sh == (o / bl) * ds
  {
    assert o - o % bl == (o / bl) * bl;
    assert (o / bl) * bl == ((o / bl) * ds) * sh;
    MulMod((o / bl) * ds, sh);
  }

  /** A block index is below the number of blocks per megablock, and so is its scaled offset. */
  lemma IndexBoundArith(p: nat, mb: nat, bl: nat, ds: nat, sh: nat, per: nat)
    requires ds > 0 && sh > 0 && per > 0
    requires bl == sh * ds && mb == bl * per
    ensures (p % mb) / bl < per
    ensures ((p % mb) / bl) * ds < per * ds <= mb
  {
    var i := (p % mb) / bl;
    assert i < per by {
      DivModNested(p, bl, per);
    }
    assert i * ds < per * ds by {
      assert (per - i) * ds >= ds by { MulAtLeast(per - i, ds); }
    }
    assert per * ds <= mb by {
      assert mb == (per * ds) * sh;
      MulAtLeast(sh, per * ds);
    }
  }

  /** Clearing the low megablock bits leaves a multiple of the megablock size. */
  lemma BaseArith(p: nat, mb: nat)
    requires mb > 0
    ensures p - p % mb == (p / mb) * mb && (p - p % mb) % mb == 0
  {
    assert p == (p / mb) * mb + p % mb;
    MulMod(p / mb, mb);
  }

  /**
   * The two OR-ed parts occupy disjoint bit ranges, so the descriptor address is
   * the megablock's base plus the block index times the descriptor size; the block
   * index is below the number of blocks in a megablock, and the offset of the
   * descriptor in its megablock is below 2^(MBLOCK_SHIFT - BLOCK_SHIFT + BDESCR_SHIFT).
   */
  lemma BdescrDecomposition(l: Layout, p: nat)
    requires ValidLayout(l)
    ensures Bdescr(l, p) == MegablockBase(l, p) + BlockIndex(l, p) * Pow2(l.bdescrShift)
    ensures MegablockBase(l, p) == (p / Pow2(l.mblockShift)) * Pow2(l.mblockShift)
    ensures BlockIndex(l, p) < Pow2(l.mblockShift - l.blockShift)
    ensures BlockIndex(l, p) * Pow2(l.bdescrShift) < Pow2(l.mblockShift - l.blockShift + l.bdescrShift)
  {
    var M, B, D := l.mblockShift, l.blockShift, l.bdescrShift;
    var mb, bl, ds, sh, per := Pow2(M), Pow2(B), Pow2(D), Pow2(B - D), Pow2(M - B);
    var i := BlockIndex(l, p);
    assert bl == sh * ds && mb == bl * per && Pow2(M - B + D) == per * ds by {
      LayoutSizes(l);
    }
    var low := Shr(AndNot(And(p, Mask(M)), Mask(B)), B - D);
    var high := AndNot(p, Mask(M));
    assert low == i * ds by {
      AndMask(p, M);
      AndNotMask(p % mb, B);
      ShiftedIndexArith(p % mb, bl, ds, sh);
    }
    assert i < per && i * ds < per * ds <= mb by {
      IndexBoundArith(p, mb, bl, ds, sh, per);
    }
    assert high == MegablockBase(l, p) && high % mb == 0 by {
      AndNotMask(p, M);
      BaseArith(p, mb);
    }
    OrDisjoint(low, high, M);
  }

  /** The arithmetic behind `SameBlockSameDescriptor`, on plain numbers. */
  lemma SameBlockArith(p: nat, q: nat, bl: nat, per: nat)
    requires bl > 0 && per > 0
    requires p - p % bl == q - q % bl
    ensures p / (bl * per) == q / (bl * per)
    ensures (p % (bl * per)) / bl == (q % (bl * per)) / bl
  {
    assert p / bl == q / bl by {
      assert p - p % bl == (p / bl) * bl;
      assert q - q % bl == (q / bl) * bl;
      MulMod(p / bl, bl);
      MulMod(q / bl, bl);
    }
    DivModNested(p, bl, per);
    DivModNested(q, bl, per);
  }

  /** Two addresses with the same bits above BLOCK_SHIFT have the same descriptor. */
  lemma SameBlockSameDescriptor(l: Layout, p: nat, q: nat)
    requires ValidLayout(l)
    requires AndNot(p, Mask(l.blockShift)) == AndNot(q, Mask(l.blockShift))
    ensures Bdescr(l, p) == Bdescr(l, q)
  {
    LayoutSizes(l);
    AndNotMask(p, l.blockShift);
    AndNotMask(q, l.blockShift);
    SameBlockArith(p, q, Pow2(l.blockShift), Pow2(l.mblockShift - l.blockShift));
    BdescrDecomposition(l, p);
    BdescrDecomposition(l, q);
  }

  /** Adding a small offset to a multiple of `m` leaves the multiple in place. */
  lemma MultiplePlusSmall(k: nat, m: nat, r: nat)
    requires 0 <= r < m
    ensures (k * m + r) % m == r && (k * m + r) / m == k
    ensures (k * m + r) - (k * m + r) % m == k * m
  {
    DivModUnique(k * m + r, m, k, r);
  }

  /** The descriptor region fits in a megablock, and a descriptor in a block. */
  lemma RegionFits(l: Layout)
    requires ValidLayout(l)
    ensures Pow2(l.mblockShift - l.blockShift + l.bdescrShift) <= Pow2(l.mblockShift)
    ensures Pow2(l.bdescrShift) <= Pow2(l.blockShift)
  {
    Pow2Monotone(l.mblockShift - l.blockShift + l.bdescrShift, l.mblockShift);
    Pow2Monotone(l.bdescrShift, l.blockShift);
  }

  /** Powers of two grow with the exponent. */
  lemma {:induction false} Pow2Monotone(a: nat, b: nat)
    requires a <= b
    ensures Pow2(a) <= Pow2(b)
    decreases b
  {
    if a < b {
      Pow2Monotone(a, b - 1);
    }
  }

  /**
   * The descriptor lies in the same megablock as the address, within the
   * megablock's leading 2^(MBLOCK_SHIFT - BLOCK_SHIFT + BDESCR_SHIFT) bytes.
   */
  lemma DescriptorInSameMegablock(l: Layout, p: nat)
    requires ValidLayout(l)
    ensures AndNot(Bdescr(l, p), Mask(l.mblockShift)) == AndNot(p, Mask(l.mblockShift))
    ensures And(Bdescr(l, p), Mask(l.mblockShift)) < Pow2(l.mblockShift - l.blockShift + l.bdescrShift)
  {
    DescriptorOffset(l, p);
    MaskedParts(Bdescr(l, p), p, l.mblockShift, Pow2(l.mblockShift - l.blockShift + l.bdescrShift));
  }

  /** `DescriptorInSameMegablock` on plain numbers: the same megablock, and an offset inside the descriptor region. */
  lemma DescriptorOffset(l: Layout, p: nat)
    requires ValidLayout(l)
    ensures var x, m := Bdescr(l, p), Pow2(l.mblockShift);
      x - x % m == p - p % m && x % m < Pow2(l.mblockShift - l.blockShift + l.bdescrShift)
  {
    var off := DescriptorParts(l, p);
    SameMegablockArith(p, Pow2(l.mblockShift), off, Pow2(l.mblockShift - l.blockShift + l.bdescrShift));
  }

  /** A descriptor's address is its megablock's base plus an offset inside the descriptor region. */
  lemma DescriptorParts(l: Layout, p: nat) returns (off: nat)
    requires ValidLayout(l)
    ensures Bdescr(l, p) == (p / Pow2(l.mblockShift)) * Pow2(l.mblockShift) + off
    ensures off < Pow2(l.mblockShift - l.blockShift + l.bdescrShift) <= Pow2(l.mblockShift)
  {
    BdescrDecomposition(l, p);
    RegionFits(l);
    off := BlockIndex(l, p) * Pow2(l.bdescrShift);
  }

  /** Two numbers agreeing above bit `k`, the first below `r` modulo 2^k, as masks. */
  lemma MaskedParts(x: nat, p: nat, k: nat, r: nat)
    requires x - x % Pow2(k) == p - p % Pow2(k) && x % Pow2(k) < r
    ensures AndNot(x, Mask(k)) == AndNot(p, Mask(k)) && And(x, Mask(k)) < r
  {
    AndNotMask(x, k);
    AndNotMask(p, k);
    AndMask(x, k);
  }

  /** The arithmetic behind `DescriptorInSameMegablock`, on plain numbers. */
  lemma SameMegablockArith(p: nat, m: nat, off: nat, r: nat)
    requires 0 < m && off < r <= m
    ensures (p / m) * m + off - ((p / m) * m + off) % m == p - p % m
    ensures ((p / m) * m + off) % m < r
  {
    DivNonneg(p, m);
    MultiplePlusSmall(p / m, m, off);
    BaseArith(p, m);
  }

  /** The arithmetic behind `DescriptorAligned`, on plain numbers. */
  lemma AlignedArith(k: nat, m: nat, i: nat, ds: nat, rest: nat)
    requires ds > 0 && m == ds * rest
    ensures (k * m + i * ds) % ds == 0
  {
    assert k * m + i * ds == (k * rest + i) * ds;
    MulMod(k * rest + i, ds);
  }

  /** The descriptor address is aligned to the descriptor size: its low BDESCR_SHIFT bits are zero. */
  lemma DescriptorAligned(l: Layout, p: nat)
    requires ValidLayout(l)
    ensures And(Bdescr(l, p), Mask(l.bdescrShift)) == 0
  {
    var M, D := l.mblockShift, l.bdescrShift;
    var m, ds := Pow2(M), Pow2(D);
    DivNonneg(p, m);
    var k, i, x := p / m, BlockIndex(l, p), Bdescr(l, p);
    assert x == k * m + i * ds by {
      BdescrDecomposition(l, p);
    }
    assert m == ds * Pow2(M - D) by {
      Pow2Add(D, M - D);
    }
    assert x % ds == 0 by {
      AlignedArith(k, m, i, ds, Pow2(M - D));
    }
    AndMask(x, D);
  }

  /** Multiplication by a positive number is injective. */
  lemma CancelScaled(i: nat, j: nat, ds: nat)
    requires ds > 0 && i * ds == j * ds
    ensures i == j
  {
    MulMod(i, ds);
    MulMod(j, ds);
  }

  /** The arithmetic behind `DescriptorInjective`, on plain numbers. */
  lemma InjectiveArith(p: nat, q: nat, mb: nat, bl: nat, per: nat)
    requires bl > 0 && per > 0 && mb == bl * per
    requires p / mb == q / mb
    requires (p % mb) / bl == (q % mb) / bl
    ensures p - p % bl == q - q % bl
  {
    DivModNested(p, bl, per);
    DivModNested(q, bl, per);
    assert p / bl == (p / bl) / per * per + (p / bl) % per;
    assert q / bl == (q / bl) / per * per + (q / bl) % per;
    assert p / bl == q / bl;
    assert p - p % bl == (p / bl) * bl;
    assert q - q % bl == (q / bl) * bl;
  }

  /** Two numbers with the same multiple of `m` below them have the same quotient by `m`. */
  lemma SameQuotient(p: nat, q: nat, m: nat)
    requires m > 0 && p - p % m == q - q % m
    ensures p / m == q / m
  {
    BaseArith(p, m);
    BaseArith(q, m);
    CancelScaled(p / m, q / m, m);
  }

  /** Within one megablock, a shared descriptor means a shared block. */
  lemma SameDescriptorSameBlock(l: Layout, p: nat, q: nat)
    requires ValidLayout(l)
    requires AndNot(p, Mask(l.mblockShift)) == AndNot(q, Mask(l.mblockShift))
    requires Bdescr(l, p) == Bdescr(l, q)
    ensures AndNot(p, Mask(l.blockShift)) == AndNot(q, Mask(l.blockShift))
  {
    var M, B, D := l.mblockShift, l.blockShift, l.bdescrShift;
    assert p / Pow2(M) == q / Pow2(M) by {
      AndNotMask(p, M);
      AndNotMask(q, M);
      SameQuotient(p, q, Pow2(M));
    }
    assert BlockIndex(l, p) == BlockIndex(l, q) by {
      BdescrDecomposition(l, p);
      BdescrDecomposition(l, q);
      CancelScaled(BlockIndex(l, p), BlockIndex(l, q), Pow2(D));
    }
    LayoutSizes(l);
    InjectiveArith(p, q, Pow2(M), Pow2(B), Pow2(M - B));
    AndNotMask(p, B);
    AndNotMask(q, B);
  }

  /**
   * Within one megablock, two addresses share a descriptor exactly when they lie
   * in the same block: the mapping is injective on blocks.
   */
  lemma DescriptorInjective(l: Layout, p: nat, q: nat)
    requires ValidLayout(l)
    requires AndNot(p, Mask(l.mblockShift)) == AndNot(q, Mask(l.mblockShift))
    ensures Bdescr(l, p) == Bdescr(l, q) <==>
            AndNot(p, Mask(l.blockShift)) == AndNot(q, Mask(l.blockShift))
  {
    if Bdescr(l, p) == Bdescr(l, q) {
      SameDescriptorSameBlock(l, p, q);
    } else if AndNot(p, Mask(l.blockShift)) == AndNot(q, Mask(l.blockShift)) {
      SameBlockSameDescriptor(l, p, q);
    }
  }

  /** The arithmetic behind `BdescrAtMost`, on plain numbers. */
  lemma AtMostArith(p: nat, mb: nat, bl: nat, ds: nat)
    requires mb > 0 && bl > 0 && ds <= bl
    ensures (p / mb) * mb + ((p % mb) / bl) * ds <= p
  {
    var r := p % mb;
    var i := r / bl;
    assert i * ds <= i * bl by {
      MulMonotone(i, ds, bl);
    }
    assert i * bl <= r by {
      assert r == i * bl + r % bl;
    }
    assert p == (p / mb) * mb + r;
  }

  /** Multiplying by a non-negative number keeps the order. */
  lemma MulMonotone(i: nat, a: nat, b: nat)
    requires a <= b
    ensures i * a <= i * b
  {
    assert i * b == i * a + i * (b - a);
  }

  /** The descriptor of an address never lies above the address (so it cannot wrap around). */
  lemma BdescrAtMost(l: Layout, p: nat)
    requires ValidLayout(l)
    ensures Bdescr(l, p) <= p
  {
    var M, B, D := l.mblockShift, l.blockShift, l.bdescrShift;
    var m, bl, ds := Pow2(M), Pow2(B), Pow2(D);
    assert Bdescr(l, p) == (p / m) * m + ((p % m) / bl) * ds by {
      BdescrDecomposition(l, p);
    }
    assert ds <= bl by {
      Pow2Monotone(D, B);
    }
    AtMostArith(p, m, bl, ds);
  }

  /** The arithmetic behind `BlockIndexFromDescriptor`, on plain numbers. */
  lemma IndexFromOffsetArith(k: nat, m: nat, i: nat, ds: nat)
    requires ds > 0 && i * ds < m
    ensures ((k * m + i * ds) % m) / ds == i
  {
    MultiplePlusSmall(k, m, i * ds);
    MulMod(i, ds);
  }

  /** The block index can be read back from the descriptor address. */
  lemma BlockIndexFromDescriptor(l: Layout, p: nat)
    requires ValidLayout(l)
    ensures (Bdescr(l, p) % Pow2(l.mblockShift)) / Pow2(l.bdescrShift) == BlockIndex(l, p)
  {
    var m, ds := Pow2(l.mblockShift), Pow2(l.bdescrShift);
    DivNonneg(p, m);
    var k, i := p / m, BlockIndex(l, p);
    assert Bdescr(l, p) == k * m + i * ds && i * ds < m by {
      BdescrDecomposition(l, p);
      RegionFits(l);
    }
    IndexFromOffsetArith(k, m, i, ds);
  }
}
