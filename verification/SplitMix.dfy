/** The seed source: a Weyl sequence of seeds, each mixed into one word. */
module SplitMix {
  import opened Words
  import opened ByteBlocks

  const DEFAULT_GAMMA: bv64 := 0x9e37_79b9_7f4a_7c15

  // The 64-bit value `mix64` computes, before it is returned as `uint32_t`

  function Fold33(z: bv64): bv64 { z ^ (z >> 33) }

  function TimesA(z: bv64): bv64 { z * 0xff51_afd7_ed55_8ccd }

  function TimesB(z: bv64): bv64 { z * 0xc4ce_b9fe_1a85_ec53 }

  function DivideA(z: bv64): bv64 { z * 0x4f74_430c_22a5_4005 }

  function DivideB(z: bv64): bv64 { z * 0x9cb4_b2f8_1293_37db }

  function Mix(z: bv64): bv64 { Fold33(TimesB(Fold33(TimesA(Fold33(z))))) }

  function Unmix(w: bv64): bv64 { Fold33(DivideA(Fold33(DivideB(Fold33(w))))) }

  /** The conversion to `uint32_t` on return, widened again by `next`. */
  function Narrow(w: bv64): bv64 { w & 0xffff_ffff }

  /** Addition modulo 2^64. */
  function Add(x: bv64, y: bv64): bv64 { x + y }

  /** The seed after `n` calls of `next_seed`. */
  function SeedAt(seed: bv64, gamma: bv64, n: nat): bv64
    decreases n
  {
    if n == 0 then seed else SeedAt(Add(seed, gamma), gamma, n - 1)
  }

  /** The next `n` words. */
  function Draws(seed: bv64, gamma: bv64, n: nat): (ws: seq<bv64>)
    ensures |ws| == n
    decreases n
  {
    if n == 0 then [] else [Narrow(Mix(Add(seed, gamma)))] + Draws(Add(seed, gamma), gamma, n - 1)
  }

  // Mixing is a bijection before narrowing

  lemma FoldRaw(z: bv64)
    ensures Fold33(z ^ (z >> 33)) == z
  {}

  lemma TimesRaw(z: bv64)
    ensures DivideA(z * 0xff51_afd7_ed55_8ccd) == z && TimesA(z * 0x4f74_430c_22a5_4005) == z
    ensures DivideB(z * 0xc4ce_b9fe_1a85_ec53) == z && TimesB(z * 0x9cb4_b2f8_1293_37db) == z
  {}

  /** The xor-shift by 33 is its own inverse, and both multipliers are invertible. */
  lemma StagesInvert(z: bv64)
    ensures Fold33(Fold33(z)) == z
    ensures DivideA(TimesA(z)) == z && TimesA(DivideA(z)) == z
    ensures DivideB(TimesB(z)) == z && TimesB(DivideB(z)) == z
  {
    FoldRaw(z);
    TimesRaw(z);
    assert Fold33(z) == z ^ (z >> 33);
    assert TimesA(z) == z * 0xff51_afd7_ed55_8ccd && DivideA(z) == z * 0x4f74_430c_22a5_4005;
    assert TimesB(z) == z * 0xc4ce_b9fe_1a85_ec53 && DivideB(z) == z * 0x9cb4_b2f8_1293_37db;
  }

  /** The 64-bit value computed by `mix64` is a bijection of the seed. */
  lemma MixBijective(z: bv64)
    ensures Unmix(Mix(z)) == z
    ensures Mix(Unmix(z)) == z
  {
    hide Fold33, TimesA, TimesB, DivideA, DivideB;
    StagesInvert(z);
    StagesInvert(Fold33(z));
    StagesInvert(TimesA(Fold33(z)));
    StagesInvert(Fold33(TimesA(Fold33(z))));
    StagesInvert(TimesB(Fold33(TimesA(Fold33(z)))));
    StagesInvert(DivideB(Fold33(z)));
    StagesInvert(Fold33(DivideB(Fold33(z))));
    StagesInvert(DivideA(Fold33(DivideB(Fold33(z)))));
  }

  /** The word times 2^32, modulo 2^64. */
  function Raised(w: bv64): bv64 { w << 32 }

  function Lowered(u: bv64): bv64 { u >> 32 }

  /** Two words agree modulo 2^32: their multiples by 2^32 agree modulo 2^64. */
  predicate Congruent(w: bv64, w': bv64) { Raised(w) == Raised(w') }

  /** The narrowed word is the value below 2^32 that agrees with the mixed one modulo 2^32. */
  lemma NarrowKeepsLow(w: bv64)
    ensures Narrow(w) < 0x1_0000_0000 && Congruent(w, Narrow(w))
  {}

  lemma NarrowIsLowered(w: bv64)
    ensures Narrow(w) == Lowered(Raised(w))
  {}

  /** Two mixed values are narrowed to the same word exactly when they agree modulo 2^32. */
  lemma NarrowAgrees(w: bv64, w': bv64)
    ensures Narrow(w) == Narrow(w') <==> Congruent(w, w')
  {
    hide Narrow, Raised, Lowered;
    NarrowKeepsLow(w);
    NarrowKeepsLow(w');
    NarrowIsLowered(w);
    NarrowIsLowered(w');
  }

  /** So the narrowed `mix64` is not injective: two seeds give the word 0. */
  lemma NarrowedMixCollides()
    ensures exists z, z' :: z != z' && Narrow(Mix(z)) == Narrow(Mix(z')) == 0
  {
    hide Mix, Unmix;
    var z, z' := Unmix(0), Unmix(0x1_0000_0000);
    MixBijective(0);
    MixBijective(0x1_0000_0000);
    assert Narrow(Mix(z)) == Narrow(Mix(z')) == 0;
  }

  // The period of the seeds

  /** `gamma` added `n` times. */
  function Times(gamma: bv64, n: nat): bv64
    decreases n
  {
    if n == 0 then 0 else Add(gamma, Times(gamma, n - 1))
  }

  function Double(u: bv64): bv64 { u << 1 }

  /** 2^k modulo 2^64. */
  function Unit(k: nat): bv64 {
    if k == 0 then 1 else Double(Unit(k - 1))
  }

  function Pow2(k: nat): (p: nat)
    ensures p > 0
  {
    if k == 0 then 1 else 2 * Pow2(k - 1)
  }

  /** `u` has at most one bit set, and `h` none below it. */
  ghost predicate Aligned(h: bv64, u: bv64) {
    u & (u - 1) == 0 && h & (u - 1) == 0
  }

  /** The bits that `h` and `u` share. */
  function Bit(h: bv64, u: bv64): bv64 { h & u }

  lemma AlignedDoubleRaw(h: bv64, u: bv64)
    requires Aligned(h, u)
    ensures Aligned(h << 1, u << 1)
    ensures h & u == u ==> (h << 1) & (u << 1) == u << 1
  {}

  /** Doubling moves the alignment up one bit. */
  lemma AlignedDouble(h: bv64, u: bv64)
    requires Aligned(h, u)
    ensures Aligned(Double(h), Double(u))
    ensures Bit(h, u) == u ==> Bit(Double(h), Double(u)) == Double(u)
  {
    hide Aligned;
    AlignedDoubleRaw(h, u);
  }

  lemma AlignedSumRaw(h: bv64, g: bv64, u: bv64)
    requires Aligned(h, u) && Aligned(g, u)
    ensures Aligned(h + g, u)
    ensures (h + g) & u == (h & u) ^ (g & u)
  {}

  /** The lowest bits of two aligned words add without a carry from below. */
  lemma AlignedSum(h: bv64, g: bv64, u: bv64)
    requires Aligned(h, u) && Aligned(g, u) && Bit(h, u) == u
    ensures Aligned(Add(h, g), u)
    ensures Bit(g, u) == 0 ==> Bit(Add(h, g), u) == u
    ensures Bit(g, u) == u ==> Bit(Add(h, g), u) == 0
  {
    hide Aligned;
    AlignedSumRaw(h, g, u);
  }

  lemma AlignedZero(h: bv64, u: bv64)
    requires Aligned(h, u)
    ensures Aligned(0, u) && Bit(0, u) == 0
    ensures u == 0 ==> h == 0
  {}

  lemma AlignedOne(h: bv64)
    ensures Aligned(h, 1)
    ensures Bit(h, 1) == 1 || Bit(h, 1) == 0
    ensures Bit(h, 1) == 0 ==> Aligned(h, 2)
  {}

  /** With bit `u` set in `h` and none below, that bit of the sum is the parity of the count. */
  lemma {:induction false} ParityBit(h: bv64, u: bv64, n: nat)
    requires Aligned(h, u) && Bit(h, u) == u
    ensures Aligned(Times(h, n), u)
    ensures Bit(Times(h, n), u) == if n % 2 == 0 then 0 else u
    decreases n
  {
    hide Aligned, Add, Bit;
    AlignedZero(h, u);
    if n > 0 {
      ParityBit(h, u, n - 1);
      AlignedSum(h, Times(h, n - 1), u);
    }
  }

  // Addition modulo 2^64

  lemma AddAssocRaw(x: bv64, y: bv64, z: bv64)
    ensures Add(x + y, z) == Add(x, y + z)
  {}

  lemma AddAssoc(x: bv64, y: bv64, z: bv64)
    ensures Add(Add(x, y), z) == Add(x, Add(y, z))
  {
    AddAssocRaw(x, y, z);
    assert Add(x, y) == x + y;
    assert Add(y, z) == y + z;
  }

  lemma AddZero(x: bv64)
    ensures Add(x, 0) == x && Add(0, x) == x
  {}

  lemma AddCancel(x: bv64, y: bv64)
    ensures Add(x, y) == x ==> y == 0
  {}

  lemma AddIsDouble(h: bv64)
    ensures Add(h, h) == Double(h)
  {}

  /** Adding `h` an even number of times is adding its double half as often. */
  lemma {:induction false} TimesDouble(h: bv64, n: nat)
    ensures Times(h, 2 * n) == Times(Double(h), n)
    decreases n
  {
    hide Add, Double;
    if n > 0 {
      TimesDouble(h, n - 1);
      AddIsDouble(h);
      AddAssoc(h, h, Times(h, 2 * n - 2));
      assert Times(h, 2 * n - 1) == Add(h, Times(h, 2 * n - 2));
    }
  }

  function Shl4(u: bv64): bv64 { u << 4 }

  lemma FourDoublingsRaw(u: bv64)
    ensures Double(((u << 1) << 1) << 1) == u << 4
  {}

  lemma FourDoublings(u: bv64)
    ensures Double(Double(Double(Double(u)))) == Shl4(u)
  {
    FourDoublingsRaw(u);
    assert Double(u) == u << 1;
    assert Double(u << 1) == (u << 1) << 1;
    assert Double((u << 1) << 1) == ((u << 1) << 1) << 1;
  }

  lemma UnitNibble(k: nat)
    ensures Unit(k + 4) == Shl4(Unit(k))
  {
    hide Double, Shl4;
    FourDoublings(Unit(k));
    assert Unit(k + 2) == Double(Double(Unit(k)));
    assert Unit(k + 4) == Double(Double(Unit(k + 2)));
  }

  lemma UnitSixteen(k: nat, u: bv64)
    requires Unit(k) == u
    ensures Unit(k + 16) == Shl4(Shl4(Shl4(Shl4(u))))
  {
    hide Unit, Shl4;
    UnitNibble(k);
    UnitNibble(k + 4);
    UnitNibble(k + 8);
    UnitNibble(k + 12);
  }

  lemma UnitTop()
    ensures Unit(60) == 0x1000_0000_0000_0000
    ensures Unit(64) == 0
  {
    assert Unit(0) == 1;
    hide Unit;
    UnitSixteen(0, 1);
    assert Unit(16) == 0x1_0000;
    UnitSixteen(16, 0x1_0000);
    assert Unit(32) == 0x1_0000_0000;
    UnitSixteen(32, 0x1_0000_0000);
    assert Unit(48) == 0x1_0000_0000_0000;
    UnitNibble(48);
    UnitNibble(52);
    UnitNibble(56);
    UnitNibble(60);
  }

  /** No unit below the 64th vanishes. */
  lemma {:induction false} UnitNonZero(k: nat)
    requires k <= 63
    ensures Unit(k) != 0
    decreases 63 - k
  {
    if 60 <= k {
      UnitTop();
      assert Unit(61) == Double(0x1000_0000_0000_0000) && Unit(62) == Double(Unit(61)) && Unit(63) == Double(Unit(62));
    } else {
      UnitNonZero(k + 1);
      assert Double(0) == 0;
    }
  }

  lemma {:induction false} TimesZero(n: nat)
    ensures Times(0, n) == 0
  {
    if n > 0 {
      TimesZero(n - 1);
      AddZero(0);
    }
  }

  lemma MulAtLeast(d: int, k: int)
    requires d > 0 && k > 0
    ensures d * k >= d
  {}

  /** Division with remainder is unique. */
  lemma ModUnique(n: int, d: int, q: int, r: int)
    requires n == d * q + r && 0 <= r < d
    ensures n % d == r
  {
    var q' := n / d;
    assert d * (q - q') == d * q - d * q' && d * (q' - q) == d * q' - d * q;
    if q > q' {
      MulAtLeast(d, q - q');
    } else if q < q' {
      MulAtLeast(d, q' - q);
    }
  }

  lemma HalfMultiple(m: nat, p: nat)
    requires p > 0
    ensures (2 * m) % (2 * p) == 0 <==> m % p == 0
  {
    var q, r := m / p, m % p;
    assert 2 * m == (2 * p) * q + 2 * r by {
      assert m == p * q + r;
      assert (2 * p) * q == 2 * (p * q);
    }
    ModUnique(2 * m, 2 * p, q, 2 * r);
  }

  lemma OddRemainder(m: nat, p: nat)
    requires p > 0
    ensures (2 * m + 1) % (2 * p) != 0
  {
    var q, r := m / p, m % p;
    assert 2 * m + 1 == (2 * p) * q + (2 * r + 1) by {
      assert m == p * q + r;
      assert (2 * p) * q == 2 * (p * q);
    }
    ModUnique(2 * m + 1, 2 * p, q, 2 * r + 1);
  }

  /** A sum of `n` copies of a word whose lowest set bit is `k` vanishes exactly for multiples of 2^(64 - k). */
  lemma {:induction false} TimesVanishes(h: bv64, k: nat, n: nat)
    requires k <= 64
    requires Aligned(h, Unit(k)) && Bit(h, Unit(k)) == Unit(k)
    ensures Times(h, n) == 0 <==> n % Pow2(64 - k) == 0
    decreases 64 - k
  {
    hide Add, Double, Aligned, Bit;
    AlignedZero(h, Unit(k));
    if k == 64 {
      UnitTop();
      TimesZero(n);
    } else {
      UnitNonZero(k);
      ParityBit(h, Unit(k), n);
      var m, p := n / 2, Pow2(63 - k);
      if n % 2 == 0 {
        TimesDouble(h, m);
        AlignedDouble(h, Unit(k));
        TimesVanishes(Double(h), k + 1, m);
        HalfMultiple(m, p);
      } else {
        OddRemainder(m, p);
        AlignedZero(h, Unit(k));
      }
    }
  }

  lemma PowSixteen(k: nat)
    ensures Pow2(k + 16) == 0x1_0000 * Pow2(k)
  {
    assert Pow2(k + 4) == 16 * Pow2(k) by { assert Pow2(k + 2) == 4 * Pow2(k); }
    assert Pow2(k + 8) == 16 * Pow2(k + 4) by { assert Pow2(k + 6) == 4 * Pow2(k + 4); }
    assert Pow2(k + 12) == 16 * Pow2(k + 8) by { assert Pow2(k + 10) == 4 * Pow2(k + 8); }
    assert Pow2(k + 16) == 16 * Pow2(k + 12) by { assert Pow2(k + 14) == 4 * Pow2(k + 12); }
  }

  lemma PowTop()
    ensures Pow2(64) == TWO_64
  {
    PowSixteen(0);
    PowSixteen(16);
    PowSixteen(32);
    PowSixteen(48);
  }

  /** The seed advances by one `gamma` a call. */
  lemma {:induction false} SeedIsSum(seed: bv64, gamma: bv64, n: nat)
    ensures SeedAt(seed, gamma, n) == Add(seed, Times(gamma, n))
    decreases n
  {
    hide Add;
    if n == 0 {
      AddZero(seed);
    } else {
      SeedIsSum(Add(seed, gamma), gamma, n - 1);
      AddAssoc(seed, gamma, Times(gamma, n - 1));
    }
  }

  lemma {:induction false} SeedAtAdd(seed: bv64, gamma: bv64, m: nat, n: nat)
    ensures SeedAt(seed, gamma, m + n) == SeedAt(SeedAt(seed, gamma, m), gamma, n)
    decreases m
  {
    hide Add;
    if m > 0 {
      SeedAtAdd(Add(seed, gamma), gamma, m - 1, n);
    }
  }

  /**
   With an odd `gamma` two seeds of a run agree exactly when a multiple of 2^64
   calls lies between them: the seeds have full period.
   */
  lemma FullPeriod(seed: bv64, gamma: bv64, i: nat, j: nat)
    requires Bit(gamma, 1) == 1 && i <= j
    ensures SeedAt(seed, gamma, i) == SeedAt(seed, gamma, j) <==> (j - i) % TWO_64 == 0
  {
    hide Add, Bit, Aligned, Times;
    var at, d := SeedAt(seed, gamma, i), j - i;
    SeedAtAdd(seed, gamma, i, d);
    SeedIsSum(at, gamma, d);
    AddCancel(at, Times(gamma, d));
    AddZero(at);
    AlignedOne(gamma);
    assert Unit(0) == 1;
    TimesVanishes(gamma, 0, d);
    PowTop();
  }

  /** With an even `gamma` the first seed is back after half as many calls. */
  lemma ShortPeriod(seed: bv64, gamma: bv64)
    requires Bit(gamma, 1) == 0
    ensures SeedAt(seed, gamma, TWO_64 / 2) == seed
  {
    hide Add, Bit, Aligned, Times;
    SeedIsSum(seed, gamma, TWO_64 / 2);
    AddZero(seed);
    AlignedOne(gamma);
    assert Unit(1) == 2;
    HalvedCount(gamma, 1);
    PowTop();
  }

  /** A word with no bit below the `k`-th vanishes after 2^(64 - k) additions. */
  lemma {:induction false} HalvedCount(h: bv64, k: nat)
    requires k <= 64 && Aligned(h, Unit(k))
    ensures Times(h, Pow2(64 - k)) == 0
    decreases 64 - k
  {
    hide Add, Double, Aligned;
    AlignedZero(h, Unit(k));
    if k == 64 {
      UnitTop();
      TimesZero(1);
    } else {
      TimesDouble(h, Pow2(63 - k));
      AlignedDouble(h, Unit(k));
      HalvedCount(Double(h), k + 1);
    }
  }

  /** The 2^64 seeds of one round are pairwise distinct exactly when `gamma` is odd. */
  lemma DistinctSeeds(seed: bv64, gamma: bv64)
    ensures (forall i: nat, j: nat | i < j < TWO_64 :: SeedAt(seed, gamma, i) != SeedAt(seed, gamma, j))
       <==> Bit(gamma, 1) == 1
  {
    hide SeedAt, Bit;
    AlignedOne(gamma);
    if Bit(gamma, 1) == 1 {
      forall i: nat, j: nat | i < j < TWO_64
        ensures SeedAt(seed, gamma, i) != SeedAt(seed, gamma, j)
      {
        FullPeriod(seed, gamma, i, j);
        assert (j - i) % TWO_64 == j - i;
      }
    } else {
      ShortPeriod(seed, gamma);
      SeedAtZero(seed, gamma);
      var i: nat, j: nat := 0, TWO_64 / 2;
      assert i < j < TWO_64 && SeedAt(seed, gamma, i) == SeedAt(seed, gamma, j);
    }
  }

  lemma SeedAtZero(seed: bv64, gamma: bv64)
    ensures SeedAt(seed, gamma, 0) == seed
    ensures Draws(seed, gamma, 0) == []
  {}

  /** The 2^64 seeds of a source with the default gamma, as the simulator uses it, are pairwise distinct. */
  lemma DefaultSeedsDistinct(seed: bv64, i: nat, j: nat)
    requires i < j < TWO_64
    ensures SeedAt(seed, DEFAULT_GAMMA, i) != SeedAt(seed, DEFAULT_GAMMA, j)
  {
    hide SeedAt;
    DistinctSeeds(seed, DEFAULT_GAMMA);
  }

  /** The 64-bit values mixed in one round are as distinct as the seeds they come from. */
  lemma DistinctMixes(seed: bv64, gamma: bv64, i: nat, j: nat)
    requires Bit(gamma, 1) == 1 && i < j < TWO_64
    ensures Mix(SeedAt(seed, gamma, i)) != Mix(SeedAt(seed, gamma, j))
  {
    hide SeedAt, Bit, Mix, Unmix;
    DistinctSeeds(seed, gamma);
    MixBijective(SeedAt(seed, gamma, i));
    MixBijective(SeedAt(seed, gamma, j));
  }

  /** The `i`-th word drawn is the low half of the mixed `i + 1`-st seed. */
  lemma {:induction false} DrawsAt(seed: bv64, gamma: bv64, n: nat, i: nat)
    requires i < n
    ensures Draws(seed, gamma, n)[i] == Narrow(Mix(SeedAt(seed, gamma, i + 1)))
    decreases n
  {
    hide Add, Mix, Narrow;
    if i > 0 {
      DrawsAt(Add(seed, gamma), gamma, n - 1, i - 1);
    } else {
      assert SeedAt(seed, gamma, 1) == SeedAt(Add(seed, gamma), gamma, 0);
    }
  }

  /** Every word drawn is below 2^32, because `mix64` returns `uint32_t`. */
  lemma WordsBelow2To32(seed: bv64, gamma: bv64, n: nat, i: nat)
    requires i < n
    ensures Draws(seed, gamma, n)[i] < 0x1_0000_0000
  {
    hide SeedAt, Draws, Mix, Narrow;
    DrawsAt(seed, gamma, n, i);
    NarrowKeepsLow(Mix(SeedAt(seed, gamma, i + 1)));
  }

  /** The first word of a source, as its seed mixed and cut to 32 bits. */
  lemma FirstWord(seed: bv64, gamma: bv64)
    ensures Draws(seed, gamma, 1) == [Narrow(Mix(Add(seed, gamma)))]
  {
    hide Mix, Narrow, Add;
    assert Draws(Add(seed, gamma), gamma, 0) == [];
  }

  /** Every word below 2^32 is the first one of some seed. */
  lemma EveryWordDrawn(gamma: bv64, w: bv64)
    requires w < 0x1_0000_0000
    ensures exists seed :: Draws(seed, gamma, 1) == [w]
  {
    var seed := Unmix(w) - gamma;
    SubAdd(Unmix(w), gamma);
    NarrowSmall(w);
    hide Mix, Unmix, Narrow, Add;
    MixBijective(w);
    FirstWord(seed, gamma);
  }

  lemma SubAdd(x: bv64, y: bv64)
    ensures Add(x - y, y) == x
  {}

  lemma NarrowSmall(w: bv64)
    requires w < 0x1_0000_0000
    ensures Narrow(w) == w
  {}

  /** Two seeds draw the same first word exactly when their mixed values agree modulo 2^32. */
  lemma SameWord(seed: bv64, seed': bv64, gamma: bv64)
    ensures Draws(seed, gamma, 1) == Draws(seed', gamma, 1)
       <==> Congruent(Mix(Add(seed, gamma)), Mix(Add(seed', gamma)))
  {
    hide Mix, Narrow, Add, Congruent;
    FirstWord(seed, gamma);
    FirstWord(seed', gamma);
    NarrowAgrees(Mix(Add(seed, gamma)), Mix(Add(seed', gamma)));
    var w, w' := Narrow(Mix(Add(seed, gamma))), Narrow(Mix(Add(seed', gamma)));
    assert [w] == [w'] <==> w == w';
  }

  /** The default source at seed 42, word by word. */
  lemma KnownWords()
    ensures Draws(42, DEFAULT_GAMMA, 4) == [0xf804_7fc7, 0x63a7_7004, 0xf79a_cc91, 0x8846_eec4]
  {
    FourDraws(42, DEFAULT_GAMMA);
  }

  lemma {:induction false} DrawsSnoc(seed: bv64, gamma: bv64, n: nat)
    ensures Draws(seed, gamma, n + 1) == Draws(seed, gamma, n) + [Narrow(Mix(SeedAt(seed, gamma, n + 1)))]
    decreases n
  {
    hide Add, Mix, Narrow;
    if n > 0 {
      DrawsSnoc(Add(seed, gamma), gamma, n - 1);
    } else {
      assert SeedAt(seed, gamma, 1) == SeedAt(Add(seed, gamma), gamma, 0);
      assert Draws(Add(seed, gamma), gamma, 0) == [];
    }
  }

  /** The next word and the seed it leaves, from the last seed alone. */
  lemma NextDraw(seed: bv64, gamma: bv64, n: nat)
    ensures var z := SeedAt(SeedAt(seed, gamma, n), gamma, 1);
            SeedAt(seed, gamma, n + 1) == z && Draws(seed, gamma, n + 1) == Draws(seed, gamma, n) + [Narrow(Mix(z))]
  {
    hide Draws, SeedAt, Mix, Narrow;
    DrawsSnoc(seed, gamma, n);
    SeedAtAdd(seed, gamma, n, 1);
  }

  lemma FourSnocs<T>(a: T, b: T, c: T, d: T)
    ensures [] + [a] + [b] + [c] + [d] == [a, b, c, d]
  {}

  lemma FourDraws(seed: bv64, gamma: bv64)
    ensures var z1 := SeedAt(seed, gamma, 1); var z2 := SeedAt(z1, gamma, 1);
            var z3 := SeedAt(z2, gamma, 1); var z4 := SeedAt(z3, gamma, 1);
            && SeedAt(seed, gamma, 4) == z4
            && Draws(seed, gamma, 4) == [Narrow(Mix(z1)), Narrow(Mix(z2)), Narrow(Mix(z3)), Narrow(Mix(z4))]
  {
    hide SeedAt, Draws, Mix, Narrow;
    SeedAtZero(seed, gamma);
    NextDraw(seed, gamma, 0);
    NextDraw(seed, gamma, 1);
    NextDraw(seed, gamma, 2);
    NextDraw(seed, gamma, 3);
    var z1 := SeedAt(seed, gamma, 1);
    var z2 := SeedAt(z1, gamma, 1);
    var z3 := SeedAt(z2, gamma, 1);
    FourSnocs(Narrow(Mix(z1)), Narrow(Mix(z2)), Narrow(Mix(z3)), Narrow(Mix(SeedAt(z3, gamma, 1))));
  }

  class Source {
    var seed: bv64
    const gamma: bv64

    constructor (seed: bv64, gamma: bv64 := DEFAULT_GAMMA)
      ensures this.seed == seed && this.gamma == gamma
    {
      this.seed := seed;
      this.gamma := gamma;
    }

    method NextSeed() returns (s: bv64)
      modifies this
      ensures s == seed == SeedAt(old(seed), gamma, 1)
    {
      seed := Add(seed, gamma);
      s := seed;
    }

    method Next() returns (r: bv64)
      modifies this
      ensures r == Narrow(Mix(seed)) && seed == SeedAt(old(seed), gamma, 1)
      ensures r < 0x1_0000_0000 && Congruent(Mix(seed), r)
    {
      hide Mix, Narrow, Add;
      var z := NextSeed();
      NarrowKeepsLow(Mix(z));
      r := Narrow(Mix(z));
    }

    /** Fills the buffer from the next `buf.Length / 8 + 1` words. */
    method FillBytes(buf: array<byte>)
      modifies this, buf
      ensures buf[..] == Filling(Draws(old(seed), gamma, WordsFor(buf.Length)), buf.Length)
      ensures seed == SeedAt(old(seed), gamma, WordsFor(buf.Length))
    {
      hide Mix, Narrow, Add, SeedAt, Draws, Block, Blocks;
      ghost var s := seed;
      var n, done := 0, 0;
      SeedAtZero(seed, gamma);
      ghost var ws: seq<bv64> := [];
      assert Blocks(ws) == [] by { BlocksNil(); }
      while 8 <= buf.Length - done
        invariant done == 8 * n <= buf.Length
        invariant ws == Draws(s, gamma, n) && seed == SeedAt(s, gamma, n)
        invariant buf[..done] == Blocks(ws)
      {
        var w := Next();
        CopyWord(buf, done, 8, w);
        NextDraw(s, gamma, n);
        BlocksSnoc(ws, w);
        ws := ws + [w];
        n, done := n + 1, done + 8;
      }
      var w := Next();
      CopyWord(buf, done, buf.Length - done, w);
      NextDraw(s, gamma, n);
      FillingSnoc(ws, w, buf.Length);
    }
  }
}
