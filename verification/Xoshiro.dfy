/**
 The generator xoshiro256**.  Its four state words are the contents of an
 array of four 64-bit words, so the state is modelled as a sequence of words.
 The bit operations have names, and each algebraic fact about them is proved
 once on plain words; the proofs about whole states then `hide` the bits.
 */
module Xoshiro {
  import opened Words
  import opened ByteBlocks
  import SplitMix

  type State = s: seq<bv64> | |s| == 4 witness [0, 0, 0, 0]

  const ZERO: State := [0, 0, 0, 0]

  // Bit operations

  function Xor(x: bv64, y: bv64): bv64 { x ^ y }

  function Shl17(x: bv64): bv64 { x << 17 }

  function Rotl45(x: bv64): bv64 { x.RotateLeft(45) }

  function Rotr45(x: bv64): bv64 { x.RotateRight(45) }

  function Spread(x: bv64): bv64 { x ^ (x << 17) }

  /** The inverse of `Spread`. */
  function Gather(y: bv64): bv64 { y ^ (y << 17) ^ (y << 34) ^ (y << 51) }

  function Times5(x: bv64): bv64 { x * 5 }

  function Rotl7(x: bv64): bv64 { x.RotateLeft(7) }

  function Times9(x: bv64): bv64 { x * 9 }

  // Multiplying by the inverses of 5 and 9 modulo 2^64 divides.

  function Divide5(x: bv64): bv64 { x * 0xcccc_cccc_cccc_cccd }

  function Rotr7(x: bv64): bv64 { x.RotateRight(7) }

  function Divide9(x: bv64): bv64 { x * 0x8e38_e38e_38e3_8e39 }

  /** The scrambler applied to `state_[1]`, and its inverse. */
  function Scramble(x: bv64): bv64 { Times9(Rotl7(Times5(x))) }

  function Unscramble(y: bv64): bv64 { Divide5(Rotr7(Divide9(y))) }

  // One step of the state, its inverse, and the word drawn

  function Step(s: State): State {
    hide Xor, Shl17, Rotl45;
    [Xor(s[0], Xor(s[3], s[1])),
     Xor(s[1], Xor(s[2], s[0])),
     Xor(Xor(s[2], s[0]), Shl17(s[1])),
     Rotl45(Xor(s[3], s[1]))]
  }

  function Back(s: State): State {
    hide Xor, Rotr45, Gather;
    var d := Rotr45(s[3]);
    var a := Xor(s[0], d);
    var b := Gather(Xor(s[1], s[2]));
    [a, b, Xor(Xor(s[1], b), a), Xor(d, b)]
  }

  function Output(s: State): bv64 { Scramble(s[1]) }

  function StepN(s: State, n: nat): State
    decreases n
  {
    if n == 0 then s else StepN(Step(s), n - 1)
  }

  /** The first `n` words drawn from state `s`. */
  function Draws(s: State, n: nat): (ws: seq<bv64>)
    ensures |ws| == n
    decreases n
  {
    if n == 0 then [] else [Output(s)] + Draws(Step(s), n - 1)
  }

  function XorState(s: State, t: State): State {
    hide Xor;
    [Xor(s[0], t[0]), Xor(s[1], t[1]), Xor(s[2], t[2]), Xor(s[3], t[3])]
  }

  // Facts about words

  /** Xor is commutative. */
  lemma XorComm(x: bv64, y: bv64)
    ensures Xor(x, y) == Xor(y, x)
  {}

  lemma XorAssocRaw(x: bv64, y: bv64, z: bv64)
    ensures Xor(x ^ y, z) == Xor(x, y ^ z)
  {}

  /** Xor is associative. */
  lemma XorAssoc(x: bv64, y: bv64, z: bv64)
    ensures Xor(Xor(x, y), z) == Xor(x, Xor(y, z))
  {
    XorAssocRaw(x, y, z);
    assert Xor(x, y) == x ^ y;
    assert Xor(y, z) == y ^ z;
  }

  /** Xor undoes itself. */
  lemma XorTwice(x: bv64, y: bv64)
    ensures Xor(Xor(x, y), y) == x
  {
    assert Xor(x, y) == x ^ y;
  }

  /** A term xored into both sides cancels. */
  lemma XorCommonTerm(b: bv64, p: bv64, q: bv64)
    ensures Xor(Xor(b, p), Xor(p, q)) == Xor(b, q)
  {
    hide Xor;
    XorAssoc(b, p, Xor(p, q));
    XorComm(p, Xor(p, q));
    XorComm(p, q);
    XorTwice(q, p);
  }

  /** Xor of two sums is the sum of the xors. */
  lemma XorExchange(a: bv64, b: bv64, c: bv64, d: bv64)
    ensures Xor(Xor(a, b), Xor(c, d)) == Xor(Xor(a, c), Xor(b, d))
  {
    hide Xor;
    XorAssoc(a, b, Xor(c, d));
    XorAssoc(b, c, d);
    XorComm(b, c);
    XorAssoc(c, b, d);
    XorAssoc(a, c, Xor(b, d));
  }

  lemma RotateBack(x: bv64)
    ensures Rotr45(Rotl45(x)) == x
    ensures Rotl45(Rotr45(x)) == x
  {}

  lemma RotateXorRaw(x: bv64, y: bv64)
    ensures Rotl45(x ^ y) == x.RotateLeft(45) ^ y.RotateLeft(45)
  {}

  /** Rotation and shifting are linear over xor. */
  lemma RotateXor(x: bv64, y: bv64)
    ensures Rotl45(Xor(x, y)) == Xor(Rotl45(x), Rotl45(y))
  {
    RotateXorRaw(x, y);
    assert Xor(x, y) == x ^ y;
  }

  lemma ShiftXorRaw(x: bv64, y: bv64)
    ensures Shl17(x ^ y) == (x << 17) ^ (y << 17)
  {}

  lemma ShiftXor(x: bv64, y: bv64)
    ensures Shl17(Xor(x, y)) == Xor(Shl17(x), Shl17(y))
  {
    ShiftXorRaw(x, y);
    assert Xor(x, y) == x ^ y;
  }

  lemma SpreadIs(x: bv64)
    ensures Xor(x, Shl17(x)) == Spread(x)
  {
    assert Shl17(x) == x << 17;
  }

  lemma GatherSpreadRaw(x: bv64)
    ensures Gather(x ^ (x << 17)) == x
  {}

  lemma SpreadGatherRaw(y: bv64)
    ensures Spread(y ^ (y << 17) ^ (y << 34) ^ (y << 51)) == y
  {}

  /** `Gather` is the inverse of `Spread` on both sides. */
  lemma GatherInverts(x: bv64)
    ensures Gather(Spread(x)) == x
    ensures Spread(Gather(x)) == x
  {
    GatherSpreadRaw(x);
    SpreadGatherRaw(x);
    assert Spread(x) == x ^ (x << 17);
    assert Gather(x) == x ^ (x << 17) ^ (x << 34) ^ (x << 51);
  }

  lemma TimesRaw(x: bv64)
    ensures Divide5(x * 5) == x && Times5(x * 0xcccc_cccc_cccc_cccd) == x
    ensures Divide9(x * 9) == x && Times9(x * 0x8e38_e38e_38e3_8e39) == x
    ensures Rotr7(x.RotateLeft(7)) == x && Rotl7(x.RotateRight(7)) == x
  {}

  /** Each of the three operations of the scrambler has an inverse. */
  lemma TimesInverts(x: bv64)
    ensures Divide5(Times5(x)) == x && Times5(Divide5(x)) == x
    ensures Divide9(Times9(x)) == x && Times9(Divide9(x)) == x
    ensures Rotr7(Rotl7(x)) == x && Rotl7(Rotr7(x)) == x
  {
    TimesRaw(x);
    assert Times5(x) == x * 5 && Divide5(x) == x * 0xcccc_cccc_cccc_cccd;
    assert Times9(x) == x * 9 && Divide9(x) == x * 0x8e38_e38e_38e3_8e39;
    assert Rotl7(x) == x.RotateLeft(7) && Rotr7(x) == x.RotateRight(7);
  }

  /** The output scrambler is a bijection of `state_[1]`. */
  lemma ScrambleBijective(x: bv64)
    ensures Unscramble(Scramble(x)) == x
    ensures Scramble(Unscramble(x)) == x
  {
    hide Times5, Times9, Divide5, Divide9, Rotl7, Rotr7;
    TimesInverts(x);
    TimesInverts(Times5(x));
    TimesInverts(Rotl7(Times5(x)));
    TimesInverts(Divide9(x));
    TimesInverts(Rotr7(Divide9(x)));
  }

  // The step is a bijection

  /** `Back` undoes a step. */
  lemma BackStep(s: State)
    ensures Back(Step(s)) == s
  {
    hide Xor, Shl17, Rotl45, Rotr45, Spread, Gather;
    XorTwice(s[0], Xor(s[3], s[1]));
    XorTwice(s[3], s[1]);
    RotateBack(Xor(s[3], s[1]));
    XorCommonTerm(s[1], Xor(s[2], s[0]), Shl17(s[1]));
    SpreadIs(s[1]);
    GatherInverts(s[1]);
    // the third word: ((b ^ (c ^ a)) ^ b) ^ a == c
    XorComm(s[1], Xor(s[2], s[0]));
    XorTwice(Xor(s[2], s[0]), s[1]);
    XorTwice(s[2], s[0]);
  }

  /** Every state is reached by a step, from the state `Back` computes. */
  lemma StepBack(s: State)
    ensures Step(Back(s)) == s
  {
    hide Xor, Shl17, Rotl45, Rotr45, Spread, Gather;
    var n := Back(s);
    var d := Rotr45(s[3]);
    XorTwice(d, n[1]);
    RotateBack(s[3]);
    XorTwice(s[0], d);
    XorTwice(Xor(s[1], n[1]), n[0]);
    XorComm(n[1], Xor(s[1], n[1]));
    XorTwice(s[1], n[1]);
    // the third word: (s1 ^ b) ^ (b << 17) == s2, since b ^ (b << 17) == s1 ^ s2
    GatherInverts(Xor(s[1], s[2]));
    SpreadIs(n[1]);
    XorAssoc(s[1], n[1], Shl17(n[1]));
    XorComm(s[1], Xor(s[1], s[2]));
    XorComm(s[1], s[2]);
    XorTwice(s[2], s[1]);
  }

  /** A step is linear over xor. */
  lemma StepXor(s: State, t: State)
    ensures Step(XorState(s, t)) == XorState(Step(s), Step(t))
  {
    hide Xor, Shl17, Rotl45;
    XorExchange(s[3], t[3], s[1], t[1]);
    XorExchange(s[0], t[0], Xor(s[3], s[1]), Xor(t[3], t[1]));
    XorExchange(s[2], t[2], s[0], t[0]);
    XorExchange(s[1], t[1], Xor(s[2], s[0]), Xor(t[2], t[0]));
    ShiftXor(s[1], t[1]);
    XorExchange(Xor(s[2], s[0]), Xor(t[2], t[0]), Shl17(s[1]), Shl17(t[1]));
    RotateXor(Xor(s[3], s[1]), Xor(t[3], t[1]));
  }

  lemma StepZero()
    ensures Step(ZERO) == ZERO
  {}

  // Whole runs

  lemma {:induction false} StepNAdd(s: State, m: nat, n: nat)
    ensures StepN(s, m + n) == StepN(StepN(s, m), n)
    decreases m
  {
    if m > 0 {
      StepNAdd(Step(s), m - 1, n);
    }
  }

  lemma StepNNone(s: State)
    ensures StepN(s, 0) == s
  {}

  /** Distinct states stay distinct for ever. */
  lemma {:induction false} StepNInjective(s: State, t: State, n: nat)
    requires StepN(s, n) == StepN(t, n)
    ensures s == t
    decreases n
  {
    if n > 0 {
      StepNInjective(Step(s), Step(t), n - 1);
      BackStep(s);
      BackStep(t);
    }
  }

  /** Any number of steps is linear over xor. */
  lemma {:induction false} StepNXor(s: State, t: State, n: nat)
    ensures StepN(XorState(s, t), n) == XorState(StepN(s, n), StepN(t, n))
    decreases n
  {
    hide Step, XorState;
    if n > 0 {
      StepXor(s, t);
      StepNXor(Step(s), Step(t), n - 1);
    }
  }

  lemma {:induction false} StepNZero(n: nat)
    ensures StepN(ZERO, n) == ZERO
  {
    if n > 0 {
      StepZero();
      StepNZero(n - 1);
    }
  }

  /** The all-zero state is reached, in any run, only from itself. */
  lemma NeverZero(s: State, n: nat)
    ensures StepN(s, n) == ZERO <==> s == ZERO
  {
    StepNZero(n);
    if StepN(s, n) == ZERO {
      StepNInjective(s, ZERO, n);
    }
  }

  /** The `i`-th word drawn is the output of the `i`-th state. */
  lemma {:induction false} DrawsAt(s: State, n: nat, i: nat)
    requires i < n
    ensures Draws(s, n)[i] == Output(StepN(s, i))
    decreases n
  {
    if i > 0 {
      DrawsAt(Step(s), n - 1, i - 1);
    }
  }

  lemma {:induction false} DrawsAdd(s: State, m: nat, n: nat)
    ensures Draws(s, m + n) == Draws(s, m) + Draws(StepN(s, m), n)
    decreases m
  {
    hide Step, Output;
    if m > 0 {
      DrawsAdd(Step(s), m - 1, n);
      assert [Output(s)] + (Draws(Step(s), m - 1) + Draws(StepN(s, m), n))
          == [Output(s)] + Draws(Step(s), m - 1) + Draws(StepN(s, m), n);
    } else {
      assert Draws(s, 0) + Draws(s, n) == Draws(s, n);
    }
  }

  // Four consecutive words and the state determine each other

  /** The state whose next four words are `ws`. */
  function Recover(ws: State): State {
    hide Xor, Shl17, Rotr45, Unscramble;
    var w0, w1, w2, w3 := Unscramble(ws[0]), Unscramble(ws[1]), Unscramble(ws[2]), Unscramble(ws[3]);
    var p := Xor(w2, Shl17(w0));                                // s0 ^ s3
    var q := Rotr45(Xor(Xor(p, w0), Xor(w3, Shl17(w1))));       // s3 ^ s1
    var d := Xor(q, w0);
    var a := Xor(p, d);
    [a, w0, Xor(Xor(w1, w0), a), d]
  }

  /** `state_[1]` two steps on. */
  lemma SecondWord(s: State)
    ensures Step(Step(s))[1] == Xor(Xor(s[0], s[3]), Shl17(s[1]))
  {
    hide Xor, Shl17, Rotl45;
    var b, p, t, ad := s[1], Xor(s[2], s[0]), Shl17(s[1]), Xor(s[0], s[3]);
    var r := Xor(s[0], Xor(s[3], b));
    XorAssoc(p, t, r);
    XorCommonTerm(b, p, Xor(t, r));
    XorComm(t, r);
    XorAssoc(b, r, t);
    XorAssoc(s[0], s[3], b);
    XorComm(b, r);
    XorTwice(ad, b);
  }

  lemma FourSteps(s: State)
    ensures Draws(s, 4) == [Output(s), Output(Step(s)), Output(Step(Step(s))), Output(Step(Step(Step(s))))]
    ensures StepN(s, 4) == Step(Step(Step(Step(s))))
  {
    hide Step, Output;
    DrawsAt(s, 4, 0);
    DrawsAt(s, 4, 1);
    DrawsAt(s, 4, 2);
    DrawsAt(s, 4, 3);
    assert StepN(s, 2) == StepN(Step(s), 1) == Step(Step(s));
    assert StepN(s, 3) == StepN(Step(Step(s)), 1);
    assert StepN(s, 4) == StepN(Step(Step(s)), 2);
  }

  /** The all-zero state draws zeros. */
  lemma DrawsZero()
    ensures Draws(ZERO, 4) == ZERO
  {
    StepZero();
    FourSteps(ZERO);
    hide Step;
    assert Scramble(0) == 0;
  }

  /** Four consecutive words determine the state they were drawn from... */
  lemma RecoverDraws(s: State)
    ensures Recover(Draws(s, 4)) == s
  {
    hide Xor, Shl17, Rotl45, Rotr45, Scramble, Unscramble, Draws;
    FourSteps(s);
    var t := Step(s);
    ScrambleBijective(s[1]);
    ScrambleBijective(t[1]);
    ScrambleBijective(Step(t)[1]);
    ScrambleBijective(Step(Step(t))[1]);
    SecondWord(s);
    SecondWord(t);
    XorTwice(Xor(s[0], s[3]), Shl17(s[1]));
    XorTwice(Xor(t[0], t[3]), Shl17(t[1]));
    XorAssoc(s[0], s[3], s[1]);
    XorComm(t[0], Xor(t[0], t[3]));
    XorComm(t[0], t[3]);
    XorTwice(t[3], t[0]);
    RotateBack(Xor(s[3], s[1]));
    XorTwice(s[3], s[1]);
    XorTwice(s[0], s[3]);
    XorComm(s[1], Xor(s[2], s[0]));
    XorTwice(Xor(s[2], s[0]), s[1]);
    XorTwice(s[2], s[0]);
  }

  /** ...and every four words are the next four words of exactly that state. */
  lemma DrawsRecover(ws: State)
    ensures Draws(Recover(ws), 4) == ws
  {
    hide Xor, Shl17, Rotl45, Rotr45, Scramble, Unscramble, Draws;
    var s := Recover(ws);
    var t := Step(s);
    FourSteps(s);
    SecondWord(s);
    SecondWord(t);
    ScrambleBijective(ws[0]);
    ScrambleBijective(ws[1]);
    ScrambleBijective(ws[2]);
    ScrambleBijective(ws[3]);
    var w0, w1, w2, w3 := s[1], Unscramble(ws[1]), Unscramble(ws[2]), Unscramble(ws[3]);
    var p := Xor(w2, Shl17(w0));
    var g := Xor(w3, Shl17(w1));
    var q := Rotr45(Xor(Xor(p, w0), g));
    XorTwice(Xor(w1, w0), s[0]);
    XorComm(w0, Xor(w1, w0));
    XorTwice(w1, w0);
    assert t[1] == w1;
    XorTwice(p, s[3]);
    XorTwice(w2, Shl17(w0));
    assert Step(t)[1] == w2;
    XorTwice(q, w0);
    RotateBack(Xor(Xor(p, w0), g));
    XorAssoc(s[0], s[3], w0);
    assert t[0] == Xor(p, w0) && t[3] == Xor(t[0], g);
    XorComm(t[0], g);
    XorComm(t[0], t[3]);
    XorTwice(g, t[0]);
    XorTwice(w3, Shl17(w1));
    assert Step(Step(t))[1] == w3;
  }

  // The generator

  class Generator {
    const words: array<bv64>

    ghost predicate Valid() { words.Length == 4 }

    function View(): State
      requires Valid()
      reads words
    {
      words[..]
    }

    constructor ()
      ensures Valid() && fresh(words) && View() == ZERO
    {
      words := new bv64[4](_ => 0);
    }

    method Next() returns (r: bv64)
      requires Valid()
      modifies words
      ensures View() == Step(old(View())) && r == Output(old(View()))
    {
      hide Xor, Shl17, Rotl45, Scramble;
      r := Scramble(words[1]);
      var t := Shl17(words[1]);
      words[2] := Xor(words[2], words[0]);
      words[3] := Xor(words[3], words[1]);
      words[1] := Xor(words[1], words[2]);
      words[0] := Xor(words[0], words[3]);
      words[2] := Xor(words[2], t);
      words[3] := Rotl45(words[3]);
    }

    /** The state another user of the generator left it in. */
    method SetState(s: State)
      requires Valid()
      modifies words
      ensures View() == s
    {
      words[0], words[1], words[2], words[3] := s[0], s[1], s[2], s[3];
    }

    /** Fills the buffer from the next `buf.Length / 8 + 1` words. */
    method FillBytes(buf: array<byte>)
      requires Valid()
      modifies words, buf
      ensures buf[..] == Filling(Draws(old(View()), WordsFor(buf.Length)), buf.Length)
      ensures View() == StepN(old(View()), WordsFor(buf.Length))
    {
      hide Step, Output, Block, Blocks;
      var n, done := 0, 0;
      ghost var s := View();
      ghost var ws: seq<bv64> := [];
      assert Blocks(ws) == [] by { BlocksNil(); }
      while 8 <= buf.Length - done
        invariant done == 8 * n <= buf.Length
        invariant ws == Draws(s, n) && View() == StepN(s, n)
        invariant buf[..done] == Blocks(ws)
      {
        var w := Next();
        CopyWord(buf, done, 8, w);
        DrawsSnoc(s, n);
        BlocksSnoc(ws, w);
        ws := ws + [w];
        n, done := n + 1, done + 8;
      }
      var w := Next();
      CopyWord(buf, done, buf.Length - done, w);
      DrawsSnoc(s, n);
      FillingSnoc(ws, w, buf.Length);
    }

    /** `seed_from` with another generator of this kind as the source. */
    method SeedFrom(rng: Generator)
      requires Valid() && rng.Valid() && rng.words != words
      modifies words, rng.words
      ensures View() == Draws(old(rng.View()), 4)
      ensures rng.View() == StepN(old(rng.View()), 4)
    {
      hide Step, Output;
      ghost var s := rng.View();
      words[0] := rng.Next();
      words[1] := rng.Next();
      words[2] := rng.Next();
      words[3] := rng.Next();
      FourSteps(s);
      assert View() == Draws(s, 4);
    }

    /** `seed_from` with `split_mix` as the source. */
    method SeedFromSplitMix(source: SplitMix.Source)
      requires Valid()
      modifies words, source
      ensures View() == SplitMix.Draws(old(source.seed), source.gamma, 4)
      ensures source.seed == SplitMix.SeedAt(old(source.seed), source.gamma, 4)
    {
      hide SplitMix.Mix, SplitMix.Narrow, SplitMix.SeedAt;
      ghost var z, g := source.seed, source.gamma;
      words[0] := source.Next();
      words[1] := source.Next();
      words[2] := source.Next();
      words[3] := source.Next();
      SplitMix.FourDraws(z, g);
    }

    /** The constructor from 32 seed bytes, read into the four words. */
    constructor FromBytes(bytes: seq<byte>)
      requires |bytes| == 32
      ensures Valid() && fresh(words)
      ensures forall i | 0 <= i < 4 :: View()[i] == Unblock(bytes[8 * i..8 * i + 8])
    {
      words := new bv64[4](i requires 0 <= i < 4 => Unblock(bytes[8 * i..8 * i + 8]));
    }
  }

  lemma DrawsSnoc(s: State, n: nat)
    ensures Draws(s, n + 1) == Draws(s, n) + [Output(StepN(s, n))]
    ensures StepN(s, n + 1) == Step(StepN(s, n))
  {
    hide Step, Output;
    DrawsAdd(s, n, 1);
    StepNAdd(s, n, 1);
    assert Draws(StepN(s, n), 1) == [Output(StepN(s, n))] + Draws(Step(StepN(s, n)), 0);
  }

  /** The first words of the state 1, 2, 3, 4. */
  lemma KnownWords()
    ensures Draws([1, 2, 3, 4], 4) == [11520, 0, 1509978240, 1215971899390074240]
  {
    var s1, s2, s3 := Step([1, 2, 3, 4]), Step(Step([1, 2, 3, 4])), Step(Step(Step([1, 2, 3, 4])));
    hide Step, Output;
    assert Draws(s3, 1) == [Output(s3)] + Draws(Step(s3), 0);
    assert Draws(s2, 2) == [Output(s2)] + Draws(s3, 1);
    assert Draws(s1, 3) == [Output(s1)] + Draws(s2, 2);
  }

  /** `seed_from_rng`: 32 bytes from `fill_bytes`, then the constructor from bytes. */
  method SeedFromRng(source: Generator) returns (g: Generator)
    requires source.Valid()
    modifies source.words
    ensures g.Valid() && fresh(g) && fresh(g.words)
    ensures g.View() == Draws(old(source.View()), 4)
    ensures source.View() == StepN(old(source.View()), 5)
  {
    hide Step, Output, Unblock, Blocks;
    var seed := new byte[32];
    ghost var s := source.View();
    source.FillBytes(seed);
    g := new Generator.FromBytes(seed[..]);
    SeedBytes(s);
  }

  /** Reading back the 32 bytes gives the first four of the five words drawn. */
  lemma SeedBytes(s: State)
    ensures forall i | 0 <= i < 4 :: Unblock(Filling(Draws(s, 5), 32)[8 * i..8 * i + 8]) == Draws(s, 4)[i]
  {
    hide Step, Output, Unblock, Blocks;
    DrawsAdd(s, 4, 1);
    var ws := Draws(s, 5);
    forall i | 0 <= i < 4
      ensures Unblock(Filling(ws, 32)[8 * i..8 * i + 8]) == Draws(s, 4)[i]
    {
      UnblockBlocks(ws, i);
      assert Filling(ws, 32)[8 * i..8 * i + 8] == Blocks(ws)[8 * i..8 * i + 8];
    }
  }
}
