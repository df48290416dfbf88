/** The unrolled block transform: sixteen words rewritten in place, variables that rotate their roles. */
module Sha1Transform {
  import opened Bytes
  import opened Sha1

  /** The choice function as the code writes it. */
  function Choose(w: word, x: word, y: word): word { (w & (x ^ y)) ^ y }

  lemma ChooseIsCh(w: word, x: word, y: word)
    ensures Choose(w, x, y) == Ch(w, x, y)
  {
    assert (w & (x ^ y)) ^ y == (w & x) ^ (!w & y);
  }

  /** The majority function as the code writes it. */
  function Majority(w: word, x: word, y: word): word { ((w | x) & y) | (w & x) }

  lemma MajorityIsMaj(w: word, x: word, y: word)
    ensures Majority(w, x, y) == Maj(w, x, y)
  {
    assert ((w | x) & y) | (w & x) == (w & x) ^ (w & y) ^ (x & y);
  }

  /** The sum of a round as the code writes it. */
  function SumOf(z: word, f: word, n: word, k: word, v: word): word { z + (f + n + k + Rotl(v, 5)) }

  lemma SumIsTotal(z: word, f: word, n: word, k: word, v: word)
    ensures SumOf(z, f, n, k, v) == Total(v, f, z, k, n)
  {
  }

  // --- the sixteen words rewritten in place ---

  /** The last number before `t` that is `i` modulo 16. */
  function Latest(t: nat, i: nat): nat
    requires t >= 16 && i < 16
  {
    if i < t % 16 then t - t % 16 + i else t - t % 16 + i - 16
  }

  /** The last sixteen words of the schedule before the `t`-th, each at its number modulo 16. */
  function Slots(m: Block, t: nat): (r: Block)
    requires t >= 16
  {
    seq(16, i requires 0 <= i < 16 => W(m, Latest(t, i)))
  }

  lemma LatestWords(t: nat)
    requires t >= 16
    ensures Latest(t, (t % 16 + 13) % 16) == t - 3
    ensures Latest(t, (t % 16 + 8) % 16) == t - 8
    ensures Latest(t, (t % 16 + 2) % 16) == t - 14
    ensures Latest(t, t % 16) == t - 16
  {
  }

  function Blk(block: seq<word>, i: nat): word
    requires |block| == 16 && i < 16
  {
    Mix(block[(i + 13) % 16], block[(i + 8) % 16], block[(i + 2) % 16], block[i])
  }

  lemma LatestAt(t: nat)
    requires t >= 16
    ensures Latest(t + 1, t % 16) == t
    ensures forall i | 0 <= i < 16 && i != t % 16 :: Latest(t + 1, i) == Latest(t, i)
  {
  }

  lemma SlotsUpdated(m: Block, t: nat)
    requires t >= 16
    ensures Slots(m, t)[t % 16 := W(m, t)] == Slots(m, t + 1)
  {
    LatestAt(t);
  }

  /** The word computed from the block is the next one of the schedule, and writing it moves the window. */
  lemma {:induction false} SlotsMove(m: Block, t: nat)
    requires t >= 16
    ensures Blk(Slots(m, t), t % 16) == W(m, t)
    ensures Slots(m, t)[t % 16 := W(m, t)] == Slots(m, t + 1)
  {
    LatestWords(t);
    SlotsUpdated(m, t);
  }

  /** A run of the rounds as functions of the round number, so that a caller of rounds need not unfold them. */
  datatype Trace = Trace(words: nat -> word, slots: nat -> seq<word>, states: nat -> State)

  function TraceOf(m: Block, s: State): Trace {
    Trace((t: nat) => W(m, t), (t: nat) => if t < 16 then m else Slots(m, t), (t: nat) => Rounds(m, s, t))
  }

  /** Mentions a round number: a trace is looked into at mentioned numbers only. */
  predicate Mentioned(t: nat) {
    true
  }

  ghost predicate IsTrace(run: Trace, m: Block, s: State) {
    forall t: nat {:trigger Mentioned(t)} :: Mentioned(t) ==>
      && run.words(t) == TraceOf(m, s).words(t)
      && run.slots(t) == TraceOf(m, s).slots(t)
      && run.states(t) == TraceOf(m, s).states(t)
  }

  /** Before round `t`: the block's words, and the five variables in the order of their roles. */
  ghost predicate At(run: Trace, t: nat, block: seq<word>, v: word, w: word, x: word, y: word, z: word) {
    block == run.slots(t) && run.states(t) == State(v, w, x, y, z)
  }

  lemma NextRound(m: Block, s: State, run: Trace, t: nat, v: word, w: word, x: word, y: word, z: word, f: word)
    requires IsTrace(run, m, s) && run.states(t) == State(v, w, x, y, z) && f == F(t, w, x, y)
    ensures run.states(t + 1) == State(SumOf(z, f, run.words(t), K(t), v), v, Rotl(w, 30), x, y)
  {
    assert Mentioned(t) && Mentioned(t + 1);
    SumIsTotal(z, f, W(m, t), K(t), v);
  }

  lemma NextChooseRound(m: Block, s: State, run: Trace, t: nat, v: word, w: word, x: word, y: word, z: word)
    requires IsTrace(run, m, s) && run.states(t) == State(v, w, x, y, z) && t < 20
    ensures run.states(t + 1) == State(SumOf(z, Choose(w, x, y), run.words(t), 0x5a827999, v), v, Rotl(w, 30), x, y)
  {
    ChooseIsCh(w, x, y);
    NextRound(m, s, run, t, v, w, x, y, z, Choose(w, x, y));
  }

  lemma NextParityRound(m: Block, s: State, run: Trace, t: nat, v: word, w: word, x: word, y: word, z: word, k: word)
    requires IsTrace(run, m, s) && run.states(t) == State(v, w, x, y, z)
    requires (20 <= t < 40 && k == 0x6ed9eba1) || (60 <= t && k == 0xca62c1d6)
    ensures run.states(t + 1) == State(SumOf(z, Parity(w, x, y), run.words(t), k, v), v, Rotl(w, 30), x, y)
  {
    NextRound(m, s, run, t, v, w, x, y, z, Parity(w, x, y));
  }

  lemma NextMajorityRound(m: Block, s: State, run: Trace, t: nat, v: word, w: word, x: word, y: word, z: word)
    requires IsTrace(run, m, s) && run.states(t) == State(v, w, x, y, z) && 40 <= t < 60
    ensures run.states(t + 1) == State(SumOf(z, Majority(w, x, y), run.words(t), 0x8f1bbcdc, v), v, Rotl(w, 30), x, y)
  {
    MajorityIsMaj(w, x, y);
    NextRound(m, s, run, t, v, w, x, y, z, Majority(w, x, y));
  }

  /** The first sixteen rounds read the block as it is. */
  lemma FirstSlots(m: Block, s: State, run: Trace, t: nat)
    requires IsTrace(run, m, s) && t < 16
    ensures run.slots(t + 1) == run.slots(t) == m && run.words(t) == m[t]
  {
    assert Mentioned(t) && Mentioned(t + 1);
    if t == 15 {
      assert Slots(m, 16) == m;
    }
  }

  method UpdateBlock(block: array<word>, i: nat, ghost m: Block, ghost s: State, ghost run: Trace, ghost t: nat)
    requires IsTrace(run, m, s) && block.Length == 16 && 16 <= t && i == t % 16 && block[..] == run.slots(t)
    modifies block
    ensures block[..] == run.slots(t + 1) && block[i] == run.words(t)
  {
    assert Mentioned(t) && Mentioned(t + 1);
    SlotsMove(m, t);
    block[i] := Blk(block[..], i);
    assert block[..] == old(block[..])[i := W(m, t)];
  }

  method R0(block: array<word>, v: word, w: word, x: word, y: word, z: word, i: nat,
            ghost m: Block, ghost s: State, ghost run: Trace) returns (w': word, z': word)
    requires IsTrace(run, m, s) && block.Length == 16 && i < 16 && At(run, i, block[..], v, w, x, y, z)
    ensures At(run, i + 1, block[..], z', v, w', x, y)
  {
    FirstSlots(m, s, run, i);
    z' := SumOf(z, Choose(w, x, y), block[i], 0x5a827999, v);
    w' := Rotl(w, 30);
    assert block[i] == block[..][i];
    NextChooseRound(m, s, run, i, v, w, x, y, z);
  }

  method R1(block: array<word>, v: word, w: word, x: word, y: word, z: word, i: nat,
            ghost m: Block, ghost s: State, ghost run: Trace, ghost t: nat) returns (w': word, z': word)
    requires IsTrace(run, m, s) && block.Length == 16 && 16 <= t < 20 && i == t % 16
    requires At(run, t, block[..], v, w, x, y, z)
    modifies block
    ensures At(run, t + 1, block[..], z', v, w', x, y)
  {
    UpdateBlock(block, i, m, s, run, t);
    z' := SumOf(z, Choose(w, x, y), block[i], 0x5a827999, v);
    w' := Rotl(w, 30);
    NextChooseRound(m, s, run, t, v, w, x, y, z);
  }

  method R2(block: array<word>, v: word, w: word, x: word, y: word, z: word, i: nat,
            ghost m: Block, ghost s: State, ghost run: Trace, ghost t: nat) returns (w': word, z': word)
    requires IsTrace(run, m, s) && block.Length == 16 && 20 <= t < 40 && i == t % 16
    requires At(run, t, block[..], v, w, x, y, z)
    modifies block
    ensures At(run, t + 1, block[..], z', v, w', x, y)
  {
    UpdateBlock(block, i, m, s, run, t);
    z' := SumOf(z, Parity(w, x, y), block[i], 0x6ed9eba1, v);
    w' := Rotl(w, 30);
    NextParityRound(m, s, run, t, v, w, x, y, z, 0x6ed9eba1);
  }

  method R3(block: array<word>, v: word, w: word, x: word, y: word, z: word, i: nat,
            ghost m: Block, ghost s: State, ghost run: Trace, ghost t: nat) returns (w': word, z': word)
    requires IsTrace(run, m, s) && block.Length == 16 && 40 <= t < 60 && i == t % 16
    requires At(run, t, block[..], v, w, x, y, z)
    modifies block
    ensures At(run, t + 1, block[..], z', v, w', x, y)
  {
    UpdateBlock(block, i, m, s, run, t);
    z' := SumOf(z, Majority(w, x, y), block[i], 0x8f1bbcdc, v);
    w' := Rotl(w, 30);
    NextMajorityRound(m, s, run, t, v, w, x, y, z);
  }

  method R4(block: array<word>, v: word, w: word, x: word, y: word, z: word, i: nat,
            ghost m: Block, ghost s: State, ghost run: Trace, ghost t: nat) returns (w': word, z': word)
    requires IsTrace(run, m, s) && block.Length == 16 && 60 <= t < 80 && i == t % 16
    requires At(run, t, block[..], v, w, x, y, z)
    modifies block
    ensures At(run, t + 1, block[..], z', v, w', x, y)
  {
    UpdateBlock(block, i, m, s, run, t);
    z' := SumOf(z, Parity(w, x, y), block[i], 0xca62c1d6, v);
    w' := Rotl(w, 30);
    NextParityRound(m, s, run, t, v, w, x, y, z, 0xca62c1d6);
  }

  // The calls of `transform`.

  method Rounds0To19(block: array<word>, a0: word, b0: word, c0: word, d0: word, e0: word,
                      ghost m: Block, ghost s: State, ghost run: Trace)
    returns (a: word, b: word, c: word, d: word, e: word)
    requires IsTrace(run, m, s) && block.Length == 16 && At(run, 0, block[..], a0, b0, c0, d0, e0)
    modifies block
    ensures At(run, 20, block[..], a, b, c, d, e)
  {
    a, b, c, d, e := a0, b0, c0, d0, e0;
    b, e := R0(block, a, b, c, d, e, 0, m, s, run);
    a, d := R0(block, e, a, b, c, d, 1, m, s, run);
    e, c := R0(block, d, e, a, b, c, 2, m, s, run);
    d, b := R0(block, c, d, e, a, b, 3, m, s, run);
    c, a := R0(block, b, c, d, e, a, 4, m, s, run);
    b, e := R0(block, a, b, c, d, e, 5, m, s, run);
    a, d := R0(block, e, a, b, c, d, 6, m, s, run);
    e, c := R0(block, d, e, a, b, c, 7, m, s, run);
    d, b := R0(block, c, d, e, a, b, 8, m, s, run);
    c, a := R0(block, b, c, d, e, a, 9, m, s, run);
    b, e := R0(block, a, b, c, d, e, 10, m, s, run);
    a, d := R0(block, e, a, b, c, d, 11, m, s, run);
    e, c := R0(block, d, e, a, b, c, 12, m, s, run);
    d, b := R0(block, c, d, e, a, b, 13, m, s, run);
    c, a := R0(block, b, c, d, e, a, 14, m, s, run);
    b, e := R0(block, a, b, c, d, e, 15, m, s, run);
    a, d := R1(block, e, a, b, c, d, 0, m, s, run, 16);
    e, c := R1(block, d, e, a, b, c, 1, m, s, run, 17);
    d, b := R1(block, c, d, e, a, b, 2, m, s, run, 18);
    c, a := R1(block, b, c, d, e, a, 3, m, s, run, 19);
  }

  method Rounds20To29(block: array<word>, a0: word, b0: word, c0: word, d0: word, e0: word,
                      ghost m: Block, ghost s: State, ghost run: Trace)
    returns (a: word, b: word, c: word, d: word, e: word)
    requires IsTrace(run, m, s) && block.Length == 16 && At(run, 20, block[..], a0, b0, c0, d0, e0)
    modifies block
    ensures At(run, 30, block[..], a, b, c, d, e)
  {
    a, b, c, d, e := a0, b0, c0, d0, e0;
    b, e := R2(block, a, b, c, d, e, 4, m, s, run, 20);
    a, d := R2(block, e, a, b, c, d, 5, m, s, run, 21);
    e, c := R2(block, d, e, a, b, c, 6, m, s, run, 22);
    d, b := R2(block, c, d, e, a, b, 7, m, s, run, 23);
    c, a := R2(block, b, c, d, e, a, 8, m, s, run, 24);
    b, e := R2(block, a, b, c, d, e, 9, m, s, run, 25);
    a, d := R2(block, e, a, b, c, d, 10, m, s, run, 26);
    e, c := R2(block, d, e, a, b, c, 11, m, s, run, 27);
    d, b := R2(block, c, d, e, a, b, 12, m, s, run, 28);
    c, a := R2(block, b, c, d, e, a, 13, m, s, run, 29);
  }

  method Rounds30To39(block: array<word>, a0: word, b0: word, c0: word, d0: word, e0: word,
                      ghost m: Block, ghost s: State, ghost run: Trace)
    returns (a: word, b: word, c: word, d: word, e: word)
    requires IsTrace(run, m, s) && block.Length == 16 && At(run, 30, block[..], a0, b0, c0, d0, e0)
    modifies block
    ensures At(run, 40, block[..], a, b, c, d, e)
  {
    a, b, c, d, e := a0, b0, c0, d0, e0;
    b, e := R2(block, a, b, c, d, e, 14, m, s, run, 30);
    a, d := R2(block, e, a, b, c, d, 15, m, s, run, 31);
    e, c := R2(block, d, e, a, b, c, 0, m, s, run, 32);
    d, b := R2(block, c, d, e, a, b, 1, m, s, run, 33);
    c, a := R2(block, b, c, d, e, a, 2, m, s, run, 34);
    b, e := R2(block, a, b, c, d, e, 3, m, s, run, 35);
    a, d := R2(block, e, a, b, c, d, 4, m, s, run, 36);
    e, c := R2(block, d, e, a, b, c, 5, m, s, run, 37);
    d, b := R2(block, c, d, e, a, b, 6, m, s, run, 38);
    c, a := R2(block, b, c, d, e, a, 7, m, s, run, 39);
  }

  method Rounds40To49(block: array<word>, a0: word, b0: word, c0: word, d0: word, e0: word,
                      ghost m: Block, ghost s: State, ghost run: Trace)
    returns (a: word, b: word, c: word, d: word, e: word)
    requires IsTrace(run, m, s) && block.Length == 16 && At(run, 40, block[..], a0, b0, c0, d0, e0)
    modifies block
    ensures At(run, 50, block[..], a, b, c, d, e)
  {
    a, b, c, d, e := a0, b0, c0, d0, e0;
    b, e := R3(block, a, b, c, d, e, 8, m, s, run, 40);
    a, d := R3(block, e, a, b, c, d, 9, m, s, run, 41);
    e, c := R3(block, d, e, a, b, c, 10, m, s, run, 42);
    d, b := R3(block, c, d, e, a, b, 11, m, s, run, 43);
    c, a := R3(block, b, c, d, e, a, 12, m, s, run, 44);
    b, e := R3(block, a, b, c, d, e, 13, m, s, run, 45);
    a, d := R3(block, e, a, b, c, d, 14, m, s, run, 46);
    e, c := R3(block, d, e, a, b, c, 15, m, s, run, 47);
    d, b := R3(block, c, d, e, a, b, 0, m, s, run, 48);
    c, a := R3(block, b, c, d, e, a, 1, m, s, run, 49);
  }

  method Rounds50To59(block: array<word>, a0: word, b0: word, c0: word, d0: word, e0: word,
                      ghost m: Block, ghost s: State, ghost run: Trace)
    returns (a: word, b: word, c: word, d: word, e: word)
    requires IsTrace(run, m, s) && block.Length == 16 && At(run, 50, block[..], a0, b0, c0, d0, e0)
    modifies block
    ensures At(run, 60, block[..], a, b, c, d, e)
  {
    a, b, c, d, e := a0, b0, c0, d0, e0;
    b, e := R3(block, a, b, c, d, e, 2, m, s, run, 50);
    a, d := R3(block, e, a, b, c, d, 3, m, s, run, 51);
    e, c := R3(block, d, e, a, b, c, 4, m, s, run, 52);
    d, b := R3(block, c, d, e, a, b, 5, m, s, run, 53);
    c, a := R3(block, b, c, d, e, a, 6, m, s, run, 54);
    b, e := R3(block, a, b, c, d, e, 7, m, s, run, 55);
    a, d := R3(block, e, a, b, c, d, 8, m, s, run, 56);
    e, c := R3(block, d, e, a, b, c, 9, m, s, run, 57);
    d, b := R3(block, c, d, e, a, b, 10, m, s, run, 58);
    c, a := R3(block, b, c, d, e, a, 11, m, s, run, 59);
  }

  method Rounds60To69(block: array<word>, a0: word, b0: word, c0: word, d0: word, e0: word,
                      ghost m: Block, ghost s: State, ghost run: Trace)
    returns (a: word, b: word, c: word, d: word, e: word)
    requires IsTrace(run, m, s) && block.Length == 16 && At(run, 60, block[..], a0, b0, c0, d0, e0)
    modifies block
    ensures At(run, 70, block[..], a, b, c, d, e)
  {
    a, b, c, d, e := a0, b0, c0, d0, e0;
    b, e := R4(block, a, b, c, d, e, 12, m, s, run, 60);
    a, d := R4(block, e, a, b, c, d, 13, m, s, run, 61);
    e, c := R4(block, d, e, a, b, c, 14, m, s, run, 62);
    d, b := R4(block, c, d, e, a, b, 15, m, s, run, 63);
    c, a := R4(block, b, c, d, e, a, 0, m, s, run, 64);
    b, e := R4(block, a, b, c, d, e, 1, m, s, run, 65);
    a, d := R4(block, e, a, b, c, d, 2, m, s, run, 66);
    e, c := R4(block, d, e, a, b, c, 3, m, s, run, 67);
    d, b := R4(block, c, d, e, a, b, 4, m, s, run, 68);
    c, a := R4(block, b, c, d, e, a, 5, m, s, run, 69);
  }

  method Rounds70To79(block: array<word>, a0: word, b0: word, c0: word, d0: word, e0: word,
                      ghost m: Block, ghost s: State, ghost run: Trace)
    returns (a: word, b: word, c: word, d: word, e: word)
    requires IsTrace(run, m, s) && block.Length == 16 && At(run, 70, block[..], a0, b0, c0, d0, e0)
    modifies block
    ensures At(run, 80, block[..], a, b, c, d, e)
  {
    a, b, c, d, e := a0, b0, c0, d0, e0;
    b, e := R4(block, a, b, c, d, e, 6, m, s, run, 70);
    a, d := R4(block, e, a, b, c, d, 7, m, s, run, 71);
    e, c := R4(block, d, e, a, b, c, 8, m, s, run, 72);
    d, b := R4(block, c, d, e, a, b, 9, m, s, run, 73);
    c, a := R4(block, b, c, d, e, a, 10, m, s, run, 74);
    b, e := R4(block, a, b, c, d, e, 11, m, s, run, 75);
    a, d := R4(block, e, a, b, c, d, 12, m, s, run, 76);
    e, c := R4(block, d, e, a, b, c, 13, m, s, run, 77);
    d, b := R4(block, c, d, e, a, b, 14, m, s, run, 78);
    c, a := R4(block, b, c, d, e, a, 15, m, s, run, 79);
  }

  lemma ShiftsGiveTheWord(b0: word, b1: word, b2: word, b3: word)
    ensures b3 | (b2 << 8) | (b1 << 16) | (b0 << 24) == ((((((b0 << 8) | b1) << 8) | b2) << 8) | b3)
  {
  }

  function LoadWord(b0: byte, b1: byte, b2: byte, b3: byte): (r: word)
    ensures r == WordOf(b0, b1, b2, b3)
  {
    ShiftsGiveTheWord(b0 as word, b1 as word, b2 as word, b3 as word);
    (b3 as word) | ((b2 as word) << 8) | ((b1 as word) << 16) | ((b0 as word) << 24)
  }

  method LoadBlock(buf: array<byte>) returns (block: array<word>)
    requires buf.Length == 64
    ensures fresh(block) && block[..] == WordsOf(buf[..])
  {
    ghost var bytes := buf[..];
    block := new word[16];
    for i := 0 to 16
      invariant fresh(block) && buf[..] == bytes
      invariant forall k | 0 <= k < i :: block[k] == WordAt(bytes, k)
    {
      block[i] := LoadWord(buf[4 * i], buf[4 * i + 1], buf[4 * i + 2], buf[4 * i + 3]);
    }
    assert block[..] == WordsOf(bytes);
  }

  method AllRounds(block: array<word>, s: State) returns (r: State)
    requires block.Length == 16
    modifies block
    ensures r == Rounds(old(block[..]), s, 80)
  {
    ghost var m: Block := block[..];
    ghost var run := TraceOf(m, s);
    var a, b, c, d, e := s.a, s.b, s.c, s.d, s.e;
    a, b, c, d, e := Rounds0To19(block, a, b, c, d, e, m, s, run);
    a, b, c, d, e := Rounds20To29(block, a, b, c, d, e, m, s, run);
    a, b, c, d, e := Rounds30To39(block, a, b, c, d, e, m, s, run);
    a, b, c, d, e := Rounds40To49(block, a, b, c, d, e, m, s, run);
    a, b, c, d, e := Rounds50To59(block, a, b, c, d, e, m, s, run);
    a, b, c, d, e := Rounds60To69(block, a, b, c, d, e, m, s, run);
    a, b, c, d, e := Rounds70To79(block, a, b, c, d, e, m, s, run);
    r := State(a, b, c, d, e);
  }

  /** `transform`: the unrolled form computes the digest update of the standard. */
  method Transform(digest: State, buf: array<byte>) returns (r: State)
    requires buf.Length == 64
    ensures r == Compress(digest, WordsOf(buf[..]))
  {
    var block := LoadBlock(buf);
    var s := AllRounds(block, digest);
    r := Sum(digest, s);
  }
}
