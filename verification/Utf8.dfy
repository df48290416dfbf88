/** The byte-by-byte UTF-8 checker, and the encoding of section 4 of RFC 3629 that it decides. */
module Utf8 {
  import opened Bytes

  datatype State = Valid | Invalid | MayBeOverlong | Overlong

  /** The fields of `utf8_checker_t`. A symbol has at most 31 bits, so 32-bit arithmetic cannot wrap. */
  datatype Checker = Checker(symbol: nat, rest: nat, state: State) {

    /** What `process_byte` returns. */
    predicate Accepting() {
      state.Valid? || state.MayBeOverlong?
    }

    /** Between two symbols. */
    predicate Ready() {
      rest == 0 && state.Valid?
    }
  }

  const FRESH := Checker(0, 0, Valid)

  predicate IsContinuation(b: byte) {
    0x80 <= b < 0xC0
  }

  /** `check_overlong`: the state after it. The masks of the source are written as ranges. */
  function CheckOverlong(c: Checker, b: byte): State {
    if c.rest > 0 && c.state.MayBeOverlong? then
      if (c.rest == 2 && 0x80 <= b < 0xA0) || (c.rest == 3 && 0x80 <= b < 0x90)
         || (c.rest == 4 && 0x80 <= b < 0x88) || (c.rest == 5 && 0x80 <= b < 0x84)
      then Overlong
      else Valid
    else if b == 0xC0 || b == 0xC1 then Overlong
    else if b == 0xE0 || b == 0xF0 || b == 0xF8 || b == 0xFC then MayBeOverlong
    else c.state
  }

  /** `process_byte`. */
  function Process(c: Checker, b: byte): Checker {
    var state := CheckOverlong(c, b);
    if c.rest > 0 then
      if IsContinuation(b) then
        var symbol := c.symbol * 64 + (b - 0x80);
        var bad := c.rest == 1 && (0xD800 <= symbol <= 0xDFFF || symbol >= 0x110000);
        Checker(symbol, c.rest - 1, if bad then Invalid else state)
      else c.(state := Invalid)
    else if b < 0x80 then Checker(b, 0, state)
    else if b < 0xC0 then Checker(b, 0, Invalid)
    else if b < 0xE0 then Checker(b - 0xC0, 1, state)
    else if b < 0xF0 then Checker(b - 0xE0, 2, state)
    else if b < 0xF8 then Checker(b - 0xF0, 3, state)
    else if b < 0xFC then Checker(b - 0xF8, 4, state)
    else if b < 0xFE then Checker(b - 0xFC, 5, state)
    else Checker(b, 0, Invalid)
  }

  function Reset(c: Checker): Checker {
    Checker(0, 0, c.state)
  }

  /** Feeding bytes as long as they are accepted; nothing once one is refused. */
  function Feed(c: Checker, s: seq<byte>): Option<Checker>
    decreases |s|
  {
    if |s| == 0 then Some(c)
    else
      var next := Process(c, s[0]);
      if next.Accepting() then Feed(next, s[1..]) else None
  }

  /** `utf8_checker_t`. */
  class Utf8Checker {
    var currentSymbol: nat
    var restBytes: nat
    var state: State

    ghost function Abs(): Checker
      reads this
    {
      Checker(currentSymbol, restBytes, state)
    }

    constructor ()
      ensures Abs() == FRESH
    {
      currentSymbol, restBytes, state := 0, 0, Valid;
    }

    method ProcessByte(byt: byte) returns (ok: bool)
      modifies this
      ensures Abs() == Process(old(Abs()), byt) && ok == Abs().Accepting()
    {
      DoCheckOverlong(byt);
      if restBytes > 0 {
        if 0x80 <= byt < 0xC0 {
          currentSymbol := currentSymbol * 64;
          currentSymbol := currentSymbol + (byt - 0x80);
          restBytes := restBytes - 1;
          if restBytes == 0 {
            ValidateCurrentSymbol();
          }
        } else {
          state := Invalid;
        }
      } else {
        var b := byt;
        if b < 0x80 {
          restBytes := 0;
        } else if 0xC0 <= b < 0xE0 {
          restBytes, b := 1, b - 0xC0;
        } else if 0xE0 <= b < 0xF0 {
          restBytes, b := 2, b - 0xE0;
        } else if 0xF0 <= b < 0xF8 {
          restBytes, b := 3, b - 0xF0;
        } else if 0xF8 <= b < 0xFC {
          restBytes, b := 4, b - 0xF8;
        } else if 0xFC <= b < 0xFE {
          restBytes, b := 5, b - 0xFC;
        } else {
          state := Invalid;
        }
        currentSymbol := b;
      }
      ok := state == Valid || state == MayBeOverlong;
    }

    method DoCheckOverlong(byt: byte)
      modifies this`state
      ensures state == CheckOverlong(old(Abs()), byt)
    {
      if restBytes > 0 && state == MayBeOverlong {
        if restBytes == 2 && 0x80 <= byt < 0xA0 {
          state := Overlong;
        } else if restBytes == 3 && 0x80 <= byt < 0x90 {
          state := Overlong;
        } else if restBytes == 4 && 0x80 <= byt < 0x88 {
          state := Overlong;
        } else if restBytes == 5 && 0x80 <= byt < 0x84 {
          state := Overlong;
        } else {
          state := Valid;
        }
      } else {
        if byt == 0xC0 || byt == 0xC1 {
          state := Overlong;
        } else if byt == 0xE0 {
          state := MayBeOverlong;
        } else if byt == 0xF0 {
          state := MayBeOverlong;
        }
        if byt == 0xF8 {
          state := MayBeOverlong;
        }
        if byt == 0xFC {
          state := MayBeOverlong;
        }
      }
    }

    method ValidateCurrentSymbol()
      modifies this`state
      ensures state == if 0xD800 <= currentSymbol <= 0xDFFF || currentSymbol >= 0x110000 then Invalid else old(state)
    {
      if (0xD800 <= currentSymbol <= 0xDFFF) || currentSymbol >= 0x110000 {
        state := Invalid;
      }
    }

    /** `reset` does not touch the state. */
    method DoReset()
      modifies this
      ensures Abs() == Reset(old(Abs()))
    {
      currentSymbol, restBytes := 0, 0;
    }
  }

  // --- the reference ---

  predicate IsScalar(v: nat) {
    v <= 0x10FFFF && !(0xD800 <= v <= 0xDFFF)
  }

  /** The one well-formed byte sequence of a scalar value. */
  function Encode(v: nat): (s: seq<byte>)
    requires IsScalar(v)
    ensures 1 <= |s| <= 4
  {
    if v < 0x80 then [v]
    else if v < 0x800 then [0xC0 + v / 64, 0x80 + v % 64]
    else if v < 0x10000 then [0xE0 + v / 4096, 0x80 + v / 64 % 64, 0x80 + v % 64]
    else [0xF0 + v / 262144, 0x80 + v / 4096 % 64, 0x80 + v / 64 % 64, 0x80 + v % 64]
  }

  predicate AllScalars(vs: seq<nat>) {
    forall i | 0 <= i < |vs| :: IsScalar(vs[i])
  }

  function EncodeAll(vs: seq<nat>): seq<byte>
    requires AllScalars(vs)
    decreases |vs|
  {
    if |vs| == 0 then [] else Encode(vs[0]) + EncodeAll(vs[1..])
  }

  // --- the checker accepts what is well formed ---

  lemma {:induction false} FeedConcat(c: Checker, a: seq<byte>, b: seq<byte>)
    ensures Feed(c, a + b) == (match Feed(c, a) { case None => None case Some(d) => Feed(d, b) })
    decreases |a|
  {
    if |a| == 0 {
      assert a + b == b;
    } else {
      assert (a + b)[1..] == a[1..] + b;
      FeedConcat(Process(c, a[0]), a[1..], b);
    }
  }

  lemma FeedCons(c: Checker, b: byte, s: seq<byte>)
    ensures Feed(c, [b] + s) == if Process(c, b).Accepting() then Feed(Process(c, b), s) else None
  {
    assert ([b] + s)[1..] == s;
  }

  lemma Digits(v: nat)
    ensures v / 4096 * 64 + v / 64 % 64 == v / 64
    ensures v / 262144 * 64 + v / 4096 % 64 == v / 4096
    ensures v / 64 * 64 + v % 64 == v
  {
    DivideTwice(v);
    DivideTwice(v / 64);
    DivideTwice(v / 4096);
  }

  lemma DivideTwice(v: nat)
    ensures v / 64 / 64 == v / 4096 && v / 4096 / 64 == v / 262144
    ensures v / 64 * 64 + v % 64 == v
  {
    var a := v / 64;
    var b := a / 64;
    var c := b / 64;
    assert v == 4096 * b + (64 * (a % 64) + v % 64);
    assert v == 262144 * c + (4096 * (b % 64) + 64 * (a % 64) + v % 64);
  }

  /** What a continuation byte does to a checker that waits for one. */
  lemma ContinuationByte(c: Checker, x: nat)
    requires c.rest > 0 && x < 64 && c.Accepting()
    requires c.state.MayBeOverlong? ==> (c.rest == 2 && x >= 0x20) || (c.rest == 3 && x >= 0x10)
    ensures var symbol := c.symbol * 64 + x;
            Process(c, 0x80 + x)
            == Checker(symbol, c.rest - 1, if c.rest == 1 && !IsScalar(symbol) then Invalid else Valid)
  {
  }

  lemma TakesLast(c: Checker, x: nat)
    requires c.rest == 1 && c.state.Valid? && x < 64 && IsScalar(c.symbol * 64 + x)
    ensures Feed(c, [0x80 + x]) == Some(Checker(c.symbol * 64 + x, 0, Valid))
  {
    ContinuationByte(c, x);
    FeedCons(c, 0x80 + x, []);
    assert [0x80 + x] == [0x80 + x] + [];
  }

  lemma TakesLastTwo(c: Checker, x: nat, y: nat)
    requires c.rest == 2 && c.Accepting() && x < 64 && y < 64 && IsScalar((c.symbol * 64 + x) * 64 + y)
    requires c.state.MayBeOverlong? ==> x >= 0x20
    ensures Feed(c, [0x80 + x, 0x80 + y]) == Some(Checker((c.symbol * 64 + x) * 64 + y, 0, Valid))
  {
    ContinuationByte(c, x);
    FeedCons(c, 0x80 + x, [0x80 + y]);
    TakesLast(Checker(c.symbol * 64 + x, 1, Valid), y);
    assert [0x80 + x, 0x80 + y] == [0x80 + x] + [0x80 + y];
  }

  lemma TakesLastThree(c: Checker, x: nat, y: nat, z: nat)
    requires c.rest == 3 && c.Accepting() && x < 64 && y < 64 && z < 64
    requires IsScalar(((c.symbol * 64 + x) * 64 + y) * 64 + z)
    requires c.state.MayBeOverlong? ==> x >= 0x10
    ensures Feed(c, [0x80 + x, 0x80 + y, 0x80 + z]) == Some(Checker(((c.symbol * 64 + x) * 64 + y) * 64 + z, 0, Valid))
  {
    ContinuationByte(c, x);
    FeedCons(c, 0x80 + x, [0x80 + y, 0x80 + z]);
    TakesLastTwo(Checker(c.symbol * 64 + x, 2, Valid), y, z);
    assert [0x80 + x, 0x80 + y, 0x80 + z] == [0x80 + x] + [0x80 + y, 0x80 + z];
  }

  lemma Accept2(c: Checker, v: nat)
    requires c.Ready() && 0x80 <= v < 0x800
    ensures Feed(c, Encode(v)) == Some(Checker(v, 0, Valid))
  {
    Digits(v);
    FeedCons(c, 0xC0 + v / 64, [0x80 + v % 64]);
    TakesLast(Checker(v / 64, 1, Valid), v % 64);
    assert Encode(v) == [0xC0 + v / 64] + [0x80 + v % 64];
  }

  lemma Lead3(c: Checker, x: nat)
    requires c.Ready() && x < 16
    ensures Process(c, 0xE0 + x) == Checker(x, 2, if x == 0 then MayBeOverlong else Valid)
  {
  }

  lemma Accept3(c: Checker, v: nat)
    requires c.Ready() && 0x800 <= v < 0x10000 && IsScalar(v)
    ensures Feed(c, Encode(v)) == Some(Checker(v, 0, Valid))
  {
    Digits(v);
    var x, y, z := v / 4096, v / 64 % 64, v % 64;
    Lead3(c, x);
    FeedCons(c, 0xE0 + x, [0x80 + y, 0x80 + z]);
    TakesLastTwo(Process(c, 0xE0 + x), y, z);
    assert Encode(v) == [0xE0 + x] + [0x80 + y, 0x80 + z];
  }

  lemma Lead4(c: Checker, x: nat)
    requires c.Ready() && x < 8
    ensures Process(c, 0xF0 + x) == Checker(x, 3, if x == 0 then MayBeOverlong else Valid)
  {
  }

  lemma Accept4(c: Checker, v: nat)
    requires c.Ready() && 0x10000 <= v <= 0x10FFFF
    ensures Feed(c, Encode(v)) == Some(Checker(v, 0, Valid))
  {
    Digits(v);
    var w, x, y, z := v / 262144, v / 4096 % 64, v / 64 % 64, v % 64;
    Lead4(c, w);
    FeedCons(c, 0xF0 + w, [0x80 + x, 0x80 + y, 0x80 + z]);
    TakesLastThree(Process(c, 0xF0 + w), x, y, z);
    assert Encode(v) == [0xF0 + w] + [0x80 + x, 0x80 + y, 0x80 + z];
  }

  /** One encoded symbol is accepted, and then the current symbol is the encoded value. */
  lemma {:induction false} EncodedIsAccepted(c: Checker, v: nat)
    requires c.Ready() && IsScalar(v)
    ensures Feed(c, Encode(v)) == Some(Checker(v, 0, Valid))
  {
    if v < 0x80 {
      FeedCons(c, v, []);
      assert Encode(v) == [v] + [];
    } else if v < 0x800 {
      Accept2(c, v);
    } else if v < 0x10000 {
      Accept3(c, v);
    } else {
      Accept4(c, v);
    }
  }

  lemma {:induction false} AllEncodedIsAccepted(c: Checker, vs: seq<nat>)
    requires c.Ready() && AllScalars(vs)
    ensures Feed(c, EncodeAll(vs))
         == Some(if vs == [] then c else Checker(vs[|vs| - 1], 0, Valid))
    decreases |vs|
  {
    if |vs| > 0 {
      EncodedIsAccepted(c, vs[0]);
      FeedConcat(c, Encode(vs[0]), EncodeAll(vs[1..]));
      AllEncodedIsAccepted(Checker(vs[0], 0, Valid), vs[1..]);
    }
  }

  // --- the checker accepts nothing else ---

  /** What every accepted prefix leaves behind: no symbol can end below 0x80 after a first byte of a
      longer sequence, and between symbols the state is as in a new checker. */
  predicate Pending(c: Checker) {
    if c.rest == 0 then c.state.Valid?
    else
      || (c.state.MayBeOverlong? && c.symbol == 0 && 2 <= c.rest <= 5)
      || (c.state.Valid? && c.symbol >= (if c.rest == 1 then 2 else 1) && c.rest <= 5)
  }

  lemma {:induction false} ProcessPending(c: Checker, b: byte)
    requires Pending(c) && Process(c, b).Accepting()
    ensures Pending(Process(c, b))
    ensures c.rest == 1 ==> Process(c, b).symbol >= 0x80
    ensures c.rest > 1 ==> Process(c, b).rest > 0
  {
  }

  lemma {:induction false} FeedPending(c: Checker, s: seq<byte>)
    requires Pending(c) && Feed(c, s).Some?
    ensures Pending(Feed(c, s).value)
    decreases |s|
  {
    if |s| > 0 {
      ProcessPending(c, s[0]);
      FeedPending(Process(c, s[0]), s[1..]);
    }
  }

  /** After `reset` between two symbols the checker is a new one, although `reset` keeps the state. */
  lemma {:induction false} ResetIsFresh(s: seq<byte>)
    requires Feed(FRESH, s).Some? && Feed(FRESH, s).value.rest == 0
    ensures Reset(Feed(FRESH, s).value) == FRESH
  {
    FeedPending(FRESH, s);
  }

  predicate TooLarge(c: Checker) {
    && c.state.Valid? && 1 <= c.rest <= 4
    && c.symbol >= (match c.rest case 1 => 0x4400 case 2 => 0x110 case 3 => 5 case _ => 1)
  }

  /** Sequences of five and six bytes are never accepted to their end. */
  lemma {:induction false} TooLargeNeverEnds(c: Checker, s: seq<byte>)
    requires TooLarge(c) && Feed(c, s).Some?
    ensures Feed(c, s).value.rest > 0
    decreases |s|
  {
    if |s| > 0 {
      TooLargeNeverEnds(Process(c, s[0]), s[1..]);
    }
  }

  lemma LongLeadNeverEnds(c: Checker, s: seq<byte>)
    requires c.Ready() && |s| > 0 && s[0] >= 0xF8 && Feed(c, s).Some?
    ensures Feed(c, s).value.rest > 0
  {
    var c1 := Process(c, s[0]);
    if TooLarge(c1) {
      TooLargeNeverEnds(c1, s[1..]);
    } else if |s| > 1 {
      TooLargeNeverEnds(Process(c1, s[1]), s[2..]);
      assert s[1..][1..] == s[2..];
    }
  }

  /** Whoever ends a symbol went through all of its bytes. */
  lemma NextByte(c: Checker, s: seq<byte>)
    requires c.rest > 0 && Feed(c, s).Some? && Feed(c, s).value.rest == 0
    ensures |s| > 0 && IsContinuation(s[0]) && Process(c, s[0]).Accepting()
    ensures Feed(c, s) == Feed(Process(c, s[0]), s[1..])
  {
  }

  lemma Take2(c: Checker, s: seq<byte>) returns (v: nat)
    requires c.Ready() && |s| > 0 && 0xC0 <= s[0] < 0xE0 && Feed(c, s).Some? && Feed(c, s).value.rest == 0
    ensures IsScalar(v) && v >= 0x80 && Encode(v) <= s
  {
    var c1 := Process(c, s[0]);
    NextByte(c1, s[1..]);
    v := c1.symbol * 64 + (s[1] - 0x80);
    assert c1.symbol == s[0] - 0xC0;
    assert Encode(v) == [s[0], s[1]];
  }

  lemma Take3(c: Checker, s: seq<byte>) returns (v: nat)
    requires c.Ready() && |s| > 0 && 0xE0 <= s[0] < 0xF0 && Feed(c, s).Some? && Feed(c, s).value.rest == 0
    ensures IsScalar(v) && v >= 0x80 && Encode(v) <= s
  {
    var c1 := Process(c, s[0]);
    NextByte(c1, s[1..]);
    var c2 := Process(c1, s[1]);
    assert s[1..][1..] == s[2..];
    NextByte(c2, s[2..]);
    v := c2.symbol * 64 + (s[2] - 0x80);
    assert c1.symbol == s[0] - 0xE0 && c2.symbol == c1.symbol * 64 + (s[1] - 0x80);
    EncodeOf3(s[0] - 0xE0, s[1] - 0x80, s[2] - 0x80);
  }

  lemma EncodeOf3(x0: nat, x1: nat, x2: nat)
    requires x0 < 16 && x1 < 64 && x2 < 64
    ensures var v := (x0 * 64 + x1) * 64 + x2;
            0x800 <= v && IsScalar(v) ==> Encode(v) == [0xE0 + x0, 0x80 + x1, 0x80 + x2]
  {
    var v := (x0 * 64 + x1) * 64 + x2;
    assert v / 64 == x0 * 64 + x1 && v % 64 == x2;
    assert v / 4096 == x0 && v / 64 % 64 == x1;
  }

  /** Three bytes that end a symbol, and the symbol they make. */
  lemma LastThree(c: Checker, s: seq<byte>)
    requires c.rest == 3 && Feed(c, s).Some? && Feed(c, s).value.rest == 0
    ensures |s| >= 3 && IsContinuation(s[0]) && IsContinuation(s[1]) && IsContinuation(s[2])
    ensures var v := ((c.symbol * 64 + (s[0] - 0x80)) * 64 + (s[1] - 0x80)) * 64 + (s[2] - 0x80);
            IsScalar(v) && (c.state.MayBeOverlong? ==> s[0] >= 0x90)
  {
    NextByte(c, s);
    var c1 := Process(c, s[0]);
    NextByte(c1, s[1..]);
    var c2 := Process(c1, s[1]);
    assert s[1..][1..] == s[2..];
    NextByte(c2, s[2..]);
  }

  lemma Take4(c: Checker, s: seq<byte>) returns (v: nat)
    requires c.Ready() && |s| > 0 && 0xF0 <= s[0] < 0xF8 && Feed(c, s).Some? && Feed(c, s).value.rest == 0
    ensures IsScalar(v) && v >= 0x80 && Encode(v) <= s
  {
    Lead4(c, s[0] - 0xF0);
    var c1 := Process(c, s[0]);
    LastThree(c1, s[1..]);
    var w: nat, x: nat, y: nat, z: nat := s[0] - 0xF0, s[1] - 0x80, s[2] - 0x80, s[3] - 0x80;
    v := ((w * 64 + x) * 64 + y) * 64 + z;
    EncodeOf4(w, x, y, z);
  }

  lemma EncodeOf4(x0: nat, x1: nat, x2: nat, x3: nat)
    requires x0 < 8 && x1 < 64 && x2 < 64 && x3 < 64
    ensures var v := ((x0 * 64 + x1) * 64 + x2) * 64 + x3;
            0x10000 <= v <= 0x10FFFF ==> Encode(v) == [0xF0 + x0, 0x80 + x1, 0x80 + x2, 0x80 + x3]
  {
    var v := ((x0 * 64 + x1) * 64 + x2) * 64 + x3;
    assert v / 64 == (x0 * 64 + x1) * 64 + x2 && v % 64 == x3;
    assert v / 4096 == x0 * 64 + x1 && v / 64 % 64 == x2;
    assert v / 262144 == x0 && v / 4096 % 64 == x1;
  }

  /** An accepted byte string that ends between symbols starts with a well-formed symbol. */
  lemma TakeSymbol(c: Checker, s: seq<byte>) returns (v: nat)
    requires c.Ready() && |s| > 0 && Feed(c, s).Some? && Feed(c, s).value.rest == 0
    ensures IsScalar(v) && Encode(v) <= s
  {
    if s[0] < 0x80 {
      v := s[0];
      assert Encode(v) == [s[0]];
    } else if s[0] < 0xE0 {
      v := Take2(c, s);
    } else if s[0] < 0xF0 {
      v := Take3(c, s);
    } else if s[0] < 0xF8 {
      v := Take4(c, s);
    } else {
      LongLeadNeverEnds(c, s);
      assert false;
    }
  }

  lemma {:induction false} AcceptedIsEncoded(c: Checker, s: seq<byte>) returns (vs: seq<nat>)
    requires c.Ready() && Feed(c, s).Some? && Feed(c, s).value.rest == 0
    ensures AllScalars(vs) && s == EncodeAll(vs)
    decreases |s|
  {
    if |s| == 0 {
      vs := [];
    } else {
      var v := TakeSymbol(c, s);
      var n := |Encode(v)|;
      assert s == Encode(v) + s[n..];
      EncodedIsAccepted(c, v);
      FeedConcat(c, Encode(v), s[n..]);
      var rest := AcceptedIsEncoded(Checker(v, 0, Valid), s[n..]);
      vs := [v] + rest;
      assert vs[1..] == rest;
    }
  }

  /** The checker, fed byte by byte, accepts a byte string and ends between symbols exactly when the
      string is the UTF-8 encoding of some scalar values: nothing overlong, no surrogate, nothing above
      0x10FFFF. Its current symbol is then the last of these values. */
  lemma {:induction false} AcceptsExactlyUtf8(s: seq<byte>)
    ensures Feed(FRESH, s).Some? && Feed(FRESH, s).value.rest == 0
       <==> exists vs: seq<nat> :: AllScalars(vs) && s == EncodeAll(vs)
    ensures forall vs: seq<nat> | AllScalars(vs) && vs != [] && s == EncodeAll(vs) ::
              Feed(FRESH, s).Some? && Feed(FRESH, s).value.symbol == vs[|vs| - 1]
  {
    if Feed(FRESH, s).Some? && Feed(FRESH, s).value.rest == 0 {
      var vs := AcceptedIsEncoded(FRESH, s);
    }
    forall vs: seq<nat> | AllScalars(vs) && s == EncodeAll(vs)
      ensures Feed(FRESH, s).Some? && Feed(FRESH, s).value.rest == 0
      ensures vs != [] ==> Feed(FRESH, s).value.symbol == vs[|vs| - 1]
    {
      AllEncodedIsAccepted(FRESH, vs);
    }
  }
}
