/** URI normalization: percent-encoded unreserved characters become plain ones. */
module UriNormalization {
  import opened Bytes
  import opened Utf8
  import opened PercentEncoding

  /** Section 2.3 of RFC 3986; the source takes the ordinary characters of the default traits. */
  predicate IsUnreserved(c: byte) {
    Ordinary(Default, c)
  }

  datatype Round = Throw(reason: Reason) | Out(piece: seq<byte>, taken: nat, next: Checker)

  /** One round of `run_normalization_algo`: what is handed to the one-byte or three-byte handler. */
  function NextRound(feed: Feed, s: seq<byte>, d: nat, c: Checker): (r: Round)
    requires d < |s|
    ensures r.Out? ==> 1 <= r.taken <= |s| - d && 1 <= |r.piece| <= 3
  {
    if c.rest > 0 && s[d] != PERCENT then Throw(NextByteExpected)
    else if s[d] != PERCENT then Out([s[d]], 1, c)
    else if !(d + 3 <= |s| && IsHexDigit(s[d + 1]) && IsHexDigit(s[d + 2])) then Throw(InvalidEscape)
    else
      var next := feed(c, EscapedChar(s[d + 1], s[d + 2]));
      if !next.Accepting() then Throw(InvalidSequence)
      else if next.rest == 0 && next.symbol < 0x80 && IsUnreserved(next.symbol) then
        Out([next.symbol], 3, Reset(next))
      else Out([s[d], s[d + 1], s[d + 2]], 3, Continue(next))
  }

  /** The normal form of the text from index `d` on. */
  function Normalize(feed: Feed, s: seq<byte>, d: nat, c: Checker): Decoding
    requires d <= |s|
    decreases |s| - d
  {
    if d == |s| then if c.rest > 0 then Failed(Unfinished, 0) else Decoded([])
    else
      match NextRound(feed, s, d, c)
      case Throw(reason) => Failed(reason, |s| - d)
      case Out(piece, taken, next) => Join(piece, Normalize(feed, s, d + taken, next))
  }

  function Join(piece: seq<byte>, r: Decoding): Decoding {
    if r.Decoded? then Decoded(piece + r.text) else r
  }

  // --- pieces of the normal form read as the text they stand for ---

  /** A character written plainly that the traits do not take plainly. */
  predicate Spoils(traits: Traits, round: Round) {
    round.Out? && |round.piece| == 1 && round.taken == 3 && !Ordinary(traits, round.piece[0])
  }

  /** The round at `d`, put in front of any text `rest`, is taken by the decoder as it is at `d`. */
  lemma {:induction false} DecodePiece(feed: Feed, traits: Traits, s: seq<byte>, d: nat, c: Checker, rest: seq<byte>)
    requires Sound(feed) && Between(c) && d < |s| && StepAt(feed, traits, s, d, c).Emit?
    ensures NextRound(feed, s, d, c).Out?
    ensures var step, round := StepAt(feed, traits, s, d, c), NextRound(feed, s, d, c);
            && round.taken == step.taken && round.next == step.next && Between(step.next)
            && Unescape(feed, traits, round.piece + rest, c)
            == if Spoils(traits, round) then Failed(InvalidChar, 1 + |rest|)
               else Cons(step.b, Unescape(feed, traits, rest, step.next))
  {
    var step, round := StepAt(feed, traits, s, d, c), NextRound(feed, s, d, c);
    var text := round.piece + rest;
    assert text[|round.piece|..] == rest;
    assert text[0] == round.piece[0];
    if s[d] == PERCENT {
      var next := feed(c, EscapedChar(s[d + 1], s[d + 2]));
      if |round.piece| == 1 {
        assert c == FRESH && next.symbol == step.b && round.piece == [step.b];
        assert Continue(next) == FRESH;
      } else {
        assert |text| >= 3 && text[0] == PERCENT && text[1] == s[d + 1] && text[2] == s[d + 2];
      }
    }
  }

  /** Is some character '~' percent-encoded from index `d` on? Every percent sign starts an escape. */
  predicate EscapesTilde(s: seq<byte>, d: nat)
    requires d <= |s|
    decreases |s| - d
  {
    d + 3 <= |s| &&
    if s[d] == PERCENT && IsHexDigit(s[d + 1]) && IsHexDigit(s[d + 2]) then
      EscapedChar(s[d + 1], s[d + 2]) == 0x7E || EscapesTilde(s, d + 3)
    else EscapesTilde(s, d + 1)
  }

  /** The unreserved characters are ordinary for all traits, but '~' is not for the form traits. */
  lemma UnreservedIsOrdinary(traits: Traits, c: byte)
    requires IsUnreserved(c)
    ensures Ordinary(traits, c) <==> !(traits.FormUrlencoded? && c == 0x7E)
    ensures c != PERCENT && c != PLUS
  {
  }

  predicate Spoiled(traits: Traits, s: seq<byte>, d: nat)
    requires d <= |s|
  {
    traits.FormUrlencoded? && EscapesTilde(s, d)
  }

  /** `n` reads as the text from `d` on does, unless it is spoiled; then it does not read at all. */
  ghost predicate ReadsAs(n: seq<byte>, feed: Feed, traits: Traits, s: seq<byte>, d: nat, c: Checker, done: seq<byte>)
    requires d <= |s|
  {
    if Spoiled(traits, s, d) then Unescape(feed, traits, n, c).Failed?
    else Append(done, Unescape(feed, traits, n, c)) == UnescapeAt(feed, traits, s, d, c, done)
  }

  lemma MeaningStep(feed: Feed, traits: Traits, s: seq<byte>, d: nat, c: Checker, done: seq<byte>, rest: seq<byte>)
    requires Sound(feed) && Between(c) && d < |s| && StepAt(feed, traits, s, d, c).Emit?
    requires var step := StepAt(feed, traits, s, d, c);
             ReadsAs(rest, feed, traits, s, d + step.taken, step.next, done + [step.b])
    ensures NextRound(feed, s, d, c).Out?
    ensures ReadsAs(NextRound(feed, s, d, c).piece + rest, feed, traits, s, d, c, done)
  {
    var step := StepAt(feed, traits, s, d, c);
    DecodePiece(feed, traits, s, d, c, rest);
    SpoiledStep(feed, traits, s, d, c);
    AppendCons(done, step.b, Unescape(feed, traits, rest, step.next));
  }

  /** Where unescaping goes on, normalizing goes on to the same place. */
  lemma RoundsAgree(feed: Feed, traits: Traits, s: seq<byte>, d: nat, c: Checker)
    requires Sound(feed) && Between(c) && d < |s| && StepAt(feed, traits, s, d, c).Emit?
    ensures var step, round := StepAt(feed, traits, s, d, c), NextRound(feed, s, d, c);
            round.Out? && round.taken == step.taken && round.next == step.next && Between(step.next)
  {
    DecodePiece(feed, traits, s, d, c, []);
  }

  lemma {:induction false} MeaningFrom(feed: Feed, traits: Traits, s: seq<byte>, d: nat, c: Checker, done: seq<byte>)
    requires Sound(feed) && Between(c) && d <= |s|
    requires UnescapeAt(feed, traits, s, d, c, done).Decoded?
    ensures Normalize(feed, s, d, c).Decoded?
    ensures ReadsAs(Normalize(feed, s, d, c).text, feed, traits, s, d, c, done)
    decreases |s| - d
  {
    if d == |s| {
      assert done + [] == done;
    } else {
      var step := StepAt(feed, traits, s, d, c);
      RoundsAgree(feed, traits, s, d, c);
      MeaningFrom(feed, traits, s, d + step.taken, step.next, done + [step.b]);
      MeaningStep(feed, traits, s, d, c, done, Normalize(feed, s, d + step.taken, step.next).text);
    }
  }

  /** Where the normal form is spoiled: at an escaped '~' here, or further on. */
  lemma SpoiledStep(feed: Feed, traits: Traits, s: seq<byte>, d: nat, c: Checker)
    requires Sound(feed) && Between(c) && d < |s| && StepAt(feed, traits, s, d, c).Emit?
    requires NextRound(feed, s, d, c).Out?
    ensures var round := NextRound(feed, s, d, c);
            Spoiled(traits, s, d) == (Spoils(traits, round) || Spoiled(traits, s, d + round.taken))
  {
    var round := NextRound(feed, s, d, c);
    if s[d] == PERCENT && |round.piece| == 1 {
      UnreservedIsOrdinary(traits, round.piece[0]);
    }
  }

  /** Sections 2.3 and 6.2.2.2 of RFC 3986: a text that unescapes under some traits has a normal form,
      and the normal form unescapes to the same, exactly unless the form traits meet an escaped '~'. */
  lemma {:induction false} NormalizationKeepsMeaning(traits: Traits, s: seq<byte>)
    requires Unescape(CHECK, traits, s, FRESH).Decoded?
    ensures Normalize(CHECK, s, 0, FRESH).Decoded?
    ensures Unescape(CHECK, traits, Normalize(CHECK, s, 0, FRESH).text, FRESH) == Unescape(CHECK, traits, s, FRESH)
       <==> !(traits.FormUrlencoded? && EscapesTilde(s, 0))
  {
    CheckIsSound();
    UnescapeFromTheStart(CHECK, traits, s);
    MeaningFrom(CHECK, traits, s, 0, FRESH, []);
    AppendNothing(Unescape(CHECK, traits, Normalize(CHECK, s, 0, FRESH).text, FRESH));
  }

  /** "%7E" under the form traits: it reads as '~', its normal form "~" is refused. */
  lemma {:induction false} EscapedTildeIsSpoiled()
    ensures var s: seq<byte> := [PERCENT, 0x37, 0x45];
            && Unescape(CHECK, FormUrlencoded, s, FRESH) == Decoded([0x7E])
            && Normalize(CHECK, s, 0, FRESH) == Decoded([0x7E])
            && Unescape(CHECK, FormUrlencoded, [0x7E], FRESH) == Failed(InvalidChar, 1)
  {
    var s: seq<byte> := [PERCENT, 0x37, 0x45];
    var c := Process(FRESH, 0x7E);
    assert EscapedChar(0x37, 0x45) == 0x7E;
    assert c == Checker(0x7E, 0, Valid) && Continue(c) == FRESH;
    assert s[3..] == [];
    assert Unescape(CHECK, FormUrlencoded, s, FRESH) == Cons(0x7E, Unescape(CHECK, FormUrlencoded, [], FRESH));
    assert Normalize(CHECK, s, 0, FRESH) == Join([0x7E], Normalize(CHECK, s, 3, FRESH));
  }

  // --- normalizing twice changes nothing more ---

  lemma NormalizePiece(feed: Feed, s: seq<byte>, d: nat, c: Checker, rest: seq<byte>)
    requires Sound(feed) && Between(c) && d < |s| && NextRound(feed, s, d, c).Out?
    ensures var round := NextRound(feed, s, d, c);
            && Between(round.next)
            && NextRound(feed, round.piece + rest, 0, c) == Out(round.piece, |round.piece|, round.next)
  {
    var round := NextRound(feed, s, d, c);
    var text := round.piece + rest;
    if s[d] == PERCENT {
      if |round.piece| == 1 {
        UnreservedIsOrdinary(Default, round.piece[0]);
      } else {
        assert text[0] == s[d] && text[1] == s[d + 1] && text[2] == s[d + 2];
      }
    }
  }

  /** Normalizing depends only on the rest of the text. */
  lemma {:induction false} NormalizeShift(feed: Feed, pre: seq<byte>, s: seq<byte>, d: nat, c: Checker)
    requires d <= |s|
    ensures Normalize(feed, pre + s, |pre| + d, c) == Normalize(feed, s, d, c)
    decreases |s| - d
  {
    if d < |s| {
      var round := NextRound(feed, s, d, c);
      assert NextRound(feed, pre + s, |pre| + d, c) == round;
      if round.Out? {
        NormalizeShift(feed, pre, s, d + round.taken, round.next);
        assert |pre| + d + round.taken == |pre| + (d + round.taken);
      }
    }
  }

  lemma {:induction false} NormalizeTwice(feed: Feed, s: seq<byte>, d: nat, c: Checker)
    requires Sound(feed) && Between(c) && d <= |s| && Normalize(feed, s, d, c).Decoded?
    ensures var n := Normalize(feed, s, d, c).text;
            Normalize(feed, n, 0, c) == Decoded(n)
    decreases |s| - d
  {
    if d < |s| {
      var round := NextRound(feed, s, d, c);
      var rest := NormalizeSplits(feed, s, d, c);
      NormalizePiece(feed, s, d, c, rest);
      NormalizeTwice(feed, s, d + round.taken, round.next);
      NormalAfterPiece(feed, round.piece, rest, c, round.next);
    }
  }

  lemma {:induction false} NormalizeSplits(feed: Feed, s: seq<byte>, d: nat, c: Checker) returns (rest: seq<byte>)
    requires d < |s| && Normalize(feed, s, d, c).Decoded?
    ensures var round := NextRound(feed, s, d, c);
            && round.Out? && Normalize(feed, s, d + round.taken, round.next) == Decoded(rest)
            && Normalize(feed, s, d, c).text == round.piece + rest
  {
    var round := NextRound(feed, s, d, c);
    rest := Normalize(feed, s, d + round.taken, round.next).text;
  }

  lemma {:induction false} NormalAfterPiece(feed: Feed, piece: seq<byte>, rest: seq<byte>, c: Checker, next: Checker)
    requires |piece| > 0 && NextRound(feed, piece + rest, 0, c) == Out(piece, |piece|, next)
    requires Normalize(feed, rest, 0, next) == Decoded(rest)
    ensures Normalize(feed, piece + rest, 0, c) == Decoded(piece + rest)
  {
    NormalizeShift(feed, piece, rest, 0, next);
  }

  lemma {:induction false} NormalizationIsIdempotent(s: seq<byte>)
    requires Normalize(CHECK, s, 0, FRESH).Decoded?
    ensures var n := Normalize(CHECK, s, 0, FRESH).text;
            Normalize(CHECK, n, 0, FRESH) == Decoded(n)
  {
    CheckIsSound();
    NormalizeTwice(CHECK, s, 0, FRESH);
  }

  // --- the two loops ---

  datatype RoundResult = Thrown(reason: Reason) | OneByte(ch: byte, taken: nat) | ThreeBytes

  function PieceOf(r: RoundResult, ch: byte, ch1: byte, ch2: byte): seq<byte>
    requires !r.Thrown?
  {
    if r.OneByte? then [r.ch] else [ch, ch1, ch2]
  }

  function TakenBy(r: RoundResult): nat
    requires !r.Thrown?
  {
    if r.OneByte? then r.taken else 3
  }

  /** The loop body of `run_normalization_algo`, up to the call of one of the handlers. */
  method RunRound(ch: byte, ch1: byte, ch2: byte, left: nat, checker: Utf8Checker,
                  ghost feed: Feed, ghost s: seq<byte>, ghost d: nat)
    returns (r: RoundResult)
    requires IsCheck(feed) && d + left == |s| && left > 0 && ch == s[d]
    requires left >= 3 ==> ch1 == s[d + 1] && ch2 == s[d + 2]
    modifies checker
    ensures !r.Thrown? ==> 1 <= TakenBy(r) <= left
    ensures NextRound(feed, s, d, old(checker.Abs()))
         == if r.Thrown? then Throw(r.reason) else Out(PieceOf(r, ch, ch1, ch2), TakenBy(r), checker.Abs())
  {
    var expectNextByte := checker.restBytes != 0;
    if expectNextByte && PERCENT != ch {
      return Thrown(NextByteExpected);
    }
    if PERCENT != ch {
      return OneByte(ch, 1);
    } else if left >= 3 && IsHexDigit(ch1) && IsHexDigit(ch2) {
      var ok := checker.ProcessByte(EscapedChar(ch1, ch2));
      if !ok {
        return Thrown(InvalidSequence);
      }
      if checker.restBytes == 0 {
        var symbol := checker.currentSymbol;
        checker.DoReset();
        if symbol < 0x80 && IsUnreserved(symbol) {
          return OneByte(symbol, 3);
        }
      }
      return ThreeBytes;
    } else {
      return Thrown(InvalidEscape);
    }
  }

  datatype Capacity = Required(size: nat) | Refused(reason: Reason, left: nat)

  /** `estimate_required_capacity`. */
  method EstimateRequiredCapacity(what: seq<byte>) returns (r: Capacity)
    ensures r == match Normalize(CHECK, what, 0, FRESH)
                 case Decoded(text) => Required(|text|)
                 case Failed(reason, left) => Refused(reason, left)
  {
    r := CountLoop(CHECK, what);
  }

  function Longer(n: nat, r: Decoding): Capacity {
    match r
    case Decoded(text) => Required(n + |text|)
    case Failed(reason, left) => Refused(reason, left)
  }

  method CountLoop(ghost feed: Feed, what: seq<byte>) returns (r: Capacity)
    requires IsCheck(feed)
    ensures r == Longer(0, Normalize(feed, what, 0, FRESH))
  {
    var left, d, size := |what|, 0, 0;
    var checker := new Utf8Checker();
    ghost var whole := Longer(0, Normalize(feed, what, 0, FRESH));
    while 0 < left
      invariant 0 <= left && d + left == |what| && 0 <= size
      invariant Longer(size, Normalize(feed, what, d, checker.Abs())) == whole
    {
      var ch1, ch2 := if left >= 3 then what[d + 1] else 0, if left >= 3 then what[d + 2] else 0;
      var round := RunRound(what[d], ch1, ch2, left, checker, feed, what, d);
      if round.Thrown? {
        return Refused(round.reason, left);
      }
      size := size + if round.OneByte? then 1 else 3;
      left := left - TakenBy(round);
      d := d + TakenBy(round);
    }
    if checker.restBytes != 0 {
      return Refused(Unfinished, 0);
    }
    return Required(size);
  }

  /** What reaches the handlers from index `d` on, before the end or an exception. */
  function HandedOut(feed: Feed, s: seq<byte>, d: nat, c: Checker): seq<byte>
    requires d <= |s|
    decreases |s| - d
  {
    if d == |s| then []
    else
      match NextRound(feed, s, d, c)
      case Throw(_) => []
      case Out(piece, taken, next) => piece + HandedOut(feed, s, d + taken, next)
  }

  lemma {:induction false} NormalFormIsHandedOut(feed: Feed, s: seq<byte>, d: nat, c: Checker)
    requires d <= |s| && Normalize(feed, s, d, c).Decoded?
    ensures Normalize(feed, s, d, c).text == HandedOut(feed, s, d, c)
    decreases |s| - d
  {
    if d < |s| {
      var round := NextRound(feed, s, d, c);
      NormalFormIsHandedOut(feed, s, d + round.taken, round.next);
    }
  }

  datatype Writing = Whole | Broken(reason: Reason, left: nat)

  function Ending(r: Decoding): Writing {
    match r
    case Decoded(_) => Whole
    case Failed(reason, left) => Broken(reason, left)
  }

  /** `normalize_to`: the caller has to have room for what is written, all of it or up to an exception. */
  method NormalizeTo(what: seq<byte>, dest: array<byte>) returns (r: Writing)
    requires |HandedOut(CHECK, what, 0, FRESH)| <= dest.Length
    modifies dest
    ensures Overwritten(dest[..], old(dest[..]), 0, HandedOut(CHECK, what, 0, FRESH))
    ensures match Normalize(CHECK, what, 0, FRESH)
            case Decoded(text) => r == Whole && Overwritten(dest[..], old(dest[..]), 0, text)
            case Failed(reason, left) => r == Broken(reason, left)
  {
    r := WriteLoop(CHECK, what, dest);
    if r.Whole? {
      NormalFormIsHandedOut(CHECK, what, 0, FRESH);
    }
  }

  method WriteLoop(ghost feed: Feed, what: seq<byte>, dest: array<byte>) returns (r: Writing)
    requires IsCheck(feed) && |HandedOut(feed, what, 0, FRESH)| <= dest.Length
    modifies dest
    ensures Overwritten(dest[..], old(dest[..]), 0, HandedOut(feed, what, 0, FRESH))
    ensures r == Ending(Normalize(feed, what, 0, FRESH))
  {
    ghost var original := dest[..];
    ghost var whole, ending := HandedOut(feed, what, 0, FRESH), Ending(Normalize(feed, what, 0, FRESH));
    ghost var done: seq<byte> := [];
    var left, d, at := |what|, 0, 0;
    var checker := new Utf8Checker();
    WritingStarts(feed, what);
    while 0 < left
      invariant 0 <= left && d + left == |what| && at == |done|
      invariant Overwritten(dest[..], original, 0, done)
      invariant WritingAt(feed, what, d, checker.Abs(), done, whole, ending)
    {
      ghost var piece;
      var round;
      round, piece := WriteRound(what, d, left, dest, at, checker, feed, original, done, whole, ending);
      if round.Thrown? {
        return Broken(round.reason, left);
      }
      done := done + piece;
      at := at + if round.OneByte? then 1 else 3;
      left := left - TakenBy(round);
      d := d + TakenBy(round);
    }
    WritingEnds(feed, what, checker.Abs(), done, whole, ending);
    r := if checker.restBytes != 0 then Broken(Unfinished, 0) else Whole;
  }

  method WriteRound(what: seq<byte>, d: nat, left: nat, dest: array<byte>, at: nat, checker: Utf8Checker,
                    ghost feed: Feed, ghost original: seq<byte>, ghost done: seq<byte>,
                    ghost whole: seq<byte>, ghost ending: Writing)
    returns (r: RoundResult, ghost piece: seq<byte>)
    requires IsCheck(feed) && left > 0 && d + left == |what| && at == |done| && |whole| <= dest.Length
    requires Overwritten(dest[..], original, 0, done) && WritingAt(feed, what, d, checker.Abs(), done, whole, ending)
    modifies dest, checker
    ensures r.Thrown? ==> done == whole && ending == Broken(r.reason, left) && Overwritten(dest[..], original, 0, done)
    ensures !r.Thrown? ==>
              && 1 <= TakenBy(r) <= left && |piece| == (if r.OneByte? then 1 else 3)
              && Overwritten(dest[..], original, 0, done + piece)
              && WritingAt(feed, what, d + TakenBy(r), checker.Abs(), done + piece, whole, ending)
  {
    var ch1, ch2 := if left >= 3 then what[d + 1] else 0, if left >= 3 then what[d + 2] else 0;
    WritingGoesOn(feed, what, d, checker.Abs(), done, whole, ending);
    r := RunRound(what[d], ch1, ch2, left, checker, feed, what, d);
    piece := [];
    if !r.Thrown? {
      piece := PieceOf(r, what[d], ch1, ch2);
      var _ := StorePiece(dest, at, r, what[d], ch1, ch2, original, done);
    }
  }

  /** `done` was written before index `d`, and the rest will make it `whole`, with that ending. */
  ghost predicate WritingAt(feed: Feed, s: seq<byte>, d: nat, c: Checker, done: seq<byte>, whole: seq<byte>,
      ending: Writing) {
    d <= |s| && done + HandedOut(feed, s, d, c) == whole && Ending(Normalize(feed, s, d, c)) == ending
  }

  lemma WritingStarts(feed: Feed, s: seq<byte>)
    ensures WritingAt(feed, s, 0, FRESH, [], HandedOut(feed, s, 0, FRESH), Ending(Normalize(feed, s, 0, FRESH)))
  {
    assert [] + HandedOut(feed, s, 0, FRESH) == HandedOut(feed, s, 0, FRESH);
  }

  lemma {:induction false} WritingGoesOn(feed: Feed, s: seq<byte>, d: nat, c: Checker, done: seq<byte>,
      whole: seq<byte>, ending: Writing)
    requires WritingAt(feed, s, d, c, done, whole, ending) && d < |s|
    ensures match NextRound(feed, s, d, c)
            case Throw(reason) => done == whole && ending == Broken(reason, |s| - d)
            case Out(piece, taken, next) =>
              && |done + piece| <= |whole|
              && WritingAt(feed, s, d + taken, next, done + piece, whole, ending)
  {
    var round := NextRound(feed, s, d, c);
    if round.Out? {
      Associative(done, round.piece, HandedOut(feed, s, d + round.taken, round.next));
    } else {
      assert done + [] == done;
    }
  }

  lemma {:induction false} WritingEnds(feed: Feed, s: seq<byte>, c: Checker, done: seq<byte>, whole: seq<byte>,
      ending: Writing)
    requires WritingAt(feed, s, |s|, c, done, whole, ending)
    ensures done == whole && ending == if c.rest > 0 then Broken(Unfinished, 0) else Whole
  {
    assert done + [] == done;
  }

  /** The two handlers of `normalize_to`. */
  method StorePiece(dest: array<byte>, at: nat, round: RoundResult, ch: byte, ch1: byte, ch2: byte,
                    ghost original: seq<byte>, ghost done: seq<byte>) returns (next: nat)
    requires !round.Thrown? && at == |done| && at + |PieceOf(round, ch, ch1, ch2)| <= dest.Length
    requires Overwritten(dest[..], original, 0, done)
    modifies dest
    ensures Overwritten(dest[..], original, 0, done + PieceOf(round, ch, ch1, ch2))
    ensures next == at + |PieceOf(round, ch, ch1, ch2)|
  {
    if round.OneByte? {
      OverwriteNext(dest[..], original, 0, done, round.ch);
      Store(dest, at, round.ch);
      next := at + 1;
    } else {
      StoreThree(dest, at, ch, ch1, ch2, original, done);
      next := at + 3;
    }
  }

  /** The three-byte handler of `normalize_to`. */
  method StoreThree(dest: array<byte>, at: nat, ch: byte, ch1: byte, ch2: byte,
                    ghost original: seq<byte>, ghost done: seq<byte>)
    requires at == |done| && at + 3 <= dest.Length && Overwritten(dest[..], original, 0, done)
    modifies dest
    ensures Overwritten(dest[..], original, 0, done + [ch, ch1, ch2])
  {
    OverwriteNext(dest[..], original, 0, done, ch);
    Store(dest, at, ch);
    OverwriteNext(dest[..], original, 0, done + [ch], ch1);
    Store(dest, at + 1, ch1);
    OverwriteNext(dest[..], original, 0, done + [ch] + [ch1], ch2);
    Store(dest, at + 2, ch2);
    assert done + [ch] + [ch1] + [ch2] == done + [ch, ch1, ch2];
  }
}
