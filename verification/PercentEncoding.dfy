/** Percent decoding and encoding: copying, and inside the buffer that holds the text. */
module PercentEncoding {
  import opened Bytes
  import opened Utf8

  const PERCENT: byte := 0x25
  const PLUS: byte := 0x2B
  const SPACE: byte := 0x20

  /** The traits that say which characters may stand unescaped. */
  datatype Traits = Default | FormUrlencoded | Relaxed | JavaScript

  predicate IsAlnum(c: byte) {
    0x30 <= c <= 0x39 || 0x41 <= c <= 0x5A || 0x61 <= c <= 0x7A
  }

  /** `ordinary_char`. The relaxed traits search a C string, so they also take the terminating zero. */
  predicate Ordinary(traits: Traits, c: byte) {
    match traits
    case Default => IsAlnum(c) || c in {0x2D, 0x2E, 0x7E, 0x5F}
    case FormUrlencoded => IsAlnum(c) || c in {0x2A, 0x2D, 0x2E, 0x5F}
    case JavaScript => IsAlnum(c) || c in {0x2D, 0x2E, 0x7E, 0x5F, 0x2A, 0x21, 0x27, 0x28, 0x29}
    case Relaxed =>
      || IsAlnum(c) || c in {0x00, 0x20, 0x2D, 0x2E, 0x5F, 0x7E}
      || c in {0x3A, 0x2F, 0x3F, 0x23, 0x5B, 0x5D, 0x40}
      || c in {0x21, 0x24, 0x26, 0x27, 0x28, 0x29, 0x2A, 0x2B, 0x2C, 0x3B, 0x3D}
  }

  /** `extract_escaped_char`. */
  function EscapedChar(c1: byte, c2: byte): byte
    requires IsHexDigit(c1) && IsHexDigit(c2)
  {
    HexValue(c1) * 16 + HexValue(c2)
  }

  /** The reasons to refuse a text. `left` is how many characters from the place on are left. */
  datatype Reason = NextByteExpected | InvalidSequence | InvalidEscape | InvalidChar | Unfinished

  datatype Decoding = Decoded(text: seq<byte>) | Failed(reason: Reason, left: nat)

  function Cons(b: byte, r: Decoding): Decoding {
    if r.Decoded? then Decoded([b] + r.text) else r
  }

  /** The checker for what follows: a finished symbol resets it. */
  function Continue(c: Checker): Checker {
    if c.rest == 0 then Reset(c) else c
  }

  /** The UTF-8 check as a value: what does not depend on it is proved for any. */
  type Feed = (Checker, byte) -> Checker

  const CHECK: Feed := (c: Checker, b: byte) => Process(c, b)

  ghost predicate IsCheck(feed: Feed) {
    forall c, b {:trigger Process(c, b)} :: feed(c, b) == Process(c, b)
  }

  /** Between symbols the checker is a new one; within a symbol it keeps it at 0x80 or above. */
  predicate Between(c: Checker) {
    c == FRESH || (c.rest > 0 && Pending(c))
  }

  ghost predicate Sound(feed: Feed) {
    forall c: Checker, b: byte | Between(c) && feed(c, b).Accepting() ::
      && Between(Continue(feed(c, b)))
      && (feed(c, b).rest == 0 && feed(c, b).symbol < 0x80 ==> c == FRESH && feed(c, b).symbol == b)
      && (b < 0x80 ==> feed(c, b).rest == 0 && feed(c, b).symbol == b)
  }

  /** Accepted multi-byte symbols are at least 0x80. */
  lemma CheckIsSound()
    ensures Sound(CHECK)
  {
    forall c: Checker, b: byte | Between(c) && CHECK(c, b).Accepting()
      ensures Between(Continue(CHECK(c, b)))
      ensures CHECK(c, b).rest == 0 && CHECK(c, b).symbol < 0x80 ==> c == FRESH && CHECK(c, b).symbol == b
      ensures b < 0x80 ==> CHECK(c, b).rest == 0 && CHECK(c, b).symbol == b
    {
      assert CHECK(c, b) == Process(c, b);
      ProcessPending(c, b);
    }
  }

  datatype Step = Refuse(reason: Reason) | Emit(b: byte, taken: nat, next: Checker)

  /** One round of the decoder at index `d`: the byte for the collector and how many characters it
      stands for. */
  function StepAt(feed: Feed, traits: Traits, s: seq<byte>, d: nat, c: Checker): (r: Step)
    requires d < |s|
    ensures r.Emit? ==> 1 <= r.taken <= |s| - d
  {
    if c.rest > 0 && s[d] != PERCENT then Refuse(NextByteExpected)
    else if s[d] == PERCENT then
      if !(d + 3 <= |s| && IsHexDigit(s[d + 1]) && IsHexDigit(s[d + 2])) then Refuse(InvalidEscape)
      else
        var b := EscapedChar(s[d + 1], s[d + 2]);
        var next := feed(c, b);
        if next.Accepting() then Emit(b, 3, Continue(next)) else Refuse(InvalidSequence)
    else if s[d] == PLUS then Emit(SPACE, 1, c)
    else if Ordinary(traits, s[d]) then Emit(s[d], 1, c)
    else Refuse(InvalidChar)
  }

  /** What unescaping the rest of a text gives, with the checker in state `c`. */
  function Unescape(feed: Feed, traits: Traits, s: seq<byte>, c: Checker): Decoding
    decreases |s|
  {
    if |s| == 0 then if c.rest > 0 then Failed(Unfinished, 0) else Decoded([])
    else
      match StepAt(feed, traits, s, 0, c)
      case Refuse(reason) => Failed(reason, |s|)
      case Emit(b, taken, next) => Cons(b, Unescape(feed, traits, s[taken..], next))
  }

  /** Unescaping from index `d` on, after `done` was collected: the form the loops follow. */
  function UnescapeAt(feed: Feed, traits: Traits, s: seq<byte>, d: nat, c: Checker, done: seq<byte>): Decoding
    requires d <= |s|
    decreases |s| - d
  {
    if d == |s| then if c.rest > 0 then Failed(Unfinished, 0) else Decoded(done)
    else
      match StepAt(feed, traits, s, d, c)
      case Refuse(reason) => Failed(reason, |s| - d)
      case Emit(b, taken, next) => UnescapeAt(feed, traits, s, d + taken, next, done + [b])
  }

  function Append(done: seq<byte>, r: Decoding): Decoding {
    if r.Decoded? then Decoded(done + r.text) else r
  }

  lemma UnescapeUnfolds(feed: Feed, traits: Traits, s: seq<byte>, d: nat, c: Checker)
    requires d < |s|
    ensures Unescape(feed, traits, s[d..], c)
         == (match StepAt(feed, traits, s, d, c)
             case Refuse(reason) => Failed(reason, |s| - d)
             case Emit(b, taken, next) => Cons(b, Unescape(feed, traits, s[d + taken..], next)))
  {
    var step := StepAt(feed, traits, s, d, c);
    assert step == StepAt(feed, traits, s[d..], 0, c);
    if step.Emit? {
      assert s[d..][step.taken..] == s[d + step.taken..];
    }
  }

  lemma {:induction false} UnescapeAtIsUnescape(feed: Feed, traits: Traits, s: seq<byte>, d: nat, c: Checker,
      done: seq<byte>)
    requires d <= |s|
    ensures UnescapeAt(feed, traits, s, d, c, done) == Append(done, Unescape(feed, traits, s[d..], c))
    decreases |s| - d
  {
    if d == |s| {
      assert done + [] == done;
    } else {
      UnescapeUnfolds(feed, traits, s, d, c);
      var step := StepAt(feed, traits, s, d, c);
      if step.Emit? {
        UnescapeAtIsUnescape(feed, traits, s, d + step.taken, step.next, done + [step.b]);
        AppendCons(done, step.b, Unescape(feed, traits, s[d + step.taken..], step.next));
      }
    }
  }

  lemma AppendNothing(r: Decoding)
    ensures Append([], r) == r
  {
    if r.Decoded? {
      assert [] + r.text == r.text;
    }
  }

  lemma AppendCons(done: seq<byte>, b: byte, r: Decoding)
    ensures Append(done, Cons(b, r)) == Append(done + [b], r)
  {
    if r.Decoded? {
      assert done + ([b] + r.text) == (done + [b]) + r.text;
    }
  }

  lemma UnescapeFromTheStart(feed: Feed, traits: Traits, s: seq<byte>)
    ensures UnescapeAt(feed, traits, s, 0, FRESH, []) == Unescape(feed, traits, s, FRESH)
  {
    UnescapeAtIsUnescape(feed, traits, s, 0, FRESH, []);
    assert s[0..] == s;
    AppendNothing(Unescape(feed, traits, s, FRESH));
  }

  /** Decoding never makes a text longer. */
  lemma {:induction false} UnescapeShrinks(feed: Feed, traits: Traits, s: seq<byte>, c: Checker)
    ensures var r := Unescape(feed, traits, s, c);
            r.Decoded? ==> |r.text| <= |s|
    decreases |s|
  {
    if |s| > 0 && StepAt(feed, traits, s, 0, c).Emit? {
      var e := StepAt(feed, traits, s, 0, c);
      UnescapeShrinks(feed, traits, s[e.taken..], e.next);
    }
  }

  datatype RoundResult = Stop(reason: Reason) | Collect(b: byte, taken: nat)

  /** The loop body of `do_unescape_percent_encoding`, up to the call of the collector, with `left`
      characters left: the next one, and the two after it if there are that many. */
  method DecodeNext(traits: Traits, ch: byte, ch1: byte, ch2: byte, left: nat, checker: Utf8Checker,
                    ghost feed: Feed, ghost s: seq<byte>, ghost d: nat, ghost done: seq<byte>)
    returns (r: RoundResult)
    requires IsCheck(feed)
    requires d + left == |s| && left > 0 && ch == s[d]
    requires left >= 3 ==> ch1 == s[d + 1] && ch2 == s[d + 2]
    modifies checker
    ensures r.Collect? ==> 1 <= r.taken <= left
    ensures UnescapeAt(feed, traits, s, d, old(checker.Abs()), done)
         == if r.Stop? then Failed(r.reason, left)
            else UnescapeAt(feed, traits, s, d + r.taken, checker.Abs(), done + [r.b])
  {
    var expectNextByte := checker.restBytes != 0;
    if expectNextByte && PERCENT != ch {
      return Stop(NextByteExpected);
    }
    if PERCENT == ch {
      if left >= 3 && IsHexDigit(ch1) && IsHexDigit(ch2) {
        var b := EscapedChar(ch1, ch2);
        var ok := checker.ProcessByte(b);
        if !ok {
          return Stop(InvalidSequence);
        }
        expectNextByte := checker.restBytes != 0;
        if !expectNextByte {
          checker.DoReset();
        }
        return Collect(b, 3);
      } else {
        return Stop(InvalidEscape);
      }
    } else if PLUS == ch {
      return Collect(SPACE, 1);
    } else if Ordinary(traits, ch) {
      return Collect(ch, 1);
    } else {
      return Stop(InvalidChar);
    }
  }

  /** `try_unescape_percent_encoding`: the decoder with a collector that appends to a string. */
  method TryUnescape(traits: Traits, data: seq<byte>) returns (r: Decoding)
    ensures r == Unescape(CHECK, traits, data, FRESH)
  {
    r := CopyLoop(CHECK, traits, data);
    UnescapeFromTheStart(CHECK, traits, data);
  }

  method CopyLoop(ghost feed: Feed, traits: Traits, data: seq<byte>) returns (r: Decoding)
    requires IsCheck(feed)
    ensures r == UnescapeAt(feed, traits, data, 0, FRESH, [])
  {
    var left := |data|;
    var d := 0;
    var checker := new Utf8Checker();
    var result: seq<byte> := [];
    ghost var whole := UnescapeAt(feed, traits, data, 0, FRESH, []);
    while 0 < left
      invariant 0 <= left && d + left == |data|
      invariant UnescapeAt(feed, traits, data, d, checker.Abs(), result) == whole
    {
      var ch1, ch2 := if left >= 3 then data[d + 1] else 0, if left >= 3 then data[d + 2] else 0;
      var step := DecodeNext(traits, data[d], ch1, ch2, left, checker, feed, data, d, result);
      if step.Stop? {
        return Failed(step.reason, left);
      }
      result := result + [step.b];
      left := left - step.taken;
      d := d + step.taken;
    }
    if checker.restBytes != 0 {
      return Failed(Unfinished, 0);
    }
    return Decoded(result);
  }

  datatype InplaceResult = Size(size: nat) | NotUnescaped(reason: Reason, left: nat)

  /** The buffer `now` is the original one with `done` written over it at `from`. */
  ghost predicate Overwritten(now: seq<byte>, original: seq<byte>, from: nat, done: seq<byte>) {
    && |now| == |original| && from + |done| <= |now|
    && forall i | 0 <= i < |now| :: now[i] == if from <= i < from + |done| then done[i - from] else original[i]
  }

  lemma OverwriteNext(now: seq<byte>, original: seq<byte>, from: nat, done: seq<byte>, b: byte)
    requires Overwritten(now, original, from, done) && from + |done| < |now|
    ensures Overwritten(now[from + |done| := b], original, from, done + [b])
  {
  }

  method Store(data: array<byte>, i: nat, b: byte)
    requires i < data.Length
    modifies data
    ensures data[..] == old(data[..])[i := b]
  {
    data[i] := b;
  }

  /** `try_inplace_unescape_percent_encoding`: the same decoder reading from and writing to one buffer.
      The result is the copying decoder's on the original bytes; it stands at the front, and nothing
      but the bytes that it covers is written. */
  method TryInplaceUnescape(traits: Traits, data: array<byte>, from: nat, size: nat) returns (r: InplaceResult)
    requires from + size <= data.Length
    modifies data
    ensures match Unescape(CHECK, traits, old(data[from..from + size]), FRESH)
            case Decoded(text) =>
              r == Size(|text|) && |text| <= size && Overwritten(data[..], old(data[..]), from, text)
            case Failed(reason, left) =>
              r == NotUnescaped(reason, left) && exists done ::
                |done| <= size && Overwritten(data[..], old(data[..]), from, done)
  {
    ghost var done;
    UnescapeFromTheStart(CHECK, traits, data[from..from + size]);
    r, done := InplaceLoop(CHECK, traits, data, from, size);
  }

  /** What is left to do makes `whole`. */
  ghost predicate LeadsTo(feed: Feed, traits: Traits, s: seq<byte>, d: nat, c: Checker, done: seq<byte>,
                          whole: Decoding) {
    d <= |s| && UnescapeAt(feed, traits, s, d, c, done) == whole
  }

  /** Its loop; `done` is what was collected. */
  method InplaceLoop(ghost feed: Feed, traits: Traits, data: array<byte>, from: nat, size: nat)
    returns (r: InplaceResult, ghost done: seq<byte>)
    requires from + size <= data.Length && IsCheck(feed)
    modifies data
    ensures |done| <= size && Overwritten(data[..], old(data[..]), from, done)
    ensures UnescapeAt(feed, traits, old(data[from..from + size]), 0, FRESH, [])
         == if r.Size? then Decoded(done) else Failed(r.reason, r.left)
    ensures r.Size? ==> r.size == |done|
  {
    ghost var original := data[..];
    ghost var text := data[from..from + size];
    ghost var whole := UnescapeAt(feed, traits, text, 0, FRESH, []);
    done := [];
    var left := size;
    var d := 0;
    var resultSize := 0;
    var checker := new Utf8Checker();
    assert LeadsTo(feed, traits, text, d, checker.Abs(), done, whole);
    while 0 < left
      invariant 0 <= left && d + left == size && 0 <= resultSize <= d && |done| == resultSize
      invariant Overwritten(data[..], original, from, done)
      invariant LeadsTo(feed, traits, text, d, checker.Abs(), done, whole)
    {
      var step := InplaceRound(traits, data, from, d, left, resultSize, checker, feed, original, text, done, whole);
      if step.Stop? {
        return NotUnescaped(step.reason, left), done;
      }
      done := done + [step.b];
      resultSize := resultSize + 1;
      left := left - step.taken;
      d := d + step.taken;
    }
    if checker.restBytes != 0 {
      return NotUnescaped(Unfinished, 0), done;
    }
    return Size(resultSize), done;
  }

  /** One round: the decoder reads at `from + d`, its collector writes at `from + dest`, not behind it. */
  method InplaceRound(traits: Traits, data: array<byte>, from: nat, d: nat, left: nat, dest: nat, checker: Utf8Checker,
                      ghost feed: Feed, ghost original: seq<byte>, ghost text: seq<byte>, ghost done: seq<byte>,
                      ghost whole: Decoding)
    returns (r: RoundResult)
    requires IsCheck(feed) && LeadsTo(feed, traits, text, d, checker.Abs(), done, whole)
    requires dest == |done| <= d && d + left == |text| && left > 0 && from + |text| <= data.Length == |original|
    requires text == original[from..from + |text|] && Overwritten(data[..], original, from, done)
    modifies data, checker
    ensures r.Collect? ==> 1 <= r.taken <= left
    ensures Overwritten(data[..], original, from, if r.Stop? then done else done + [r.b])
    ensures if r.Stop? then whole == Failed(r.reason, left)
            else LeadsTo(feed, traits, text, d + r.taken, checker.Abs(), done + [r.b], whole)
  {
    var at := from + d;
    var ch1, ch2 := if left >= 3 then data[at + 1] else 0, if left >= 3 then data[at + 2] else 0;
    r := DecodeNext(traits, data[at], ch1, ch2, left, checker, feed, text, d, done);
    if r.Collect? {
      OverwriteNext(data[..], original, from, done, r.b);
      Store(data, from + dest, r.b);
    }
  }
}
