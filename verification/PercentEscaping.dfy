/** Percent encoding, and that decoding undoes it. */
module PercentEscaping {
  import opened Bytes
  import opened Utf8
  import opened PercentEncoding

  predicate IsAscii(s: seq<byte>) {
    forall i | 0 <= i < |s| :: s[i] < 0x80
  }

  /** What the formatting library writes after the percent sign for a character from 0x80 up. */
  type HighFormat = byte -> seq<byte>

  /** The format `{:02X}`. */
  function Format(high: HighFormat, c: byte): seq<byte> {
    if c < 0x80 then [HexDigit(c / 16), HexDigit(c % 16)] else high(c)
  }

  function EscapeOne(traits: Traits, high: HighFormat, c: byte): seq<byte> {
    if Ordinary(traits, c) then [c] else [PERCENT] + Format(high, c)
  }

  function Escape(traits: Traits, high: HighFormat, s: seq<byte>): seq<byte>
    decreases |s|
  {
    if |s| == 0 then [] else EscapeOne(traits, high, s[0]) + Escape(traits, high, s[1..])
  }

  method EscapedCharsCount(traits: Traits, data: seq<byte>) returns (n: nat)
    ensures n == 0 <==> forall i | 0 <= i < |data| :: Ordinary(traits, data[i])
  {
    n := 0;
    for i := 0 to |data|
      invariant n == 0 <==> forall j | 0 <= j < i :: Ordinary(traits, data[j])
    {
      if !Ordinary(traits, data[i]) {
        n := n + 1;
      }
    }
  }

  /** `escape_percent_encoding`: a text without special characters is copied as it is. */
  method EscapePercentEncoding(traits: Traits, high: HighFormat, data: seq<byte>) returns (result: seq<byte>)
    ensures result == Escape(traits, high, data)
  {
    var escapedCount := EscapedCharsCount(traits, data);
    if escapedCount == 0 {
      OrdinaryIsKept(traits, high, data);
      return data;
    }
    result := [];
    for i := 0 to |data|
      invariant result == Escape(traits, high, data[..i])
    {
      EscapeSnoc(traits, high, data[..i], data[i]);
      assert data[..i + 1] == data[..i] + [data[i]];
      if Ordinary(traits, data[i]) {
        result := result + [data[i]];
      } else {
        result := result + ([PERCENT] + Format(high, data[i]));
      }
    }
    assert data[..|data|] == data;
  }

  lemma {:induction false} OrdinaryIsKept(traits: Traits, high: HighFormat, s: seq<byte>)
    requires forall i | 0 <= i < |s| :: Ordinary(traits, s[i])
    ensures Escape(traits, high, s) == s
    decreases |s|
  {
    if |s| > 0 {
      OrdinaryIsKept(traits, high, s[1..]);
    }
  }

  lemma {:induction false} EscapeSnoc(traits: Traits, high: HighFormat, s: seq<byte>, c: byte)
    ensures Escape(traits, high, s + [c]) == Escape(traits, high, s) + EscapeOne(traits, high, c)
    decreases |s|
  {
    var one := EscapeOne(traits, high, c);
    if |s| == 0 {
      assert (s + [c])[1..] == [];
      assert one + [] == one == [] + one;
    } else {
      EscapeSnoc(traits, high, s[1..], c);
      assert (s + [c])[1..] == s[1..] + [c];
      Associative(EscapeOne(traits, high, s[0]), Escape(traits, high, s[1..]), one);
    }
  }

  /** An unescaped plus sign is read as a space; only traits that leave it unescaped are affected. */
  function ReadBack(traits: Traits, c: byte): byte {
    if Ordinary(traits, c) && c == PLUS then SPACE else c
  }

  function ReadBackAll(traits: Traits, s: seq<byte>): (r: seq<byte>)
    ensures |r| == |s| && forall i | 0 <= i < |s| :: r[i] == ReadBack(traits, s[i])
  {
    seq(|s|, i requires 0 <= i < |s| => ReadBack(traits, s[i]))
  }

  /** All that is needed of the UTF-8 check here: a character below 0x80 is a symbol of its own. */
  ghost predicate TakesAscii(feed: Feed) {
    forall c: byte | c < 0x80 :: feed(FRESH, c) == Checker(c, 0, Valid)
  }

  lemma ReadOne(feed: Feed, traits: Traits, high: HighFormat, c: byte, tail: seq<byte>)
    requires c < 0x80 && TakesAscii(feed)
    ensures Unescape(feed, traits, EscapeOne(traits, high, c) + tail, FRESH)
         == Cons(ReadBack(traits, c), Unescape(feed, traits, tail, FRESH))
  {
    TwoDigits(c);
    var one := EscapeOne(traits, high, c);
    assert (one + tail)[|one|..] == tail;
    assert StepAt(feed, traits, one + tail, 0, FRESH) == Emit(ReadBack(traits, c), |one|, FRESH);
  }

  lemma ReadBackCons(traits: Traits, s: seq<byte>)
    requires |s| > 0
    ensures Decoded(ReadBackAll(traits, s)) == Cons(ReadBack(traits, s[0]), Decoded(ReadBackAll(traits, s[1..])))
  {
    assert ReadBackAll(traits, s) == [ReadBack(traits, s[0])] + ReadBackAll(traits, s[1..]);
  }

  lemma {:induction false} AsciiReadsBack(feed: Feed, traits: Traits, high: HighFormat, s: seq<byte>)
    requires IsAscii(s) && TakesAscii(feed)
    ensures Unescape(feed, traits, Escape(traits, high, s), FRESH) == Decoded(ReadBackAll(traits, s))
    decreases |s|
  {
    if |s| == 0 {
      assert ReadBackAll(traits, s) == [];
    } else {
      ReadOne(feed, traits, high, s[0], Escape(traits, high, s[1..]));
      AsciiReadsBack(feed, traits, high, s[1..]);
      ReadBackCons(traits, s);
    }
  }

  // --- all bytes ---

  /** Where `char` is unsigned, two digits are written. */
  ghost predicate WritesTwoDigits(high: HighFormat) {
    forall c: byte | c >= 0x80 :: high(c) == [HexDigit(c / 16), HexDigit(c % 16)]
  }

  /** Where `char` is signed, the number is negative, and its sign is written first. */
  ghost predicate WritesASign(high: HighFormat) {
    forall c: byte | c >= 0x80 :: |high(c)| > 0 && !IsHexDigit(high(c)[0])
  }

  /** The checker, reset after each symbol, takes all of the text and ends between symbols. */
  ghost predicate Takes(feed: Feed, c: Checker, s: seq<byte>)
    decreases |s|
  {
    if |s| == 0 then c.rest == 0
    else feed(c, s[0]).Accepting() && Takes(feed, Continue(feed(c, s[0])), s[1..])
  }

  lemma TwoDigits(c: byte)
    ensures var hi, lo := HexDigit(c / 16), HexDigit(c % 16);
            IsHexDigit(hi) && IsHexDigit(lo) && EscapedChar(hi, lo) == c
  {
  }

  lemma ReadEscaped(feed: Feed, traits: Traits, b: byte, tail: seq<byte>, c: Checker)
    ensures var next := feed(c, b);
            var text := [PERCENT, HexDigit(b / 16), HexDigit(b % 16)] + tail;
            var r := Unescape(feed, traits, text, c);
            if !next.Accepting() then r.Failed?
            else r == Cons(b, Unescape(feed, traits, tail, Continue(next)))
  {
    TwoDigits(b);
    assert ([PERCENT, HexDigit(b / 16), HexDigit(b % 16)] + tail)[3..] == tail;
  }

  lemma ReadOrdinary(feed: Feed, traits: Traits, b: byte, tail: seq<byte>, c: Checker)
    requires Ordinary(traits, b)
    ensures var r := Unescape(feed, traits, [b] + tail, c);
            if c.rest > 0 then r.Failed?
            else r == Cons(ReadBack(traits, b), Unescape(feed, traits, tail, c))
  {
    assert ([b] + tail)[1..] == tail;
  }

  lemma OrdinaryIsAscii(feed: Feed, traits: Traits, b: byte, c: Checker)
    requires Sound(feed) && TakesAscii(feed) && Between(c) && Ordinary(traits, b)
    ensures b < 0x80 && if c.rest > 0 then !feed(c, b).Accepting()
                        else feed(c, b).Accepting() && Continue(feed(c, b)) == c
  {
  }

  lemma ReadByte(feed: Feed, traits: Traits, high: HighFormat, b: byte, tail: seq<byte>, c: Checker)
    requires Sound(feed) && TakesAscii(feed) && WritesTwoDigits(high) && Between(c)
    ensures var next := feed(c, b);
            var r := Unescape(feed, traits, EscapeOne(traits, high, b) + tail, c);
            if !next.Accepting() then r.Failed?
            else r == Cons(ReadBack(traits, b), Unescape(feed, traits, tail, Continue(next)))
  {
    if Ordinary(traits, b) {
      OrdinaryIsAscii(feed, traits, b, c);
      ReadOrdinary(feed, traits, b, tail, c);
    } else {
      ReadEscaped(feed, traits, b, tail, c);
      assert EscapeOne(traits, high, b) == [PERCENT, HexDigit(b / 16), HexDigit(b % 16)];
    }
  }

  lemma {:induction false} UnescapeBytes(feed: Feed, traits: Traits, high: HighFormat, s: seq<byte>, c: Checker)
    requires Sound(feed) && TakesAscii(feed) && WritesTwoDigits(high) && Between(c)
    ensures var r := Unescape(feed, traits, Escape(traits, high, s), c);
            if Takes(feed, c, s) then r == Decoded(ReadBackAll(traits, s)) else r.Failed?
    decreases |s|
  {
    if |s| == 0 {
      assert ReadBackAll(traits, s) == [];
    } else {
      ReadByte(feed, traits, high, s[0], Escape(traits, high, s[1..]), c);
      if feed(c, s[0]).Accepting() {
        UnescapeBytes(feed, traits, high, s[1..], Continue(feed(c, s[0])));
        ReadBackCons(traits, s);
      }
    }
  }

  /** Checkers that only differ in the symbol they finished last. */
  predicate Alike(c: Checker, d: Checker) {
    c == d || (c.Ready() && d.Ready())
  }

  lemma StaysAlike(c: Checker, d: Checker, b: byte)
    requires Between(c) && Alike(c, d)
    ensures var next := Process(c, b);
            next == Process(d, b) && (next.Accepting() ==> Between(Continue(next)) && Alike(Continue(next), next))
  {
    if Process(c, b).Accepting() {
      CheckIsSound();
      assert CHECK(c, b) == Process(c, b);
    }
  }

  /** The reset between symbols changes nothing. */
  lemma {:induction false} TakesWhole(c: Checker, d: Checker, s: seq<byte>)
    requires Between(c) && Alike(c, d)
    ensures Takes(CHECK, c, s) <==> Utf8.Feed(d, s).Some? && Utf8.Feed(d, s).value.rest == 0
    decreases |s|
  {
    if |s| > 0 {
      StaysAlike(c, d, s[0]);
      assert CHECK(c, s[0]) == Process(c, s[0]);
      if Process(c, s[0]).Accepting() {
        TakesWhole(Continue(Process(c, s[0])), Process(c, s[0]), s[1..]);
      }
    }
  }

  lemma {:induction false} SignIsRefused(traits: Traits, high: HighFormat, s: seq<byte>)
    requires WritesASign(high) && !IsAscii(s)
    ensures Unescape(CHECK, traits, Escape(traits, high, s), FRESH).Failed?
    decreases |s|
  {
    var tail := Escape(traits, high, s[1..]);
    if s[0] < 0x80 {
      CheckTakesAscii();
      ReadOne(CHECK, traits, high, s[0], tail);
      SignIsRefused(traits, high, s[1..]);
    } else {
      var text := EscapeOne(traits, high, s[0]) + tail;
      assert text[0] == PERCENT && text[1] == high(s[0])[0];
    }
  }

  /** What can be read back after escaping: where `char` is unsigned, the UTF-8 encoding of some scalar
      values; where it is signed, texts with no character from 0x80 up. */
  ghost predicate Readable(high: HighFormat, s: seq<byte>) {
    if WritesTwoDigits(high) then exists vs: seq<nat> :: AllScalars(vs) && s == EncodeAll(vs) else IsAscii(s)
  }

  lemma {:induction false} UnescapeReadsBack(traits: Traits, high: HighFormat, s: seq<byte>)
    requires WritesTwoDigits(high) || WritesASign(high)
    ensures var r := Unescape(CHECK, traits, Escape(traits, high, s), FRESH);
            if Readable(high, s) then r == Decoded(ReadBackAll(traits, s)) else r.Failed?
  {
    CheckTakesAscii();
    if WritesTwoDigits(high) {
      CheckIsSound();
      UnescapeBytes(CHECK, traits, high, s, FRESH);
      TakesWhole(FRESH, FRESH, s);
      AcceptsExactlyUtf8(s);
    } else if IsAscii(s) {
      AsciiReadsBack(CHECK, traits, high, s);
    } else {
      SignIsRefused(traits, high, s);
    }
  }

  lemma {:induction false} AsciiIsReadable(high: HighFormat, s: seq<byte>)
    requires (WritesTwoDigits(high) || WritesASign(high)) && IsAscii(s)
    ensures Readable(high, s)
  {
    CheckTakesAscii();
    AsciiReadsBack(CHECK, Default, high, s);
    UnescapeReadsBack(Default, high, s);
  }

  /** Unescaping undoes escaping, for all bytes, exactly when no plus sign is left unescaped and the text
      is readable. */
  lemma {:induction false} UnescapeUndoesEscape(traits: Traits, high: HighFormat, s: seq<byte>)
    requires WritesTwoDigits(high) || WritesASign(high)
    ensures Unescape(CHECK, traits, Escape(traits, high, s), FRESH) == Decoded(s)
       <==> Readable(high, s) && !(traits.Relaxed? && PLUS in s)
  {
    ReadsBackTheSame(traits, s);
    UnescapeReadsBack(traits, high, s);
  }

  /** The relaxed traits leave '+' as it is, and reading makes it a space. */
  lemma {:induction false} RelaxedPlusBecomesSpace(high: HighFormat)
    ensures Unescape(CHECK, Relaxed, Escape(Relaxed, high, [PLUS]), FRESH) == Decoded([SPACE])
  {
    CheckTakesAscii();
    AsciiReadsBack(CHECK, Relaxed, high, [PLUS]);
    assert ReadBackAll(Relaxed, [PLUS]) == [SPACE];
  }

  lemma CheckTakesAscii()
    ensures TakesAscii(CHECK)
  {
  }

  lemma ReadsBackTheSame(traits: Traits, s: seq<byte>)
    ensures ReadBackAll(traits, s) == s <==> !(traits.Relaxed? && PLUS in s)
  {
    if traits.Relaxed? && PLUS in s {
      var i :| 0 <= i < |s| && s[i] == PLUS;
      assert ReadBackAll(traits, s)[i] == SPACE;
    } else {
      assert ReadBackAll(traits, s) == s;
    }
  }
}
