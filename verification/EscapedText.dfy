/** The reference for percent-encoded text: what it means, which texts are well escaped, and what their
    normal form is, said without a decoder's state. */
module EscapedText {
  import opened Bytes
  import opened Utf8
  import opened PercentEncoding
  import opened PercentEscaping
  import opened UriNormalization

  // --- characters by name ---

  /** Section 2.3 of RFC 3986. */
  predicate NamedUnreserved(c: char) {
    'A' <= c <= 'Z' || 'a' <= c <= 'z' || '0' <= c <= '9' || c in "-._~"
  }

  /** What may stand unescaped: the unreserved characters; the characters of the
      x-www-form-urlencoded format; what the JavaScript function encodeURIComponent leaves alone; all
      characters that a URI has (sections 2.2 and 2.3 of RFC 3986), the space and the zero character. */
  predicate NamedOrdinary(traits: Traits, c: char) {
    match traits
    case Default => NamedUnreserved(c)
    case FormUrlencoded => (NamedUnreserved(c) && c != '~') || c == '*'
    case JavaScript => NamedUnreserved(c) || c in "!*'()"
    case Relaxed => NamedUnreserved(c) || c in ":/?#[]@" || c in "!$&'()*+,;=" || c == ' ' || c == '\0'
  }

  lemma OrdinaryByName(traits: Traits, b: byte)
    ensures Ordinary(traits, b) <==> NamedOrdinary(traits, b as char)
    ensures IsUnreserved(b) <==> NamedUnreserved(b as char)
  {
  }

  const UPPER_DIGITS := "0123456789ABCDEF"
  const LOWER_DIGITS := "0123456789abcdef"

  /** Upper and lower case are read; upper case is written. */
  lemma DigitsByName(b: byte, d: nat)
    requires d < 16
    ensures IsHexDigit(b) && HexValue(b) == d <==> b as char in [UPPER_DIGITS[d], LOWER_DIGITS[d]]
    ensures HexDigit(d) as char == UPPER_DIGITS[d]
  {
  }

  // --- the reference ---

  predicate StartsEscape(s: seq<byte>) {
    |s| >= 3 && s[0] as char == '%' && IsHexDigit(s[1]) && IsHexDigit(s[2])
  }

  /** The byte that the escape in front stands for. */
  function EscapedByte(s: seq<byte>): byte
    requires StartsEscape(s)
  {
    16 * HexValue(s[1]) + HexValue(s[2])
  }

  /** The bytes that a text stands for. */
  function Meaning(s: seq<byte>): seq<byte>
    decreases |s|
  {
    if |s| == 0 then []
    else if StartsEscape(s) then [EscapedByte(s)] + Meaning(s[3..])
    else [if s[0] as char == '+' then ' ' as byte else s[0]] + Meaning(s[1..])
  }

  /** Every unescaped character may stand so. */
  predicate AllPlain(traits: Traits, s: seq<byte>)
    decreases |s|
  {
    if |s| == 0 then true
    else if StartsEscape(s) then AllPlain(traits, s[3..])
    else (s[0] as char == '+' || NamedOrdinary(traits, s[0] as char)) && AllPlain(traits, s[1..])
  }

  /** The escapes of unreserved characters are written out, and nothing else is changed. */
  function Simplified(s: seq<byte>): seq<byte>
    decreases |s|
  {
    if |s| == 0 then []
    else if StartsEscape(s) then
      (if NamedUnreserved(EscapedByte(s) as char) then [EscapedByte(s)] else s[..3]) + Simplified(s[3..])
    else [s[0]] + Simplified(s[1..])
  }

  ghost predicate IsUtf8(s: seq<byte>) {
    exists vs: seq<nat> :: AllScalars(vs) && s == EncodeAll(vs)
  }

  /** Every percent sign starts an escape, and every run of escapes, `run` being the one that goes on,
      stands for well-formed UTF-8. */
  ghost predicate WellEscaped(s: seq<byte>, run: seq<byte>)
    decreases |s|
  {
    if |s| == 0 then IsUtf8(run)
    else if s[0] as char == '%' then StartsEscape(s) && WellEscaped(s[3..], run + [EscapedByte(s)])
    else IsUtf8(run) && WellEscaped(s[1..], [])
  }

  // --- the state of the decoder, as the run that it has read ---

  /** The checker after some bytes, reset after each symbol. */
  function After(feed: Feed, c: Checker, s: seq<byte>): Option<Checker>
    decreases |s|
  {
    if |s| == 0 then Some(c)
    else if feed(c, s[0]).Accepting() then After(feed, Continue(feed(c, s[0])), s[1..])
    else None
  }

  lemma {:induction false} TakesIsAfter(feed: Feed, c: Checker, s: seq<byte>)
    ensures Takes(feed, c, s) <==> After(feed, c, s).Some? && After(feed, c, s).value.rest == 0
    decreases |s|
  {
    if |s| > 0 && feed(c, s[0]).Accepting() {
      TakesIsAfter(feed, Continue(feed(c, s[0])), s[1..]);
    }
  }

  lemma {:induction false} AfterOneMore(feed: Feed, c: Checker, s: seq<byte>, b: byte)
    ensures After(feed, c, s + [b])
         == match After(feed, c, s)
            case None => None
            case Some(d) => if feed(d, b).Accepting() then Some(Continue(feed(d, b))) else None
    decreases |s|
  {
    if |s| == 0 {
      assert (s + [b])[1..] == [];
    } else {
      assert (s + [b])[1..] == s[1..] + [b];
      AfterOneMore(feed, Continue(feed(c, s[0])), s[1..], b);
    }
  }

  /** `WellEscaped` with any check in the place of UTF-8. */
  ghost predicate WellChecked(feed: Feed, s: seq<byte>, run: seq<byte>)
    decreases |s|
  {
    if |s| == 0 then Takes(feed, FRESH, run)
    else if s[0] as char == '%' then StartsEscape(s) && WellChecked(feed, s[3..], run + [EscapedByte(s)])
    else Takes(feed, FRESH, run) && WellChecked(feed, s[1..], [])
  }

  lemma TakesIsUtf8(s: seq<byte>)
    ensures Takes(CHECK, FRESH, s) <==> IsUtf8(s)
  {
    TakesWhole(FRESH, FRESH, s);
    AcceptsExactlyUtf8(s);
  }

  lemma {:induction false} CheckedIsEscaped(s: seq<byte>, run: seq<byte>)
    ensures WellChecked(CHECK, s, run) <==> WellEscaped(s, run)
    decreases |s|
  {
    TakesIsUtf8(run);
    if |s| > 0 {
      if s[0] as char != '%' {
        CheckedIsEscaped(s[1..], []);
      } else if StartsEscape(s) {
        CheckedIsEscaped(s[3..], run + [EscapedByte(s)]);
      }
    }
  }

  /** A refused run stays refused. */
  lemma {:induction false} RefusedStaysRefused(feed: Feed, s: seq<byte>, run: seq<byte>)
    requires After(feed, FRESH, run).None?
    ensures !WellChecked(feed, s, run)
    decreases |s|
  {
    TakesIsAfter(feed, FRESH, run);
    if StartsEscape(s) {
      AfterOneMore(feed, FRESH, run, EscapedByte(s));
      RefusedStaysRefused(feed, s[3..], run + [EscapedByte(s)]);
    }
  }

  // --- normalization ---

  /** One escape of a text: it is written out exactly when it stands for an unreserved character. */
  lemma {:induction false} EscapeRound(feed: Feed, s: seq<byte>, d: nat, c: Checker)
    requires Sound(feed) && Between(c) && d < |s| && StartsEscape(s[d..])
    ensures var b := EscapedByte(s[d..]);
            NextRound(feed, s, d, c)
            == if !feed(c, b).Accepting() then Throw(InvalidSequence)
               else Out(if NamedUnreserved(b as char) then [b] else s[d..][..3], 3, Continue(feed(c, b)))
  {
    var t := s[d..];
    assert t[0] == s[d] && t[1] == s[d + 1] && t[2] == s[d + 2];
    var b := EscapedByte(t);
    assert b == EscapedChar(s[d + 1], s[d + 2]);
    var next := feed(c, b);
    if next.Accepting() {
      OrdinaryByName(Default, b);
      assert s[d..][..3] == [s[d], s[d + 1], s[d + 2]];
    }
  }

  lemma {:induction false} PlainRound(feed: Feed, s: seq<byte>, d: nat, c: Checker)
    requires d < |s| && !StartsEscape(s[d..])
    ensures NextRound(feed, s, d, c)
         == if s[d] as char == '%' then Throw(InvalidEscape)
            else if c.rest > 0 then Throw(NextByteExpected)
            else Out([s[d]], 1, c)
  {
    if d + 3 <= |s| {
      assert s[d..][0] == s[d] && s[d..][1] == s[d + 1] && s[d..][2] == s[d + 2];
    }
  }

  /** What normalizing the rest of a text gives, in words of the reference. */
  ghost predicate NormalizesAs(r: Decoding, feed: Feed, s: seq<byte>, run: seq<byte>) {
    if WellChecked(feed, s, run) then r == Decoded(Simplified(s)) else r.Failed?
  }

  lemma {:induction false} NormalizeEscape(feed: Feed, s: seq<byte>, run: seq<byte>, c: Checker, rest: Decoding)
    requires StartsEscape(s) && Between(c) && After(feed, FRESH, run) == Some(c)
    requires feed(c, EscapedByte(s)).Accepting() ==> NormalizesAs(rest, feed, s[3..], run + [EscapedByte(s)])
    ensures var b := EscapedByte(s);
            if feed(c, b).Accepting()
            then NormalizesAs(Join(if NamedUnreserved(b as char) then [b] else s[..3], rest), feed, s, run)
            else !WellChecked(feed, s, run)
  {
    var b := EscapedByte(s);
    AfterOneMore(feed, FRESH, run, b);
    if !feed(c, b).Accepting() {
      RefusedStaysRefused(feed, s[3..], run + [b]);
    }
  }

  lemma {:induction false} NormalizeFrom(feed: Feed, s: seq<byte>, d: nat, run: seq<byte>, c: Checker)
    requires Sound(feed) && Between(c) && d <= |s| && After(feed, FRESH, run) == Some(c)
    ensures NormalizesAs(Normalize(feed, s, d, c), feed, s[d..], run)
    decreases |s| - d
  {
    TakesIsAfter(feed, FRESH, run);
    if d < |s| {
      var t := s[d..];
      if StartsEscape(t) {
        var b := EscapedByte(t);
        EscapeRound(feed, s, d, c);
        AfterOneMore(feed, FRESH, run, b);
        assert t[3..] == s[d + 3..];
        if feed(c, b).Accepting() {
          NormalizeFrom(feed, s, d + 3, run + [b], Continue(feed(c, b)));
        }
        NormalizeEscape(feed, t, run, c, Normalize(feed, s, d + 3, Continue(feed(c, b))));
      } else {
        PlainRound(feed, s, d, c);
        assert t[1..] == s[d + 1..] && t[0] == s[d];
        if s[d] as char != '%' && c.rest == 0 {
          NormalizeFrom(feed, s, d + 1, [], c);
        }
      }
    }
  }

  /** For every text: it is normalized exactly when it is well escaped, and then the escapes of unreserved
      characters are written out and nothing else is changed. */
  lemma {:induction false} NormalizationIsExact(s: seq<byte>)
    ensures var r := Normalize(CHECK, s, 0, FRESH);
            if WellEscaped(s, []) then r == Decoded(Simplified(s)) else r.Failed?
  {
    CheckIsSound();
    NormalizeFrom(CHECK, s, 0, [], FRESH);
    CheckedIsEscaped(s, []);
    assert s[0..] == s;
  }

  /** Is some unreserved character escaped? */
  predicate EscapesUnreserved(s: seq<byte>)
    decreases |s|
  {
    if |s| == 0 then false
    else if StartsEscape(s) then NamedUnreserved(EscapedByte(s) as char) || EscapesUnreserved(s[3..])
    else EscapesUnreserved(s[1..])
  }

  /** Section 6.2.2.2 of RFC 3986: in a normal form no unreserved character is escaped. */
  lemma {:induction false} NothingIsLeftToNormalize(s: seq<byte>, run: seq<byte>)
    requires WellEscaped(s, run)
    ensures !EscapesUnreserved(Simplified(s))
    decreases |s|
  {
    if |s| > 0 {
      if StartsEscape(s) {
        NothingIsLeftToNormalize(s[3..], run + [EscapedByte(s)]);
        FrontIsNormal(s, Simplified(s[3..]));
      } else {
        NothingIsLeftToNormalize(s[1..], []);
        assert Simplified(s)[1..] == Simplified(s[1..]);
      }
    }
  }

  lemma FrontIsNormal(s: seq<byte>, rest: seq<byte>)
    requires StartsEscape(s) && !EscapesUnreserved(rest)
    ensures !EscapesUnreserved((if NamedUnreserved(EscapedByte(s) as char) then [EscapedByte(s)] else s[..3]) + rest)
  {
    if NamedUnreserved(EscapedByte(s) as char) {
      assert ([EscapedByte(s)] + rest)[1..] == rest;
    } else {
      var text := s[..3] + rest;
      assert text[3..] == rest && text[0] == s[0] && text[1] == s[1] && text[2] == s[2];
    }
  }

  // --- unescaping ---

  ghost predicate UnescapesAs(r: Decoding, feed: Feed, traits: Traits, s: seq<byte>, run: seq<byte>) {
    if WellChecked(feed, s, run) && AllPlain(traits, s) then r == Decoded(Meaning(s)) else r.Failed?
  }

  lemma {:induction false} UnescapeStep(feed: Feed, traits: Traits, s: seq<byte>, c: Checker)
    requires |s| > 0
    ensures Unescape(feed, traits, s, c)
         == if StartsEscape(s) then
              var b := EscapedByte(s);
              if feed(c, b).Accepting() then Cons(b, Unescape(feed, traits, s[3..], Continue(feed(c, b))))
              else Failed(InvalidSequence, |s|)
            else if s[0] as char == '%' then Failed(InvalidEscape, |s|)
            else if c.rest > 0 then Failed(NextByteExpected, |s|)
            else if s[0] as char == '+' then Cons(' ' as byte, Unescape(feed, traits, s[1..], c))
            else if NamedOrdinary(traits, s[0] as char) then Cons(s[0], Unescape(feed, traits, s[1..], c))
            else Failed(InvalidChar, |s|)
  {
    OrdinaryByName(traits, s[0]);
    if StartsEscape(s) {
      assert EscapedByte(s) == EscapedChar(s[1], s[2]);
    }
  }

  lemma {:induction false} UnescapeFrom(feed: Feed, traits: Traits, s: seq<byte>, run: seq<byte>, c: Checker)
    requires Sound(feed) && Between(c) && After(feed, FRESH, run) == Some(c)
    ensures UnescapesAs(Unescape(feed, traits, s, c), feed, traits, s, run)
    decreases |s|
  {
    TakesIsAfter(feed, FRESH, run);
    if |s| > 0 {
      UnescapeStep(feed, traits, s, c);
      if StartsEscape(s) {
        var b := EscapedByte(s);
        AfterOneMore(feed, FRESH, run, b);
        if feed(c, b).Accepting() {
          UnescapeFrom(feed, traits, s[3..], run + [b], Continue(feed(c, b)));
        } else {
          RefusedStaysRefused(feed, s[3..], run + [b]);
        }
      } else if s[0] as char != '%' && c.rest == 0 {
        UnescapeFrom(feed, traits, s[1..], [], c);
      }
    }
  }

  /** For every text and all traits: it is unescaped exactly when it is well escaped and every unescaped
      character may stand so, and then to the bytes that it stands for. */
  lemma {:induction false} UnescapingIsExact(traits: Traits, s: seq<byte>)
    ensures var r := Unescape(CHECK, traits, s, FRESH);
            if WellEscaped(s, []) && AllPlain(traits, s) then r == Decoded(Meaning(s)) else r.Failed?
  {
    CheckIsSound();
    UnescapeFrom(CHECK, traits, s, [], FRESH);
    CheckedIsEscaped(s, []);
  }

  /** Where no plain character is refused, normalizing fails where unescaping fails, for the same reason. */
  lemma {:induction false} FailuresAgree(feed: Feed, traits: Traits, s: seq<byte>, d: nat, c: Checker)
    requires Sound(feed) && Between(c) && d <= |s| && AllPlain(traits, s[d..])
    ensures var n, u := Normalize(feed, s, d, c), Unescape(feed, traits, s[d..], c);
            n.Failed? || u.Failed? ==> n == u
    ensures d == |s| && c.rest > 0 ==> Normalize(feed, s, d, c) == Failed(Unfinished, 0)
    decreases |s| - d
  {
    if d < |s| {
      var t := s[d..];
      assert t[0] == s[d];
      UnescapeStep(feed, traits, t, c);
      if StartsEscape(t) {
        EscapeRound(feed, s, d, c);
        assert t[3..] == s[d + 3..];
        if feed(c, EscapedByte(t)).Accepting() {
          FailuresAgree(feed, traits, s, d + 3, Continue(feed(c, EscapedByte(t))));
        }
      } else {
        PlainRound(feed, s, d, c);
        assert t[1..] == s[d + 1..];
        if s[d] as char != '%' && c.rest == 0 {
          FailuresAgree(feed, traits, s, d + 1, c);
        }
      }
    }
  }
}
