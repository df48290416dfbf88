/** Printing a list of keys and values as a query string, and reading it back. */
module QueryPrinting {
  import opened Bytes
  import opened PercentEncoding
  import opened PercentEscaping
  import opened QueryString

  type Pair = (seq<byte>, seq<byte>)

  predicate AsciiPairs(pairs: seq<Pair>) {
    forall i | 0 <= i < |pairs| :: IsAscii(pairs[i].0) && IsAscii(pairs[i].1)
  }

  /** What may stand between two pairs: '&', and for the default and the JavaScript traits also ';'. */
  predicate MaySeparate(traits: Traits, c: byte) {
    c == 0x26 || (c == 0x3B && traits in {Default, JavaScript})
  }

  lemma SeparatorsAreThese(traits: Traits, c: byte)
    ensures IsSeparator(traits, c) <==> MaySeparate(traits, c)
  {
  }

  ghost predicate AllSeparate(traits: Traits, seps: seq<byte>) {
    forall i | 0 <= i < |seps| :: MaySeparate(traits, seps[i])
  }

  /** `key=value` items, escaped, each but the first with its separator in front, and then `tail`. */
  function Print(traits: Traits, high: HighFormat, seps: seq<byte>, pairs: seq<Pair>, tail: seq<byte>): seq<byte>
    requires |seps| == |pairs|
    decreases |pairs|, 0
  {
    if |pairs| == 0 then tail
    else
      Escape(traits, high, pairs[0].0)
      + ([EQUALS] + (Escape(traits, high, pairs[0].1) + PrintMore(traits, high, seps[1..], pairs[1..], tail)))
  }

  function PrintMore(traits: Traits, high: HighFormat, seps: seq<byte>, pairs: seq<Pair>, tail: seq<byte>): seq<byte>
    requires |seps| == |pairs|
    decreases |pairs|, 1
  {
    if |pairs| == 0 then tail else [seps[0]] + Print(traits, high, seps, pairs, tail)
  }

  /** The text is empty or starts with a separator. */
  predicate Separated(traits: Traits, text: seq<byte>) {
    |text| == 0 || IsSeparator(traits, text[0])
  }

  /** The byte ends a text that `c` delimits. */
  predicate Ends(traits: Traits, c: byte, b: byte) {
    b == c || (c == AMPERSAND && IsSeparator(traits, b))
  }

  /** What is asked of a text: it can be read back, and under the relaxed traits, which leave its delimiter
      and '+' unescaped, it has none of them. */
  ghost predicate TextSurvives(traits: Traits, high: HighFormat, text: seq<byte>, delimiter: byte) {
    Readable(high, text) && (traits.Relaxed? ==> delimiter !in text && PLUS !in text)
  }

  ghost predicate Survives(traits: Traits, high: HighFormat, pair: Pair) {
    TextSurvives(traits, high, pair.0, EQUALS) && TextSurvives(traits, high, pair.1, AMPERSAND)
  }

  ghost predicate AllSurvive(traits: Traits, high: HighFormat, pairs: seq<Pair>) {
    forall i | 0 <= i < |pairs| :: Survives(traits, high, pairs[i])
  }

  /** The part of the text before the first `c`. */
  function UpTo(text: seq<byte>, c: byte): (r: seq<byte>)
    ensures r <= text && c !in r
    ensures |r| < |text| ==> text[|r|] == c
    ensures r == text <==> c !in text
    decreases |text|
  {
    if |text| == 0 || text[0] == c then [] else [text[0]] + UpTo(text[1..], c)
  }

  /** The part of a text that the parser takes: an unescaped delimiter ends it early. */
  function Taken(traits: Traits, text: seq<byte>, delimiter: byte): (r: seq<byte>)
    ensures r <= text
  {
    if traits.Relaxed? then UpTo(text, delimiter) else text
  }

  /** The format of characters from 0x80 up adds no delimiter. */
  ghost predicate NoDelimiters(high: HighFormat) {
    forall c: byte | c >= 0x80 :: EQUALS !in high(c) && AMPERSAND !in high(c) && SEMICOLON !in high(c)
  }

  /** Escaping adds no delimiter of its own. */
  lemma {:induction false} NoNewDelimiter(traits: Traits, high: HighFormat, s: seq<byte>, c: byte)
    requires NoDelimiters(high) && c in {EQUALS, AMPERSAND, SEMICOLON}
    requires c in s ==> !Ordinary(traits, c)
    ensures c !in Escape(traits, high, s)
    decreases |s|
  {
    if |s| > 0 {
      NoNewDelimiter(traits, high, s[1..], c);
      assert c !in EscapeOne(traits, high, s[0]);
    }
  }

  lemma {:induction false} EscapeConcatSnoc(traits: Traits, high: HighFormat, a: seq<byte>, b: seq<byte>,
      ab: seq<byte>, c: byte)
    requires Escape(traits, high, ab) == Escape(traits, high, a) + Escape(traits, high, b)
    ensures Escape(traits, high, ab + [c]) == Escape(traits, high, a) + Escape(traits, high, b + [c])
  {
    EscapeSnoc(traits, high, b, c);
    EscapeSnoc(traits, high, ab, c);
    Associative(Escape(traits, high, a), Escape(traits, high, b), EscapeOne(traits, high, c));
  }

  lemma LastApart(a: seq<byte>, b: seq<byte>)
    requires |b| > 0
    ensures b == b[..|b| - 1] + [b[|b| - 1]] && a + b == (a + b[..|b| - 1]) + [b[|b| - 1]]
  {
  }

  lemma {:induction false} EscapeConcat(traits: Traits, high: HighFormat, a: seq<byte>, b: seq<byte>)
    ensures Escape(traits, high, a + b) == Escape(traits, high, a) + Escape(traits, high, b)
    decreases |b|
  {
    if |b| == 0 {
      assert a + b == a;
    } else {
      var front, last := b[..|b| - 1], b[|b| - 1];
      EscapeConcat(traits, high, a, front);
      EscapeConcatSnoc(traits, high, a, front, a + front, last);
      LastApart(a, b);
    }
  }

  lemma {:induction false} CutEarly(traits: Traits, high: HighFormat, text: seq<byte>, c: byte)
    returns (more: seq<byte>)
    requires NoDelimiters(high) && c in {EQUALS, AMPERSAND} && Taken(traits, text, c) != text
    ensures Escape(traits, high, text) == Escape(traits, high, Taken(traits, text, c)) + ([c] + more)
  {
    var t := Taken(traits, text, c);
    var rest := text[|t|..];
    assert text == t + rest;
    EscapeConcat(traits, high, t, rest);
    more := Escape(traits, high, rest[1..]);
    assert EscapeOne(traits, high, rest[0]) == [c];
  }

  /** An escaped text followed by its delimiter begins with its taken part and the delimiter. */
  lemma {:induction false} TakenComesFirst(traits: Traits, high: HighFormat, text: seq<byte>, c: byte, tail: seq<byte>)
    returns (more: seq<byte>)
    requires NoDelimiters(high) && c in {EQUALS, AMPERSAND}
    requires |tail| == 0 || Ends(traits, c, tail[0])
    ensures var t := Taken(traits, text, c);
            && Escape(traits, high, text) + tail == Escape(traits, high, t) + more
            && (|more| == 0 || Ends(traits, c, more[0]))
            && (t == text ==> more == tail)
            && (|tail| > 0 ==> |more| > 0)
  {
    var t := Taken(traits, text, c);
    if t == text {
      more := tail;
    } else {
      var cut := CutEarly(traits, high, text, c);
      more := [c] + cut + tail;
      Associative(Escape(traits, high, t), [c] + cut, tail);
    }
  }

  lemma {:induction false} TakenHasNoDelimiter(traits: Traits, high: HighFormat, text: seq<byte>, c: byte)
    requires NoDelimiters(high) && c in {EQUALS, AMPERSAND}
    ensures c !in Escape(traits, high, Taken(traits, text, c))
  {
    NoNewDelimiter(traits, high, Taken(traits, text, c), c);
  }

  ghost predicate NoSeparator(traits: Traits, s: seq<byte>) {
    forall i | 0 <= i < |s| :: !IsSeparator(traits, s[i])
  }

  lemma TakenHasNoSeparator(traits: Traits, high: HighFormat, text: seq<byte>)
    requires NoDelimiters(high)
    ensures NoSeparator(traits, Escape(traits, high, Taken(traits, text, AMPERSAND)))
  {
    TakenHasNoDelimiter(traits, high, text, AMPERSAND);
    if !traits.Relaxed? {
      NoNewDelimiter(traits, high, Taken(traits, text, AMPERSAND), SEMICOLON);
    }
  }

  // --- finding the pieces ---

  lemma {:induction false} EqualsFound(s: seq<byte>, from: nat, at: nat)
    requires from <= at < |s| && s[at] == EQUALS
    requires forall i | from <= i < at :: s[i] != EQUALS
    ensures FindEquals(s, from) == at
    decreases at - from
  {
    if from < at {
      EqualsFound(s, from + 1, at);
    }
  }

  lemma {:induction false} SeparatorFound(traits: Traits, s: seq<byte>, from: nat, at: nat)
    requires from <= at <= |s| && (at < |s| ==> IsSeparator(traits, s[at]))
    requires forall i | from <= i < at :: !IsSeparator(traits, s[i])
    ensures FindSeparator(traits, s, from) == at
    decreases at - from
  {
    if from < at {
      SeparatorFound(traits, s, from + 1, at);
    }
  }

  /** From `from` on, `s` is `tail`. */
  predicate EndsWith(s: seq<byte>, from: nat, tail: seq<byte>) {
    from + |tail| == |s| && s[from..] == tail
  }

  lemma {:induction false} EndsWithRest(s: seq<byte>, from: nat, a: seq<byte>, b: seq<byte>)
    requires EndsWith(s, from, a + b)
    ensures s[from..from + |a|] == a && EndsWith(s, from + |a|, b)
  {
    assert s[from..from + |a|] == s[from..][..|a|];
    assert s[from + |a|..] == s[from..][|a|..];
  }

  /** The key is found at `pos` when what stands there has no '=' of its own. */
  lemma {:induction false} KeyFound(decode: Decoder, s: seq<byte>, pos: nat, key: seq<byte>, more: seq<byte>)
    returns (eq: nat)
    requires EndsWith(s, pos, key + more) && EQUALS !in key && |more| > 0 && more[0] == EQUALS
    ensures pos <= eq == FindEquals(s, pos) < |s|
    ensures Piece(decode, s, pos, eq) == decode(key) && EndsWith(s, eq, more)
  {
    eq := pos + |key|;
    EndsWithRest(s, pos, key, more);
    forall i | pos <= i < eq
      ensures s[i] != EQUALS
    {
      assert s[i] == key[i - pos];
    }
    assert s[eq] == s[eq..][0];
    EqualsFound(s, pos, eq);
  }

  lemma {:induction false} ValueFound(decode: Decoder, traits: Traits, s: seq<byte>, from: nat,
                                      value: seq<byte>, more: seq<byte>)
    returns (sep: nat)
    requires EndsWith(s, from, value + more) && NoSeparator(traits, value)
    requires Separated(traits, more)
    ensures from <= sep == FindSeparator(traits, s, from) <= |s|
    ensures Piece(decode, s, from, sep) == decode(value) && EndsWith(s, sep, more)
  {
    sep := from + |value|;
    EndsWithRest(s, from, value, more);
    forall i | from <= i < sep
      ensures !IsSeparator(traits, s[i])
    {
      assert s[i] == value[i - from];
    }
    if |more| > 0 {
      assert s[sep] == s[sep..][0];
    }
    SeparatorFound(traits, s, from, sep);
  }

  // --- reading back ---

  /** All that is needed of unescaping here. */
  ghost predicate ReadsBack(decode: Decoder, traits: Traits, high: HighFormat) {
    forall text {:trigger decode(Escape(traits, high, text))} ::
      var r := decode(Escape(traits, high, text));
      if Readable(high, text) then r == Decoded(ReadBackAll(traits, text)) else r.Failed?
  }

  lemma DecoderReadsBack(traits: Traits, high: HighFormat)
    requires WritesTwoDigits(high) || WritesASign(high)
    ensures ReadsBack(DecoderOf(traits), traits, high)
  {
    forall text
      ensures var r := DecoderOf(traits)(Escape(traits, high, text));
              if Readable(high, text) then r == Decoded(ReadBackAll(traits, text)) else r.Failed?
    {
      UnescapeReadsBack(traits, high, text);
    }
  }

  /** A piece comes back as printed exactly when the text survives. */
  lemma {:induction false} TakenReadsBack(decode: Decoder, traits: Traits, high: HighFormat, text: seq<byte>, c: byte)
    requires ReadsBack(decode, traits, high)
    ensures decode(Escape(traits, high, Taken(traits, text, c))) == Decoded(text)
       <==> TextSurvives(traits, high, text, c)
  {
    var t := Taken(traits, text, c);
    ReadsBackTheSame(traits, text);
    assert |ReadBackAll(traits, t)| == |t|;
  }

  predicate StartsWith(q: Query, pair: Pair) {
    q.Params? && |q.pairs| > 0 && q.pairs[0] == pair
  }

  lemma {:induction false} PairComesFirst(key: Decoding, value: Decoding, rest: Query, pair: Pair)
    ensures var q := WithPair(key, value, rest);
            if key == Decoded(pair.0) && value == Decoded(pair.1) then q == Prepend([pair], rest)
            else !StartsWith(q, pair)
  {
  }

  lemma {:induction false} PrependCancels(pair: Pair, q: Query, pairs: seq<Pair>)
    ensures Prepend([pair], q) == Params([pair] + pairs) <==> q == Params(pairs)
  {
    if Prepend([pair], q) == Params([pair] + pairs) {
      assert q.pairs == ([pair] + q.pairs)[1..] == ([pair] + pairs)[1..] == pairs;
    }
  }

  /** A printed text followed by its delimiter, as the parser cuts it. */
  lemma {:induction false} CutText(decode: Decoder, traits: Traits, high: HighFormat, text: seq<byte>,
                                   c: byte, tail: seq<byte>)
    returns (escaped: seq<byte>, more: seq<byte>)
    requires NoDelimiters(high) && c in {EQUALS, AMPERSAND} && ReadsBack(decode, traits, high)
    requires |tail| == 0 || Ends(traits, c, tail[0])
    ensures Escape(traits, high, text) + tail == escaped + more
    ensures c !in escaped && (c == AMPERSAND ==> NoSeparator(traits, escaped))
    ensures (|more| == 0 || Ends(traits, c, more[0])) && (|tail| > 0 ==> |more| > 0)
    ensures decode(escaped) == Decoded(text) <==> TextSurvives(traits, high, text, c)
    ensures TextSurvives(traits, high, text, c) ==> more == tail
  {
    escaped := Escape(traits, high, Taken(traits, text, c));
    more := TakenComesFirst(traits, high, text, c, tail);
    TakenHasNoDelimiter(traits, high, text, c);
    if c == AMPERSAND {
      TakenHasNoSeparator(traits, high, text);
    }
    TakenReadsBack(decode, traits, high, text, c);
  }

  /** Both pieces of a pair, from what is known of its texts; `whole` says that nothing cuts the key. */
  lemma {:induction false} PiecesFound(decode: Decoder, traits: Traits, s: seq<byte>, pos: nat, whole: bool,
                                       key: seq<byte>, moreKey: seq<byte>, value: seq<byte>, moreValue: seq<byte>)
    returns (eq: nat, sep: nat)
    requires EndsWith(s, pos, key + moreKey) && EQUALS !in key && |moreKey| > 0 && moreKey[0] == EQUALS
    requires whole ==> moreKey == [EQUALS] + (value + moreValue)
    requires NoSeparator(traits, value) && Separated(traits, moreValue)
    ensures pos <= eq == FindEquals(s, pos) < |s|
    ensures eq < sep == FindSeparator(traits, s, eq + 1) <= |s|
    ensures Piece(decode, s, pos, eq) == decode(key)
    ensures whole ==> Piece(decode, s, eq + 1, sep) == decode(value) && EndsWith(s, sep, moreValue)
  {
    eq := KeyFound(decode, s, pos, key, moreKey);
    if whole {
      EndsWithRest(s, eq, [EQUALS], value + moreValue);
      sep := ValueFound(decode, traits, s, eq + 1, value, moreValue);
    } else {
      sep := FindSeparator(traits, s, eq + 1);
    }
  }

  lemma {:induction false} ReadPieces(decode: Decoder, traits: Traits, high: HighFormat, s: seq<byte>,
      pos: nat, pair: Pair, tail: seq<byte>)
    returns (eq: nat, sep: nat)
    requires NoDelimiters(high) && ReadsBack(decode, traits, high)
    requires Separated(traits, tail)
    requires EndsWith(s, pos, Escape(traits, high, pair.0) + ([EQUALS] + (Escape(traits, high, pair.1) + tail)))
    ensures pos <= eq == FindEquals(s, pos) < |s|
    ensures eq < sep == FindSeparator(traits, s, eq + 1) <= |s|
    ensures Piece(decode, s, pos, eq) == Decoded(pair.0) <==> TextSurvives(traits, high, pair.0, EQUALS)
    ensures TextSurvives(traits, high, pair.0, EQUALS) ==>
      && (Piece(decode, s, eq + 1, sep) == Decoded(pair.1) <==> TextSurvives(traits, high, pair.1, AMPERSAND))
      && (TextSurvives(traits, high, pair.1, AMPERSAND) ==> EndsWith(s, sep, tail))
  {
    var whole := TextSurvives(traits, high, pair.0, EQUALS);
    var value, moreValue := CutText(decode, traits, high, pair.1, AMPERSAND, tail);
    var key, moreKey := CutText(decode, traits, high, pair.0, EQUALS, [EQUALS] + (value + moreValue));
    eq, sep := PiecesFound(decode, traits, s, pos, whole, key, moreKey, value, moreValue);
  }

  /** The pair printed at `pos` is read first exactly when it survives, and then its successors are next. */
  lemma {:induction false} ReadPair(decode: Decoder, traits: Traits, high: HighFormat, s: seq<byte>,
      pos: nat, pair: Pair, tail: seq<byte>)
    returns (sep: nat)
    requires NoDelimiters(high) && ReadsBack(decode, traits, high)
    requires Separated(traits, tail)
    requires EndsWith(s, pos, Escape(traits, high, pair.0) + ([EQUALS] + (Escape(traits, high, pair.1) + tail)))
    ensures var q := ParseFrom(decode, traits, s, pos);
            if Survives(traits, high, pair) then
              EndsWith(s, sep, tail) && q == Prepend([pair], ParseFrom(decode, traits, s, sep + 1))
            else
              !StartsWith(q, pair)
  {
    var eq;
    eq, sep := ReadPieces(decode, traits, high, s, pos, pair, tail);
    ParseFromPair(decode, traits, s, pos, eq, sep);
    PairComesFirst(Piece(decode, s, pos, eq), Piece(decode, s, eq + 1, sep),
                   ParseFrom(decode, traits, s, sep + 1), pair);
  }

  lemma {:induction false} FirstDecides(traits: Traits, high: HighFormat, pairs: seq<Pair>, q: Query, rest: Query)
    requires |pairs| > 0
    requires if Survives(traits, high, pairs[0])
             then
               && q == Prepend([pairs[0]], rest)
               && (rest == Params(pairs[1..]) <==> AllSurvive(traits, high, pairs[1..]))
             else !StartsWith(q, pairs[0])
    ensures q == Params(pairs) <==> AllSurvive(traits, high, pairs)
  {
    assert pairs == [pairs[0]] + pairs[1..];
    PrependCancels(pairs[0], rest, pairs[1..]);
    assert AllSurvive(traits, high, pairs)
      <==> Survives(traits, high, pairs[0]) && AllSurvive(traits, high, pairs[1..]) by {
      if Survives(traits, high, pairs[0]) && AllSurvive(traits, high, pairs[1..]) {
        forall i | 0 <= i < |pairs|
          ensures Survives(traits, high, pairs[i])
        {
          assert i > 0 ==> pairs[i] == pairs[1..][i - 1];
        }
      }
    }
  }

  lemma {:induction false} MoreIsSeparated(traits: Traits, high: HighFormat, seps: seq<byte>, pairs: seq<Pair>,
      tail: seq<byte>)
    requires |seps| == |pairs| && AllSeparate(traits, seps) && Separated(traits, tail)
    ensures Separated(traits, PrintMore(traits, high, seps, pairs, tail))
  {
    if |pairs| > 0 {
      SeparatorsAreThese(traits, seps[0]);
    }
  }

  lemma {:induction false} ReadPrinted(decode: Decoder, traits: Traits, high: HighFormat,
      s: seq<byte>, pos: nat, seps: seq<byte>, pairs: seq<Pair>)
    requires NoDelimiters(high) && ReadsBack(decode, traits, high) && |seps| == |pairs| && AllSeparate(traits, seps)
    requires EndsWith(s, pos, Print(traits, high, seps, pairs, []))
    ensures ParseFrom(decode, traits, s, pos) == Params(pairs) <==> AllSurvive(traits, high, pairs)
    decreases |pairs|, 0
  {
    if |pairs| > 0 {
      MoreIsSeparated(traits, high, seps[1..], pairs[1..], []);
      var sep := ReadPair(decode, traits, high, s, pos, pairs[0], PrintMore(traits, high, seps[1..], pairs[1..], []));
      if Survives(traits, high, pairs[0]) {
        ReadRest(decode, traits, high, s, sep, seps[1..], pairs[1..]);
      }
      FirstDecides(traits, high, pairs, ParseFrom(decode, traits, s, pos), ParseFrom(decode, traits, s, sep + 1));
    }
  }

  lemma {:induction false} ReadRest(decode: Decoder, traits: Traits, high: HighFormat,
      s: seq<byte>, sep: nat, seps: seq<byte>, pairs: seq<Pair>)
    requires NoDelimiters(high) && ReadsBack(decode, traits, high) && |seps| == |pairs| && AllSeparate(traits, seps)
    requires EndsWith(s, sep, PrintMore(traits, high, seps, pairs, []))
    ensures ParseFrom(decode, traits, s, sep + 1) == Params(pairs) <==> AllSurvive(traits, high, pairs)
    decreases |pairs|, 1
  {
    if |pairs| > 0 {
      EndsWithRest(s, sep, [seps[0]], Print(traits, high, seps, pairs, []));
      ReadPrinted(decode, traits, high, s, sep + 1, seps, pairs);
    }
  }

  lemma TwoDigitsAddNoDelimiters(high: HighFormat)
    requires WritesTwoDigits(high)
    ensures NoDelimiters(high)
  {
    forall c: byte | c >= 0x80
      ensures EQUALS !in high(c) && AMPERSAND !in high(c) && SEMICOLON !in high(c)
    {
      TwoDigits(c);
    }
  }

  ghost predicate KnownFormat(high: HighFormat) {
    WritesTwoDigits(high) || (WritesASign(high) && NoDelimiters(high))
  }

  lemma KnownFormatReadsBack(traits: Traits, high: HighFormat)
    requires KnownFormat(high)
    ensures NoDelimiters(high) && ReadsBack(DecoderOf(traits), traits, high)
  {
    if WritesTwoDigits(high) {
      TwoDigitsAddNoDelimiters(high);
    }
    DecoderReadsBack(traits, high);
  }

  /** Parsing undoes printing, for every list of byte strings and any choice of separators, exactly when
      each string can be read back and none holds a delimiter or a plus sign that its traits leave
      unescaped; so always for texts below 0x80 and all traits but the relaxed ones. */
  lemma {:induction false} ParseUndoesPrint(traits: Traits, high: HighFormat, seps: seq<byte>, pairs: seq<Pair>)
    requires KnownFormat(high) && |seps| == |pairs| && AllSeparate(traits, seps)
    ensures ParseFrom(DecoderOf(traits), traits, Print(traits, high, seps, pairs, []), 0) == Params(pairs)
       <==> AllSurvive(traits, high, pairs)
    ensures !traits.Relaxed? && AsciiPairs(pairs) ==> AllSurvive(traits, high, pairs)
  {
    KnownFormatReadsBack(traits, high);
    ReadPrinted(DecoderOf(traits), traits, high, Print(traits, high, seps, pairs, []), 0, seps, pairs);
    if AsciiPairs(pairs) {
      forall i | 0 <= i < |pairs|
        ensures Readable(high, pairs[i].0) && Readable(high, pairs[i].1)
      {
        AsciiIsReadable(high, pairs[i].0);
        AsciiIsReadable(high, pairs[i].1);
      }
    }
  }

  /** Under the relaxed traits the '&' of a value is printed as it is, and ends the value. */
  lemma {:induction false} RelaxedAmpersandIsLost(high: HighFormat)
    requires KnownFormat(high)
    ensures var pairs: seq<Pair> := [([0x61], [AMPERSAND])];
            ParseFrom(DecoderOf(Relaxed), Relaxed, Print(Relaxed, high, [AMPERSAND], pairs, []), 0) != Params(pairs)
  {
    var pairs: seq<Pair> := [([0x61], [AMPERSAND])];
    assert !Survives(Relaxed, high, pairs[0]);
    ParseUndoesPrint(Relaxed, high, [AMPERSAND], pairs);
  }

  /** One pair, whatever its pieces are: the key counts first, then the value. */
  lemma {:induction false} OnePair(decode: Decoder, traits: Traits, key: seq<byte>, value: seq<byte>)
    requires EQUALS !in key && NoSeparator(traits, value)
    ensures ParseFrom(decode, traits, key + ([EQUALS] + value), 0)
         == (match decode(key)
             case Failed(reason, left) => Bad(BadPiece(reason, left))
             case Decoded(keyText) =>
               match decode(value)
               case Failed(reason, left) => Bad(BadPiece(reason, left))
               case Decoded(valueText) => Params([(keyText, valueText)]))
  {
    var s := key + ([EQUALS] + value);
    assert EndsWith(s, 0, key + ([EQUALS] + value)) && [EQUALS] + value == [EQUALS] + (value + []);
    var eq, sep := PiecesFound(decode, traits, s, 0, true, key, [EQUALS] + value, value, []);
    ParseFromPair(decode, traits, s, 0, eq, sep);
  }

  // --- texts without '=' ---

  lemma {:induction false} NoEqualsFound(s: seq<byte>, from: nat)
    requires from <= |s| && forall i | from <= i < |s| :: s[i] != EQUALS
    ensures FindEquals(s, from) == |s|
    decreases |s| - from
  {
    if from < |s| {
      NoEqualsFound(s, from + 1);
    }
  }

  lemma PairIsNoTag(key: Decoding, value: Decoding, rest: Query)
    requires !rest.Tag?
    ensures !WithPair(key, value, rest).Tag?
  {
  }

  lemma PairIsRead(parse: nat -> Query, decode: Decoder, traits: Traits, s: seq<byte>, pos: nat, eq: nat, sep: nat)
    requires IsParser(parse, decode, traits, s)
    requires pos < |s| && eq == FindEquals(s, pos) < |s| && sep == FindSeparator(traits, s, eq + 1)
    ensures parse(pos) == WithPair(Piece(decode, s, pos, eq), Piece(decode, s, eq + 1, sep), parse(sep + 1))
  {
    ParseFromPair(decode, traits, s, pos, eq, sep);
  }

  lemma {:induction false} LaterIsNoTag(parse: nat -> Query, decode: Decoder, traits: Traits, s: seq<byte>, pos: nat)
    requires IsParser(parse, decode, traits, s) && (pos > 0 || EQUALS in s)
    ensures !parse(pos).Tag?
    decreases |s| - pos
  {
    if pos < |s| && FindEquals(s, pos) < |s| {
      var eq := FindEquals(s, pos);
      var sep := FindSeparator(traits, s, eq + 1);
      LaterIsNoTag(parse, decode, traits, s, sep + 1);
      PairIsRead(parse, decode, traits, s, pos, eq, sep);
      PairIsNoTag(Piece(decode, s, pos, eq), Piece(decode, s, eq + 1, sep), parse(sep + 1));
    } else {
      EndIsNoTag(parse, decode, traits, s, pos);
    }
  }

  lemma EndIsNoTag(parse: nat -> Query, decode: Decoder, traits: Traits, s: seq<byte>, pos: nat)
    requires IsParser(parse, decode, traits, s) && (pos > 0 || EQUALS in s) && (pos < |s| ==> FindEquals(s, pos) == |s|)
    ensures !parse(pos).Tag?
  {
    if pos == 0 {
      EqualsIsFound(s, 0);
    }
    assert !ParseFrom(decode, traits, s, pos).Tag?;
  }

  lemma {:induction false} EqualsIsFound(s: seq<byte>, from: nat)
    requires from <= |s| && EQUALS in s[from..]
    ensures FindEquals(s, from) < |s|
    decreases |s| - from
  {
    if s[from] != EQUALS {
      assert s[from..] == [s[from]] + s[from + 1..];
      EqualsIsFound(s, from + 1);
    }
  }

  /** A query that is one text without '=': its tag is the text, exactly when it can be read back and the
      relaxed traits meet no '=' and no '+' in it. */
  lemma {:induction false} TagUndoesEscape(traits: Traits, high: HighFormat, text: seq<byte>)
    requires KnownFormat(high) && text != []
    ensures ParseFrom(DecoderOf(traits), traits, Escape(traits, high, text), 0) == Tag(text)
       <==> TextSurvives(traits, high, text, EQUALS)
  {
    KnownFormatReadsBack(traits, high);
    var s := Escape(traits, high, text);
    ReadsBackTheSame(traits, text);
    if traits.Relaxed? && EQUALS in text {
      KeepsEquals(high, text);
      var decode := DecoderOf(traits);
      var parse := ParserOf(decode, traits, s);
      LaterIsNoTag(parse, decode, traits, s, 0);
    } else {
      NoNewDelimiter(traits, high, text, EQUALS);
      NoEqualsFound(s, 0);
      assert s[0..|s|] == s && |s| > 0;
    }
  }

  lemma {:induction false} KeepsEquals(high: HighFormat, text: seq<byte>)
    requires EQUALS in text
    ensures EQUALS in Escape(Relaxed, high, text)
    decreases |text|
  {
    if text[0] == EQUALS {
      assert EscapeOne(Relaxed, high, text[0])[0] == EQUALS;
    } else {
      assert text == [text[0]] + text[1..];
      KeepsEquals(high, text[1..]);
    }
  }

  /** The parser as a value: how it goes on is looked at for one pair only. */
  ghost predicate IsParser(parse: nat -> Query, decode: Decoder, traits: Traits, s: seq<byte>) {
    forall pos: nat {:trigger ParseFrom(decode, traits, s, pos)} :: parse(pos) == ParseFrom(decode, traits, s, pos)
  }

  lemma ParserOf(decode: Decoder, traits: Traits, s: seq<byte>) returns (parse: nat -> Query)
    ensures IsParser(parse, decode, traits, s)
  {
    parse := (pos: nat) => ParseFrom(decode, traits, s, pos);
  }

  /** All that is known of a reading of printed pairs. */
  ghost predicate Reads(parse: nat -> Query, decode: Decoder, traits: Traits, high: HighFormat, s: seq<byte>) {
    NoDelimiters(high) && ReadsBack(decode, traits, high) && IsParser(parse, decode, traits, s)
  }

  /** Pairs that survive are read one after another, up to the tail at `end`. */
  lemma {:induction false} ReadSurvivors(parse: nat -> Query, decode: Decoder, traits: Traits, high: HighFormat,
      s: seq<byte>, pos: nat, seps: seq<byte>, pairs: seq<Pair>, tail: seq<byte>)
    returns (end: nat)
    requires Reads(parse, decode, traits, high, s) && |seps| == |pairs| && AllSeparate(traits, seps)
    requires AllSurvive(traits, high, pairs) && |pairs| > 0 && Separated(traits, tail)
    requires EndsWith(s, pos, Print(traits, high, seps, pairs, tail))
    ensures EndsWith(s, end, tail) && parse(pos) == Prepend(pairs, parse(end + 1))
    decreases |pairs|, 0
  {
    var more := PrintMore(traits, high, seps[1..], pairs[1..], tail);
    MoreIsSeparated(traits, high, seps[1..], pairs[1..], tail);
    assert Survives(traits, high, pairs[0]);
    var sep := ReadPair(decode, traits, high, s, pos, pairs[0], more);
    end := ReadMoreSurvivors(parse, decode, traits, high, s, sep, seps[1..], pairs[1..], tail);
    PrependTwice(pairs, parse(end + 1));
  }

  lemma {:induction false} ReadMoreSurvivors(parse: nat -> Query, decode: Decoder, traits: Traits, high: HighFormat,
      s: seq<byte>, sep: nat, seps: seq<byte>, pairs: seq<Pair>, tail: seq<byte>)
    returns (end: nat)
    requires Reads(parse, decode, traits, high, s) && |seps| == |pairs| && AllSeparate(traits, seps)
    requires AllSurvive(traits, high, pairs) && Separated(traits, tail)
    requires EndsWith(s, sep, PrintMore(traits, high, seps, pairs, tail))
    ensures EndsWith(s, end, tail) && parse(sep + 1) == Prepend(pairs, parse(end + 1))
    decreases |pairs|, 1
  {
    if |pairs| == 0 {
      end := sep;
      PrependNothing(parse(sep + 1));
      assert pairs == [];
    } else {
      EndsWithRest(s, sep, [seps[0]], Print(traits, high, seps, pairs, tail));
      end := ReadSurvivors(parse, decode, traits, high, s, sep + 1, seps, pairs, tail);
    }
  }

  lemma PrependTwice(pairs: seq<Pair>, q: Query)
    requires |pairs| > 0
    ensures Prepend([pairs[0]], Prepend(pairs[1..], q)) == Prepend(pairs, q)
  {
    if q.Params? {
      assert [pairs[0]] + (pairs[1..] + q.pairs) == pairs + q.pairs;
    }
  }

  lemma {:induction false} LateText(decode: Decoder, traits: Traits, s: seq<byte>, at: nat, text: seq<byte>)
    requires at > 0 && text != [] && EndsWith(s, at, text) && EQUALS !in text
    ensures ParseFrom(decode, traits, s, at) == Bad(NoEquals(at))
  {
    forall i | at <= i < |s|
      ensures s[i] != EQUALS
    {
      assert s[i] == s[at..][i - at];
    }
    NoEqualsFound(s, at);
  }

  lemma {:induction false} RefuseLateText(parse: nat -> Query, decode: Decoder, traits: Traits, high: HighFormat,
      s: seq<byte>, seps: seq<byte>, pairs: seq<Pair>, sep: byte, text: seq<byte>)
    requires Reads(parse, decode, traits, high, s) && |seps| == |pairs| && AllSeparate(traits, seps)
    requires AllSurvive(traits, high, pairs) && |pairs| > 0 && MaySeparate(traits, sep)
    requires text != [] && EQUALS !in text && EndsWith(s, 0, Print(traits, high, seps, pairs, [sep] + text))
    ensures |text| <= |s| && parse(0) == Bad(NoEquals(|s| - |text|))
  {
    SeparatorsAreThese(traits, sep);
    var end := ReadSurvivors(parse, decode, traits, high, s, 0, seps, pairs, [sep] + text);
    EndsWithRest(s, end, [sep], text);
    LateText(decode, traits, s, end + 1, text);
  }

  lemma {:induction false} RefuseLate(decode: Decoder, traits: Traits, high: HighFormat, s: seq<byte>,
      seps: seq<byte>, pairs: seq<Pair>, sep: byte, text: seq<byte>)
    requires NoDelimiters(high) && ReadsBack(decode, traits, high) && |seps| == |pairs| && AllSeparate(traits, seps)
    requires AllSurvive(traits, high, pairs) && |pairs| > 0 && MaySeparate(traits, sep)
    requires text != [] && EQUALS !in text && s == Print(traits, high, seps, pairs, [sep] + text)
    ensures |text| <= |s| && ParseFrom(decode, traits, s, 0) == Bad(NoEquals(|s| - |text|))
  {
    var parse := ParserOf(decode, traits, s);
    assert EndsWith(s, 0, s);
    RefuseLateText(parse, decode, traits, high, s, seps, pairs, sep, text);
    assert parse(0) == ParseFrom(decode, traits, s, 0);
  }

  /** A text without '=' behind pairs is refused, at its own position. */
  lemma {:induction false} LateTextIsRefused(traits: Traits, high: HighFormat, s: seq<byte>, seps: seq<byte>,
                                             pairs: seq<Pair>, sep: byte, text: seq<byte>)
    requires KnownFormat(high) && |seps| == |pairs| > 0 && AllSeparate(traits, seps) && MaySeparate(traits, sep)
    requires AllSurvive(traits, high, pairs) && text != [] && EQUALS !in text
    requires s == Print(traits, high, seps, pairs, [sep] + text)
    ensures |text| <= |s| && ParseFrom(DecoderOf(traits), traits, s, 0) == Bad(NoEquals(|s| - |text|))
  {
    KnownFormatReadsBack(traits, high);
    RefuseLate(DecoderOf(traits), traits, high, s, seps, pairs, sep, text);
  }
}
