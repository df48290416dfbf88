/** Parsing a query string inside one buffer: keys and values are unescaped in place while the rest of
    the buffer is still being scanned. */
module QueryString {
  import opened Bytes
  import opened Utf8
  import opened PercentEncoding

  const EQUALS: byte := 0x3D
  const AMPERSAND: byte := 0x26
  const SEMICOLON: byte := 0x3B

  /** The separator traits: '&' and ';', or '&' only. */
  predicate IsSeparator(traits: Traits, c: byte) {
    c == AMPERSAND || (c == SEMICOLON && (traits.Default? || traits.JavaScript?))
  }

  /** The first '=' from `from` on, or the end. */
  function FindEquals(s: seq<byte>, from: nat): (r: nat)
    requires from <= |s|
    ensures from <= r <= |s| && (r < |s| ==> s[r] == EQUALS)
    decreases |s| - from
  {
    if from == |s| || s[from] == EQUALS then from else FindEquals(s, from + 1)
  }

  function FindSeparator(traits: Traits, s: seq<byte>, from: nat): (r: nat)
    requires from <= |s|
    ensures from <= r <= |s| && (r < |s| ==> IsSeparator(traits, s[r]))
    decreases |s| - from
  {
    if from == |s| || IsSeparator(traits, s[from]) then from else FindSeparator(traits, s, from + 1)
  }

  datatype QueryFailure = NoEquals(pos: nat) | BadPiece(reason: Reason, left: nat)

  datatype Query = Params(pairs: seq<(seq<byte>, seq<byte>)>) | Tag(text: seq<byte>) | Bad(failure: QueryFailure)

  type Decoder = seq<byte> -> Decoding

  /** A piece of a query is unescaped by itself, with a fresh UTF-8 check. */
  function DecoderOf(traits: Traits): Decoder {
    piece => Unescape(CHECK, traits, piece, FRESH)
  }

  /** The piece of the string from `from` up to `end`, unescaped. */
  function Piece(decode: Decoder, s: seq<byte>, from: nat, end: nat): Decoding
    requires from <= end <= |s|
  {
    decode(s[from..end])
  }

  /** The reference: split the string at '=' and the separators, and unescape each piece by itself. */
  function ParseFrom(decode: Decoder, traits: Traits, s: seq<byte>, pos: nat): Query
    decreases |s| - pos
  {
    if pos >= |s| then Params([])
    else
      var eq := FindEquals(s, pos);
      if eq == |s| then
        if pos != 0 then Bad(NoEquals(pos)) else TagOf(Piece(decode, s, pos, eq))
      else
        var sep := FindSeparator(traits, s, eq + 1);
        var rest := ParseFrom(decode, traits, s, sep + 1);
        WithPair(Piece(decode, s, pos, eq), Piece(decode, s, eq + 1, sep), rest)
  }

  /** The result when a pair comes before `rest`: the key's failure counts first, then the value's. */
  function WithPair(key: Decoding, value: Decoding, rest: Query): Query {
    if key.Failed? then Bad(BadPiece(key.reason, key.left))
    else if value.Failed? then Bad(BadPiece(value.reason, value.left))
    else Prepend([(key.text, value.text)], rest)
  }

  function TagOf(r: Decoding): Query {
    match r
    case Decoded(text) => Tag(text)
    case Failed(reason, left) => Bad(BadPiece(reason, left))
  }

  function Prepend(pairs: seq<(seq<byte>, seq<byte>)>, q: Query): Query {
    if q.Params? then Params(pairs + q.pairs) else q
  }

  /** Marks a text that is decoded: what a decoder does is looked at for such texts only. */
  predicate Asked(text: seq<byte>) {
    true
  }

  ghost predicate IsDecoder(decode: Decoder, traits: Traits) {
    forall text {:trigger Asked(text)} :: Asked(text) ==> decode(text) == Unescape(CHECK, traits, text, FRESH)
  }

  // --- views into the buffer ---

  datatype View = View(at: nat, len: nat)

  datatype Parsed = ParsedParams(views: seq<(View, View)>) | ParsedTag(view: View) | ParseFailure(failure: QueryFailure)

  predicate Shows(buf: seq<byte>, v: View, text: seq<byte>) {
    v.at + v.len <= |buf| && buf[v.at..v.at + v.len] == text
  }

  predicate ShowsPair(buf: seq<byte>, views: (View, View), pair: (seq<byte>, seq<byte>)) {
    Shows(buf, views.0, pair.0) && Shows(buf, views.1, pair.1)
  }

  predicate ShowsAll(buf: seq<byte>, views: seq<(View, View)>, pairs: seq<(seq<byte>, seq<byte>)>) {
    |views| == |pairs| && forall i | 0 <= i < |views| :: ShowsPair(buf, views[i], pairs[i])
  }

  /** All views lie before `pos`. */
  predicate Before(views: seq<(View, View)>, pos: nat) {
    forall i | 0 <= i < |views| :: views[i].0.at + views[i].0.len <= pos && views[i].1.at + views[i].1.len <= pos
  }

  predicate ShowsQuery(buf: seq<byte>, r: Parsed, q: Query) {
    match q
    case Params(pairs) => r.ParsedParams? && ShowsAll(buf, r.views, pairs)
    case Tag(text) => r.ParsedTag? && Shows(buf, r.view, text)
    case Bad(failure) => r == ParseFailure(failure)
  }

  /** From `pos` on the buffer still is the original string. */
  predicate SameFrom(buf: seq<byte>, s: seq<byte>, pos: nat) {
    |buf| == |s| && forall i | pos <= i < |s| :: buf[i] == s[i]
  }

  predicate SameBefore(buf: seq<byte>, was: seq<byte>, pos: nat) {
    |buf| == |was| && forall i | 0 <= i < pos && i < |buf| :: buf[i] == was[i]
  }

  lemma ViewsKept(buf: seq<byte>, was: seq<byte>, views: seq<(View, View)>, pairs: seq<(seq<byte>, seq<byte>)>,
      pos: nat)
    requires ShowsAll(was, views, pairs) && Before(views, pos) && SameBefore(buf, was, pos)
    ensures ShowsAll(buf, views, pairs)
  {
    forall i | 0 <= i < |views|
      ensures ShowsPair(buf, views[i], pairs[i])
    {
      assert ShowsPair(was, views[i], pairs[i]);
      var k, v := views[i].0, views[i].1;
      assert buf[k.at..k.at + k.len] == was[k.at..k.at + k.len];
      assert buf[v.at..v.at + v.len] == was[v.at..v.at + v.len];
    }
  }

  lemma {:induction false} SameEquals(buf: seq<byte>, s: seq<byte>, from: nat)
    requires from <= |s| && SameFrom(buf, s, from)
    ensures FindEquals(buf, from) == FindEquals(s, from)
    decreases |s| - from
  {
    if from < |s| {
      SameEquals(buf, s, from + 1);
    }
  }

  lemma {:induction false} SameSeparator(traits: Traits, buf: seq<byte>, s: seq<byte>, from: nat)
    requires from <= |s| && SameFrom(buf, s, from)
    ensures FindSeparator(traits, buf, from) == FindSeparator(traits, s, from)
    decreases |s| - from
  {
    if from < |s| {
      SameSeparator(traits, buf, s, from + 1);
    }
  }

  /** What unescaping a piece in place leaves: its text at its beginning, and nothing outside changed. */
  predicate Written(buf: seq<byte>, was: seq<byte>, from: nat, end: nat, text: seq<byte>) {
    && |text| <= end - from
    && Shows(buf, View(from, |text|), text)
    && SameBefore(buf, was, from)
    && SameFrom(buf, was, end)
  }

  lemma PieceWritten(buf: seq<byte>, was: seq<byte>, from: nat, end: nat, text: seq<byte>)
    requires Overwritten(buf, was, from, text) && |text| <= end - from && end <= |was|
    ensures Written(buf, was, from, end, text)
  {
    assert buf[from..from + |text|] == text;
  }

  method UnescapePiece(traits: Traits, ghost decode: Decoder, buffer: array<byte>, from: nat, end: nat,
      ghost s: seq<byte>)
    returns (r: InplaceResult)
    requires IsDecoder(decode, traits)
    requires from <= end <= buffer.Length && SameFrom(buffer[..], s, from)
    modifies buffer
    ensures match Piece(decode, s, from, end)
            case Decoded(text) => r == Size(|text|) && Written(buffer[..], old(buffer[..]), from, end, text)
            case Failed(reason, left) => r == NotUnescaped(reason, left)
  {
    ghost var was := buffer[..];
    assert Asked(s[from..end]);
    assert buffer[from..from + (end - from)] == s[from..end];
    r := TryInplaceUnescape(traits, buffer, from, end - from);
    if r.Size? {
      PieceWritten(buffer[..], was, from, end, Piece(decode, s, from, end).text);
    }
  }

  /** Between rounds: the pairs found so far show before `pos`, and the rest has not been touched. */
  predicate Progress(buf: seq<byte>, s: seq<byte>, pos: nat, views: seq<(View, View)>,
                     pairs: seq<(seq<byte>, seq<byte>)>) {
    SameFrom(buf, s, pos) && ShowsAll(buf, views, pairs) && Before(views, pos)
  }

  /** The value is written after the key, so the key stays. */
  lemma PairShown(buf: seq<byte>, middle: seq<byte>, was: seq<byte>, pos: nat, eq: nat, sep: nat,
                  key: seq<byte>, value: seq<byte>)
    requires Written(middle, was, pos, eq, key) && Written(buf, middle, eq + 1, sep, value)
    requires pos <= eq
    ensures ShowsPair(buf, (View(pos, |key|), View(eq + 1, |value|)), (key, value))
    ensures SameBefore(buf, was, pos)
  {
    assert buf[pos..pos + |key|] == middle[pos..pos + |key|];
  }

  lemma ProgressMade(buf: seq<byte>, middle: seq<byte>, was: seq<byte>, s: seq<byte>, pos: nat, eq: nat, sep: nat,
                     views: seq<(View, View)>, pairs: seq<(seq<byte>, seq<byte>)>,
                     key: seq<byte>, value: seq<byte>)
    requires pos <= eq < sep && Progress(was, s, pos, views, pairs)
    requires Written(middle, was, pos, eq, key) && Written(buf, middle, eq + 1, sep, value)
    ensures Progress(buf, s, sep + 1, views + [(View(pos, |key|), View(eq + 1, |value|))], pairs + [(key, value)])
  {
    PairShown(buf, middle, was, pos, eq, sep, key, value);
    ViewsKept(buf, was, views, pairs, pos);
  }

  lemma PrependTwice(pairs: seq<(seq<byte>, seq<byte>)>, more: seq<(seq<byte>, seq<byte>)>, q: Query)
    ensures Prepend(pairs, Prepend(more, q)) == Prepend(pairs + more, q)
  {
    if q.Params? {
      assert pairs + (more + q.pairs) == pairs + more + q.pairs;
    }
  }

  datatype Round = Finished(r: Parsed) | Continue(views: seq<(View, View)>, next: nat)

  /** A round that stands for `q`: it shows the end of the parse, or one pair more before `rest`. */
  ghost predicate RoundShows(buf: seq<byte>, s: seq<byte>, pairs: seq<(seq<byte>, seq<byte>)>, r: Round,
                             pair: (seq<byte>, seq<byte>), q: Query, rest: Query) {
    match r
    case Finished(result) => !result.ParsedParams? && ShowsQuery(buf, result, q)
    case Continue(extended, next) => q == Prepend([pair], rest) && Progress(buf, s, next, extended, pairs + [pair])
  }

  /** One round on a pair at `pos`: both pieces unescaped in place, or the first failure. `rest` is what
      the remaining rounds make. */
  method ParsePair(traits: Traits, ghost decode: Decoder, buffer: array<byte>, pos: nat, eq: nat, sep: nat,
                   ghost s: seq<byte>, views: seq<(View, View)>, ghost pairs: seq<(seq<byte>, seq<byte>)>,
                   ghost rest: Query)
    returns (r: Round, ghost pair: (seq<byte>, seq<byte>))
    requires IsDecoder(decode, traits)
    requires pos <= eq < sep <= buffer.Length && Progress(buffer[..], s, pos, views, pairs)
    modifies buffer
    ensures var q := WithPair(Piece(decode, s, pos, eq), Piece(decode, s, eq + 1, sep), rest);
            RoundShows(buffer[..], s, pairs, r, pair, q, rest) && (r.Continue? ==> r.next == sep + 1)
  {
    ghost var was := buffer[..];
    pair := ([], []);
    var key := UnescapePiece(traits, decode, buffer, pos, eq, s);
    if key.NotUnescaped? {
      return Finished(ParseFailure(BadPiece(key.reason, key.left))), pair;
    }
    ghost var middle := buffer[..];
    ghost var k := Piece(decode, s, pos, eq).text;
    var value := UnescapePiece(traits, decode, buffer, eq + 1, sep, s);
    if value.NotUnescaped? {
      return Finished(ParseFailure(BadPiece(value.reason, value.left))), pair;
    }
    pair := (k, Piece(decode, s, eq + 1, sep).text);
    ProgressMade(buffer[..], middle, was, s, pos, eq, sep, views, pairs, k, pair.1);
    return Continue(views + [(View(pos, key.size), View(eq + 1, value.size))], sep + 1), pair;
  }

  /** No '=' is left: the whole query is a tag, or its format is wrong. */
  method ParseLast(traits: Traits, ghost decode: Decoder, buffer: array<byte>, pos: nat, ghost s: seq<byte>)
    returns (r: Parsed)
    requires IsDecoder(decode, traits)
    requires pos < buffer.Length && SameFrom(buffer[..], s, pos) && FindEquals(s, pos) == |s|
    modifies buffer
    ensures ShowsQuery(buffer[..], r, ParseFrom(decode, traits, s, pos))
    ensures !r.ParsedParams?
  {
    if pos != 0 {
      return ParseFailure(NoEquals(pos));
    }
    var tag := UnescapePiece(traits, decode, buffer, pos, buffer.Length, s);
    if tag.NotUnescaped? {
      return ParseFailure(BadPiece(tag.reason, tag.left));
    }
    return ParsedTag(View(pos, tag.size));
  }

  lemma {:induction false} ParseFromPair(decode: Decoder, traits: Traits, s: seq<byte>, pos: nat, eq: nat, sep: nat)
    requires pos < |s| && eq == FindEquals(s, pos) < |s| && sep == FindSeparator(traits, s, eq + 1)
    ensures ParseFrom(decode, traits, s, pos)
            == WithPair(Piece(decode, s, pos, eq), Piece(decode, s, eq + 1, sep),
                        ParseFrom(decode, traits, s, sep + 1))
  {
  }

  method ScanEquals(buffer: array<byte>, pos: nat, ghost s: seq<byte>) returns (eq: nat)
    requires pos <= buffer.Length && SameFrom(buffer[..], s, pos)
    ensures eq == FindEquals(s, pos)
  {
    SameEquals(buffer[..], s, pos);
    eq := FindEquals(buffer[..], pos);
  }

  method ScanSeparator(traits: Traits, buffer: array<byte>, pos: nat, ghost s: seq<byte>) returns (sep: nat)
    requires pos <= buffer.Length && SameFrom(buffer[..], s, pos)
    ensures sep == FindSeparator(traits, s, pos)
  {
    SameSeparator(traits, buffer[..], s, pos);
    sep := FindSeparator(traits, buffer[..], pos);
  }

  /** One round of the loop at `pos`. */
  method ParseRound(traits: Traits, ghost decode: Decoder, buffer: array<byte>, pos: nat, ghost s: seq<byte>,
                    views: seq<(View, View)>, ghost pairs: seq<(seq<byte>, seq<byte>)>)
    returns (r: Round, ghost pair: (seq<byte>, seq<byte>), ghost rest: Query)
    requires IsDecoder(decode, traits)
    requires pos < buffer.Length && Progress(buffer[..], s, pos, views, pairs)
    modifies buffer
    ensures RoundShows(buffer[..], s, pairs, r, pair, ParseFrom(decode, traits, s, pos), rest)
    ensures r.Continue? ==> pos < r.next && rest == ParseFrom(decode, traits, s, r.next)
  {
    var eq := ScanEquals(buffer, pos, s);
    if eq == buffer.Length {
      var last := ParseLast(traits, decode, buffer, pos, s);
      return Finished(last), ([], []), Params([]);
    }
    r, pair, rest := ParseAtPair(traits, decode, buffer, pos, eq, s, views, pairs);
  }

  method ParseAtPair(traits: Traits, ghost decode: Decoder, buffer: array<byte>, pos: nat, eq: nat, ghost s: seq<byte>,
                     views: seq<(View, View)>, ghost pairs: seq<(seq<byte>, seq<byte>)>)
    returns (r: Round, ghost pair: (seq<byte>, seq<byte>), ghost rest: Query)
    requires IsDecoder(decode, traits)
    requires pos < buffer.Length && Progress(buffer[..], s, pos, views, pairs)
    requires eq == FindEquals(s, pos) < buffer.Length
    modifies buffer
    ensures RoundShows(buffer[..], s, pairs, r, pair, ParseFrom(decode, traits, s, pos), rest)
    ensures r.Continue? ==> pos < r.next && rest == ParseFrom(decode, traits, s, r.next)
  {
    var sep;
    sep, rest := ScanPair(traits, decode, buffer, pos, eq, s);
    r, pair := ParsePair(traits, decode, buffer, pos, eq, sep, s, views, pairs, rest);
  }

  /** The end of the pair at `pos`, and what the rounds after it make. */
  method ScanPair(traits: Traits, ghost decode: Decoder, buffer: array<byte>, pos: nat, eq: nat, ghost s: seq<byte>)
    returns (sep: nat, ghost rest: Query)
    requires pos < buffer.Length && SameFrom(buffer[..], s, pos) && eq == FindEquals(s, pos) < buffer.Length
    ensures pos <= eq < sep <= buffer.Length && rest == ParseFrom(decode, traits, s, sep + 1)
    ensures ParseFrom(decode, traits, s, pos)
         == WithPair(Piece(decode, s, pos, eq), Piece(decode, s, eq + 1, sep), rest)
  {
    sep := ScanSeparator(traits, buffer, eq + 1, s);
    rest := ParseFrom(decode, traits, s, sep + 1);
    ParseFromPair(decode, traits, s, pos, eq, sep);
  }

  /** Parses a copy of the query, unescaping inside the buffer that it is still scanning. */
  method TryParseQuery(traits: Traits, query: seq<byte>) returns (r: Parsed, buffer: array<byte>)
    ensures fresh(buffer) && ShowsQuery(buffer[..], r, ParseFrom(DecoderOf(traits), traits, query, 0))
  {
    buffer := new byte[|query|](i requires 0 <= i < |query| => query[i]);
    ghost var pairs: seq<(seq<byte>, seq<byte>)> := [];
    var views: seq<(View, View)> := [];
    var pos := 0;
    ghost var decode := DecoderOf(traits);
    PrependNothing(ParseFrom(decode, traits, query, 0));
    while pos < buffer.Length
      invariant fresh(buffer) && buffer.Length == |query|
      invariant Progress(buffer[..], query, pos, views, pairs)
      invariant ParseFrom(decode, traits, query, 0) == Prepend(pairs, ParseFrom(decode, traits, query, pos))
    {
      var round;
      ghost var pair, rest;
      round, pair, rest := ParseRound(traits, decode, buffer, pos, query, views, pairs);
      if round.Finished? {
        return round.r, buffer;
      }
      PrependTwice(pairs, [pair], rest);
      views, pairs, pos := round.views, pairs + [pair], round.next;
    }
    r := ParsedParams(views);
  }

  lemma PrependNothing(q: Query)
    ensures Prepend([], q) == q
  {
    if q.Params? {
      assert [] + q.pairs == q.pairs;
    }
  }
}
