/** The chunked transfer coding of section 4.1 of RFC 7230: writing sizes and chunks, and an
    independent reader of the grammar (without extensions and trailers). */
module Chunked {
  import opened Bytes

  /** The format `{:X}`: upper-case hexadecimal without leading zeros. */
  function Hex(n: nat): (s: seq<byte>)
    ensures |s| > 0
  {
    if n < 16 then [HexDigit(n)] else Hex(n / 16) + [HexDigit(n % 16)]
  }

  /** One chunk as the builder lays it out: size, CRLF, data, CRLF. */
  function Chunk(data: seq<byte>): seq<byte> {
    Hex(|data|) + CRLF + data + CRLF
  }

  const LAST_CHUNK: seq<byte> := [0x30] + CRLF + CRLF

  function Chunks(datas: seq<seq<byte>>): seq<byte>
    decreases |datas|
  {
    if |datas| == 0 then [] else Chunk(datas[0]) + Chunks(datas[1..])
  }

  function Concat(datas: seq<seq<byte>>): seq<byte>
    decreases |datas|
  {
    if |datas| == 0 then [] else datas[0] + Concat(datas[1..])
  }

  // --- reading ---

  /** The length of the longest run of hexadecimal digits at the front. */
  function DigitRun(s: seq<byte>): (n: nat)
    ensures n <= |s|
  {
    if |s| == 0 || !IsHexDigit(s[0]) then 0 else 1 + DigitRun(s[1..])
  }

  function Value(digits: seq<byte>): nat
    requires forall i | 0 <= i < |digits| :: IsHexDigit(digits[i])
  {
    if |digits| == 0 then 0 else 16 * Value(digits[..|digits| - 1]) + HexValue(digits[|digits| - 1])
  }

  lemma {:induction false} DigitRunIsDigits(s: seq<byte>)
    ensures forall i | 0 <= i < DigitRun(s) :: IsHexDigit(s[i])
  {
    if |s| > 0 && IsHexDigit(s[0]) {
      DigitRunIsDigits(s[1..]);
      assert forall i | 1 <= i < DigitRun(s) :: s[i] == s[1..][i - 1];
    }
  }

  predicate StartsWithCrLf(s: seq<byte>) {
    |s| >= 2 && s[0] as char == '\r' && s[1] as char == '\n'
  }

  datatype Body = Malformed | Body(datas: seq<seq<byte>>, rest: seq<byte>)

  /** chunked-body = *chunk last-chunk CRLF. */
  function ReadBody(s: seq<byte>): Body
    decreases |s|
  {
    var n := DigitRun(s);
    DigitRunIsDigits(s);
    var size := Value(s[..n]);
    var afterSize := s[n..];
    if n == 0 || !StartsWithCrLf(afterSize) then Malformed
    else if size == 0 then
      if StartsWithCrLf(afterSize[2..]) then Body([], afterSize[4..]) else Malformed
    else if |afterSize| < 2 + size || !StartsWithCrLf(afterSize[2 + size..]) then Malformed
    else
      match ReadBody(afterSize[2 + size + 2..])
      case Malformed => Malformed
      case Body(datas, rest) => Body([afterSize[2..2 + size]] + datas, rest)
  }

  // --- reading undoes writing ---

  lemma {:induction false} HexReadsBack(n: nat)
    ensures forall i | 0 <= i < |Hex(n)| :: IsHexDigit(Hex(n)[i])
    ensures Value(Hex(n)) == n
  {
    if n >= 16 {
      HexReadsBack(n / 16);
      assert Hex(n)[..|Hex(n)| - 1] == Hex(n / 16);
    }
  }

  /** The size is written without leading zeros. */
  lemma {:induction false} NoLeadingZero(n: nat)
    ensures |Hex(n)| == 1 || Hex(n)[0] as char != '0'
    ensures n > 0 ==> Hex(n)[0] as char != '0'
  {
    if n >= 16 {
      NoLeadingZero(n / 16);
    }
  }

  lemma {:induction false} DigitRunStops(digits: seq<byte>, rest: seq<byte>)
    requires forall i | 0 <= i < |digits| :: IsHexDigit(digits[i])
    requires |rest| > 0 && !IsHexDigit(rest[0])
    ensures DigitRun(digits + rest) == |digits|
  {
    if |digits| > 0 {
      DigitRunStops(digits[1..], rest);
      assert (digits + rest)[1..] == digits[1..] + rest;
    } else {
      assert digits + rest == rest;
    }
  }

  lemma ReadSize(size: nat, rest: seq<byte>)
    ensures DigitRun(Hex(size) + CRLF + rest) == |Hex(size)|
    ensures var s := Hex(size) + CRLF + rest;
            s[..|Hex(size)|] == Hex(size) && s[|Hex(size)|..] == CRLF + rest
  {
    HexReadsBack(size);
    DigitRunStops(Hex(size), CRLF + rest);
    assert Hex(size) + CRLF + rest == Hex(size) + (CRLF + rest);
  }

  lemma Regroup(a: seq<byte>, b: seq<byte>, c: seq<byte>, d: seq<byte>)
    ensures (a + b) + c + d == a + (b + c + d)
  {
  }

  lemma ChunkLayout(data: seq<byte>, tail: seq<byte>)
    ensures Chunk(data) + tail == Hex(|data|) + CRLF + (data + CRLF + tail)
  {
    Regroup(Hex(|data|) + CRLF, data, CRLF, tail);
  }

  lemma DataLayout(data: seq<byte>, tail: seq<byte>)
    ensures var s := CRLF + (data + CRLF + tail);
            && |s| >= 2 + |data| + 2 && StartsWithCrLf(s)
            && s[2..2 + |data|] == data
            && StartsWithCrLf(s[2 + |data|..])
            && s[2 + |data| + 2..] == tail
  {
    var rest := data + CRLF + tail;
    var s := CRLF + rest;
    assert s[2..] == rest;
    assert rest[..|data|] == data && rest[|data|..|data| + 2] == CRLF && rest[|data| + 2..] == tail;
    assert s[2..2 + |data|] == s[2..][..|data|];
    assert s[2 + |data|..2 + |data| + 2] == s[2..][|data|..|data| + 2];
    assert s[2 + |data| + 2..] == s[2..][|data| + 2..];
  }

  /** Reading one written chunk takes exactly that chunk. */
  lemma ReadChunk(data: seq<byte>, tail: seq<byte>)
    requires data != [] && ReadBody(tail).Body?
    ensures ReadBody(Chunk(data) + tail) == Body([data] + ReadBody(tail).datas, ReadBody(tail).rest)
  {
    ChunkLayout(data, tail);
    ReadSize(|data|, data + CRLF + tail);
    HexReadsBack(|data|);
    DataLayout(data, tail);
  }

  lemma ReadLast(rest: seq<byte>)
    ensures ReadBody(LAST_CHUNK + rest) == Body([], rest)
  {
    var s := LAST_CHUNK + rest;
    assert Hex(0) == [0x30];
    assert s == Hex(0) + CRLF + (CRLF + rest);
    ReadSize(0, CRLF + rest);
    HexReadsBack(0);
    assert s[1..] == CRLF + (CRLF + rest);
    assert s[1..][2..] == CRLF + rest;
    assert s[1..][4..] == rest;
  }

  /** Whatever follows, reading what was written gives back the chunks, and nothing else. */
  lemma {:induction false} ReadBackChunks(datas: seq<seq<byte>>, rest: seq<byte>)
    requires forall i | 0 <= i < |datas| :: datas[i] != []
    ensures ReadBody(Chunks(datas) + LAST_CHUNK + rest) == Body(datas, rest)
    decreases |datas|
  {
    if |datas| == 0 {
      ReadLast(rest);
      assert Chunks(datas) + LAST_CHUNK == LAST_CHUNK;
    } else {
      var tail := Chunks(datas[1..]) + LAST_CHUNK + rest;
      ReadBackChunks(datas[1..], rest);
      Regroup(Chunk(datas[0]), Chunks(datas[1..]), LAST_CHUNK, rest);
      ReadChunk(datas[0], tail);
      assert [datas[0]] + datas[1..] == datas;
    }
  }
}
