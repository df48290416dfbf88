/** The incremental SHA-1 builder: pieces of a message collected into blocks, and the padding at the end. */
module Sha1Builder {
  import opened Bytes
  import opened Sha1
  import opened Sha1Transform

  const BLOCK_SIZE: nat := 64

  /** What a builder holds. `fed` are the bytes of the blocks given to the transform so far. */
  datatype Content = Content(buffer: seq<byte>, len: nat, count: nat, fed: seq<byte>)

  const EMPTY := Content(Zeros(BLOCK_SIZE), 0, 0, [])

  ghost predicate Open(c: Content) {
    |c.buffer| == BLOCK_SIZE && c.len < BLOCK_SIZE
  }

  function Splice(buffer: seq<byte>, at: nat, piece: seq<byte>): (r: seq<byte>)
    requires at + |piece| <= |buffer|
    ensures |r| == |buffer|
  {
    buffer[..at] + piece + buffer[at + |piece|..]
  }

  /** One more byte: a full buffer is transformed at once. */
  function Push(c: Content, b: byte): (r: Content)
    requires Open(c)
    ensures Open(r)
  {
    var buffer := c.buffer[c.len := b];
    if c.len + 1 < BLOCK_SIZE then Content(buffer, c.len + 1, c.count, c.fed)
    else Content(buffer, 0, c.count + 1, c.fed + buffer)
  }

  function PushAll(c: Content, bytes: seq<byte>): (r: Content)
    requires Open(c)
    ensures Open(r)
    decreases |bytes|
  {
    if |bytes| == 0 then c else PushAll(Push(c, bytes[0]), bytes[1..])
  }

  /** However a message is cut, the pieces leave what the whole message leaves. */
  lemma {:induction false} PushAllInPieces(c: Content, a: seq<byte>, b: seq<byte>)
    requires Open(c)
    ensures PushAll(PushAll(c, a), b) == PushAll(c, a + b)
    decreases |a|
  {
    if |a| == 0 {
      assert a + b == b;
    } else {
      PushAllInPieces(Push(c, a[0]), a[1..], b);
      assert (a + b)[1..] == a[1..] + b;
    }
  }

  function Joined(pieces: seq<seq<byte>>): seq<byte> {
    if |pieces| == 0 then [] else pieces[0] + Joined(pieces[1..])
  }

  function PushPieces(c: Content, pieces: seq<seq<byte>>): (r: Content)
    requires Open(c)
    ensures Open(r)
    decreases |pieces|
  {
    if |pieces| == 0 then c else PushPieces(PushAll(c, pieces[0]), pieces[1..])
  }

  /** One update per piece leaves the builder as one update with the whole message does. */
  lemma {:induction false} AnyCuttingIsTheSame(c: Content, pieces: seq<seq<byte>>)
    requires Open(c)
    ensures PushPieces(c, pieces) == PushAll(c, Joined(pieces))
    decreases |pieces|
  {
    if |pieces| > 0 {
      AnyCuttingIsTheSame(PushAll(c, pieces[0]), pieces[1..]);
      PushAllInPieces(c, pieces[0], Joined(pieces[1..]));
    }
  }

  /** Copying a piece into the buffer pushes its bytes, while it fits. */
  lemma {:induction false} CopyPushes(c: Content, piece: seq<byte>)
    requires Open(c) && c.len + |piece| < BLOCK_SIZE
    ensures PushAll(c, piece) == Content(Splice(c.buffer, c.len, piece), c.len + |piece|, c.count, c.fed)
    decreases |piece|
  {
    if |piece| == 0 {
      assert Splice(c.buffer, c.len, piece) == c.buffer;
    } else {
      CopyPushes(Push(c, piece[0]), piece[1..]);
      SpliceMore(c.buffer, c.len, piece);
    }
  }

  lemma SpliceMore(buffer: seq<byte>, at: nat, piece: seq<byte>)
    requires |piece| > 0 && at + |piece| <= |buffer|
    ensures Splice(buffer[at := piece[0]], at + 1, piece[1..]) == Splice(buffer, at, piece)
  {
  }

  lemma SpliceNothing(buffer: seq<byte>, at: nat)
    requires at <= |buffer|
    ensures Splice(buffer, at, []) == buffer
  {
  }

  lemma SpliceNext(buffer: seq<byte>, at: nat, piece: seq<byte>, k: nat)
    requires k < |piece| && at + |piece| <= |buffer|
    ensures Splice(buffer, at, piece[..k])[at + k := piece[k]] == Splice(buffer, at, piece[..k + 1])
  {
  }

  lemma SpliceLast(buffer: seq<byte>, at: nat, piece: seq<byte>, b: byte)
    requires at + |piece| + 1 == |buffer|
    ensures Splice(buffer, at, piece)[|buffer| - 1 := b] == Splice(buffer, at, piece + [b])
  {
  }

  lemma CopyFills(c: Content, piece: seq<byte>)
    requires Open(c) && c.len + |piece| == BLOCK_SIZE
    ensures PushAll(c, piece) == var buffer := Splice(c.buffer, c.len, piece);
                                 Content(buffer, 0, c.count + 1, c.fed + buffer)
  {
    var front, last := piece[..|piece| - 1], piece[|piece| - 1];
    assert piece == front + [last];
    PushAllInPieces(c, front, [last]);
    CopyPushes(c, front);
    SpliceLast(c.buffer, c.len, front, last);
    var d := PushAll(c, front);
    assert PushAll(d, [last]) == Push(d, last);
  }

  /** What is left of a message: its complete blocks fed, the rest in front of the buffer. */
  ghost predicate Leaves(message: seq<byte>, c: Content) {
    && c.len == |message| % BLOCK_SIZE && c.count == |message| / BLOCK_SIZE && |c.buffer| == BLOCK_SIZE
    && c.fed + c.buffer[..c.len] == message
  }

  lemma {:induction false} ContentOfMessage(message: seq<byte>)
    ensures Leaves(message, PushAll(EMPTY, message))
    decreases |message|
  {
    if |message| > 0 {
      var n := |message| - 1;
      var before, last := message[..n], message[n];
      ContentOfMessage(before);
      assert message == before + [last];
      PushAllInPieces(EMPTY, before, [last]);
      var d := PushAll(EMPTY, before);
      assert PushAll(d, [last]) == Push(d, last);
      PushedAfter(d, last);
      NextLength(n);
    }
  }

  lemma NextLength(n: nat)
    ensures if n % BLOCK_SIZE + 1 < BLOCK_SIZE
            then (n + 1) % BLOCK_SIZE == n % BLOCK_SIZE + 1 && (n + 1) / BLOCK_SIZE == n / BLOCK_SIZE
            else (n + 1) % BLOCK_SIZE == 0 && (n + 1) / BLOCK_SIZE == n / BLOCK_SIZE + 1
  {
  }

  lemma PushedAfter(d: Content, last: byte)
    requires Open(d)
    ensures var c := Push(d, last); c.fed + c.buffer[..c.len] == (d.fed + d.buffer[..d.len]) + [last]
  {
    var c := Push(d, last);
    assert c.buffer[..d.len + 1] == d.buffer[..d.len] + [last];
    if d.len + 1 == BLOCK_SIZE {
      assert c.buffer[..d.len + 1] == c.buffer;
    }
  }

  // --- the end of a message ---

  const TWO_32: nat := 0x1_0000_0000
  const TWO_64: nat := 0x1_0000_0000_0000_0000

  /** `calculate_total_bits_count`, in 64 bits. */
  function TotalBits(count: nat, len: nat): nat {
    (count * BLOCK_SIZE + len) * 8 % TWO_64
  }

  function Octets(v: nat): seq<byte> {
    [v / 0x100_0000 % 256, v / 0x1_0000 % 256, v / 0x100 % 256, v % 256]
  }

  /** Two 32-bit halves, each with its highest byte first. */
  function LengthField(bits: nat): (r: seq<byte>)
    ensures |r| == 8
  {
    Octets(bits / TWO_32 % TWO_32) + Octets(bits % TWO_32)
  }

  /** The blocks that `finish` makes of the bytes left in the buffer. */
  function FinalBlocks(left: seq<byte>, bits: nat): (r: seq<byte>)
    requires |left| < BLOCK_SIZE
    ensures |r| == if |left| > 56 then 2 * BLOCK_SIZE else BLOCK_SIZE
  {
    var first := left + [0x80] + Zeros(BLOCK_SIZE - 1 - |left|);
    if |left| > 56 then first + Zeros(56) + LengthField(bits) else first[..56] + LengthField(bits)
  }

  lemma OctetsOfRemainder(x: nat)
    ensures Octets(x % TWO_32) == Octets(x)
  {
    var q, r := x / TWO_32, x % TWO_32;
    assert x / 0x100_0000 == q * 0x100 + r / 0x100_0000;
    MultipleDropsOut(r / 0x100_0000, q);
    assert x / 0x1_0000 == q * 0x1_0000 + r / 0x1_0000;
    MultipleDropsOut(r / 0x1_0000, q * 0x100);
    assert x / 0x100 == q * 0x100_0000 + r / 0x100;
    MultipleDropsOut(r / 0x100, q * 0x1_0000);
    MultipleDropsOut(r, q * 0x100_0000);
  }

  lemma MultipleDropsOut(r: nat, k: nat)
    ensures (k * 256 + r) % 256 == r % 256
  {
  }

  lemma Halves(x: nat)
    ensures x % TWO_64 % TWO_32 == x % TWO_32
    ensures x % TWO_64 / TWO_32 % TWO_32 == x / TWO_32 % TWO_32
  {
    var q, r := x / TWO_64, x % TWO_64;
    assert x == q * TWO_32 * TWO_32 + r;
    assert x / TWO_32 == q * TWO_32 + r / TWO_32;
  }

  lemma BigEndian4(x: nat)
    ensures BigEndian(x, 4) == Octets(x)
  {
    assert x / 256 / 256 == x / 0x1_0000;
    assert x / 256 / 256 / 256 == x / 0x100_0000;
    assert BigEndian(x / 0x100_0000, 1) == [x / 0x100_0000 % 256];
    assert BigEndian(x / 0x1_0000, 2) == [x / 0x100_0000 % 256, x / 0x1_0000 % 256];
    assert BigEndian(x / 256, 3) == [x / 0x100_0000 % 256, x / 0x1_0000 % 256, x / 256 % 256];
  }

  lemma BigEndian8(x: nat)
    ensures BigEndian(x, 8) == BigEndian(x / TWO_32, 4) + BigEndian(x, 4)
  {
    var a, b, c := x / 256, x / 256 / 256, x / 256 / 256 / 256;
    assert c / 256 == x / TWO_32;
    assert BigEndian(c, 5) == BigEndian(x / TWO_32, 4) + BigEndian(c, 1);
    assert BigEndian(b, 6) == BigEndian(x / TWO_32, 4) + BigEndian(b, 2);
    assert BigEndian(a, 7) == BigEndian(x / TWO_32, 4) + BigEndian(a, 3);
  }

  lemma {:induction false} LengthFieldIsBigEndian(x: nat)
    ensures LengthField(x % TWO_64) == BigEndian(x, 8)
  {
    BigEndian8(x);
    BigEndian4(x);
    BigEndian4(x / TWO_32);
    Halves(x);
    OctetsOfRemainder(x);
    OctetsOfRemainder(x / TWO_32);
  }

  lemma Regroup(a: seq<byte>, b: seq<byte>, c: seq<byte>, d: seq<byte>, e: seq<byte>)
    ensures a + b + c + d + e == a + (b + c + d + e)
  {
  }

  lemma FinalShape(left: seq<byte>, bits: nat)
    requires |left| < BLOCK_SIZE && |left| != 56
    ensures FinalBlocks(left, bits) == left + [0x80] + Zeros((119 - |left|) % BLOCK_SIZE) + LengthField(bits)
  {
    ZerosComplete(left);
  }

  lemma TailCompletes(message: seq<byte>, front: seq<byte>, left: seq<byte>, bits: nat)
    requires message == front + left && |front| % BLOCK_SIZE == 0 && |left| < BLOCK_SIZE && |left| != 56
    ensures front + FinalBlocks(left, bits) == PaddedWith(message, LengthField(bits))
  {
    FinalShape(left, bits);
    assert |message| % BLOCK_SIZE == |left|;
    Regroup(front, left, [0x80], Zeros((119 - |left|) % BLOCK_SIZE), LengthField(bits));
  }

  lemma SecondBlock(fed: seq<byte>, first: seq<byte>, field: seq<byte>)
    ensures fed + first + (Zeros(BLOCK_SIZE)[..56] + field) == fed + (first + Zeros(56) + field)
  {
    assert Zeros(BLOCK_SIZE)[..56] == Zeros(56);
  }

  lemma ZerosComplete(left: seq<byte>)
    requires |left| < BLOCK_SIZE
    ensures var first := left + [0x80] + Zeros(BLOCK_SIZE - 1 - |left|);
            var whole := left + [0x80] + Zeros((119 - |left|) % BLOCK_SIZE);
            (|left| < 56 ==> first[..56] == whole) && (|left| > 56 ==> first + Zeros(56) == whole)
  {
  }

  lemma BitsOfLength(n: nat)
    ensures TotalBits(n / BLOCK_SIZE, n % BLOCK_SIZE) == 8 * n % TWO_64
  {
    assert n / BLOCK_SIZE * BLOCK_SIZE + n % BLOCK_SIZE == n;
  }

  lemma PaddedBy(message: seq<byte>, front: seq<byte>, left: seq<byte>, bits: nat)
    requires message == front + left && |front| % BLOCK_SIZE == 0 && |left| < BLOCK_SIZE && |left| != 56
    requires bits == 8 * |message| % TWO_64
    ensures front + FinalBlocks(left, bits) == Padded(message)
  {
    LengthFieldIsBigEndian(8 * |message|);
    TailCompletes(message, front, left, bits);
  }

  function FedAfter(c: Content): (r: seq<byte>)
    requires Open(c)
  {
    c.fed + FinalBlocks(c.buffer[..c.len], TotalBits(c.count, c.len))
  }

  lemma FedAfterIsTooShort(message: seq<byte>, c: Content)
    requires Leaves(message, c) && c.len == 56
    ensures |FedAfter(c)| + BLOCK_SIZE == |Padded(message)|
  {
    assert |c.fed + c.buffer[..c.len]| == |c.fed| + 56;
  }

  lemma FedAfterIsComplete(message: seq<byte>, c: Content)
    requires Leaves(message, c) && c.len != 56
    ensures FedAfter(c) == Padded(message)
  {
    BitsOfLength(|message|);
    assert |c.fed + c.buffer[..c.len]| == |c.fed| + c.len;
    PaddedBy(message, c.fed, c.buffer[..c.len], TotalBits(c.count, c.len));
  }

  /** All that the transform is given for a message, from the first update to the end of `finish`. */
  function Fed(message: seq<byte>): (r: seq<byte>) {
    FedAfter(PushAll(EMPTY, message))
  }

  /** `finish` completes the padded message of section 5.1.1 of FIPS 180-4 exactly when the length is not
      56 modulo 64: then the length field overwrites the 0x80 byte. */
  lemma {:induction false} FedIsPadded(message: seq<byte>)
    ensures Fed(message) == Padded(message) <==> |message| % BLOCK_SIZE != 56
  {
    var c := PushAll(EMPTY, message);
    ContentOfMessage(message);
    if c.len == 56 {
      FedAfterIsTooShort(message, c);
    } else {
      FedAfterIsComplete(message, c);
    }
  }

  /** The message of 56 zero bytes: what is hashed has no 0x80 byte after it. */
  lemma {:induction false} MarkIsLost()
    ensures Fed(Zeros(56)) == Zeros(56) + LengthField(448)
    ensures Fed(Zeros(56)) != Padded(Zeros(56))
  {
    ContentOfMessage(Zeros(56));
    MarkIsLostAfter(Zeros(56), PushAll(EMPTY, Zeros(56)));
    FedIsPadded(Zeros(56));
  }

  lemma MarkIsLostAfter(message: seq<byte>, c: Content)
    requires Leaves(message, c) && |message| == 56
    ensures FedAfter(c) == message + LengthField(448)
  {
    assert |c.fed + c.buffer[..56]| == |c.fed| + 56;
    assert c.fed == [] && TotalBits(0, 56) == 448;
    MarkOverwritten(c.buffer[..56], 448);
  }

  lemma MarkOverwritten(left: seq<byte>, bits: nat)
    requires |left| == 56
    ensures FinalBlocks(left, bits) == left + LengthField(bits)
  {
    assert (left + [0x80] + Zeros(7))[..56] == left;
  }

  /** `held` is what a builder that held `c` holds after the first `done` bytes of `what`. */
  ghost predicate Pushed(c: Content, what: seq<byte>, done: nat, held: Content)
    requires Open(c)
  {
    done <= |what| && held == PushAll(c, what[..done])
  }

  lemma {:induction false} PushPart(c: Content, what: seq<byte>, done: nat, end: nat, held: Content)
    requires Open(c) && done <= end <= |what| && Pushed(c, what, done, held)
    ensures Open(held) && Pushed(c, what, end, PushAll(held, what[done..end]))
  {
    SlicesJoin(what, done, end);
    PushAllInPieces(c, what[..done], what[done..end]);
  }

  lemma {:induction false} PushedAll(c: Content, what: seq<byte>, held: Content)
    requires Open(c)
    ensures Pushed(c, what, |what|, held) ==> held == PushAll(c, what)
    ensures Pushed(c, what, 0, c)
  {
    assert what[..|what|] == what && what[..0] == [];
  }

  lemma SlicesJoin(s: seq<byte>, i: nat, j: nat)
    requires i <= j <= |s|
    ensures s[..i] + s[i..j] == s[..j]
  {
  }

  lemma OneMoreBlock(fed: seq<byte>, block: seq<byte>, digest: State)
    requires |fed| % BLOCK_SIZE == 0 && |block| == BLOCK_SIZE && digest == Hash(fed)
    ensures |fed + block| % BLOCK_SIZE == 0 && Compress(digest, WordsOf(block)) == Hash(fed + block)
  {
    var all := fed + block;
    assert all[..|all| - 64] == fed && all[|all| - 64..] == block;
  }

  method TransformAfter(digest: State, buffer: array<byte>, ghost fed: seq<byte>) returns (r: State)
    requires buffer.Length == BLOCK_SIZE && |fed| % BLOCK_SIZE == 0 && digest == Hash(fed)
    ensures |fed + buffer[..]| % BLOCK_SIZE == 0 && r == Hash(fed + buffer[..])
  {
    OneMoreBlock(fed, buffer[..], digest);
    r := Transform(digest, buffer);
  }

  class Builder {
    var digest: State
    var bufferLen: nat
    var transformsCount: nat
    const buffer: array<byte>
    ghost var fed: seq<byte>

    ghost predicate Valid()
      reads this, buffer
    {
      buffer.Length == BLOCK_SIZE && bufferLen < BLOCK_SIZE && |fed| % BLOCK_SIZE == 0 && digest == Hash(fed)
    }

    ghost function Held(): Content
      reads this, buffer
    {
      Content(buffer[..], bufferLen, transformsCount, fed)
    }

    constructor ()
      ensures Valid() && Held() == EMPTY && fresh(buffer)
    {
      bufferLen, transformsCount, digest, fed := 0, 0, INITIAL, [];
      buffer := new byte[BLOCK_SIZE](_ => 0);
      new;
      assert buffer[..] == Zeros(BLOCK_SIZE);
    }

    method TransformBuffer()
      requires buffer.Length == BLOCK_SIZE && |fed| % BLOCK_SIZE == 0 && digest == Hash(fed)
      modifies this`digest, this`fed
      ensures fed == old(fed) + buffer[..] && |fed| % BLOCK_SIZE == 0 && digest == Hash(fed)
    {
      digest := TransformAfter(digest, buffer, fed);
      fed := fed + buffer[..];
    }

    method CopyIn(piece: seq<byte>)
      requires buffer.Length == BLOCK_SIZE && bufferLen + |piece| <= BLOCK_SIZE
      modifies buffer
      ensures buffer[..] == Splice(old(buffer[..]), bufferLen, piece)
    {
      ghost var was := buffer[..];
      SpliceNothing(was, bufferLen);
      for k := 0 to |piece|
        invariant buffer[..] == Splice(was, bufferLen, piece[..k])
      {
        SpliceNext(was, bufferLen, piece, k);
        buffer[bufferLen + k] := piece[k];
      }
      assert piece[..|piece|] == piece;
    }

    /** One round of `update`: it goes on when the buffer became full. */
    method UpdateOnce(piece: seq<byte>) returns (full: bool)
      requires Valid() && bufferLen + |piece| <= BLOCK_SIZE
      modifies this, buffer
      ensures Valid() && Held() == PushAll(old(Held()), piece)
      ensures full <==> old(bufferLen) + |piece| == BLOCK_SIZE
      ensures full ==> bufferLen == 0
    {
      ghost var c := Held();
      CopyIn(piece);
      bufferLen := bufferLen + |piece|;
      full := bufferLen == BLOCK_SIZE;
      if full {
        CopyFills(c, piece);
        TransformBuffer();
        transformsCount := transformsCount + 1;
        bufferLen := 0;
      } else {
        CopyPushes(c, piece);
      }
    }

    /** `update`. */
    method Update(what: seq<byte>)
      requires Valid()
      modifies this, buffer
      ensures Valid() && Held() == PushAll(old(Held()), what)
    {
      ghost var start := Held();
      var done := 0;
      PushedAll(start, what, start);
      while true
        invariant done <= |what| && Valid() && Pushed(start, what, done, Held())
        decreases |what| - done
      {
        var part := if |what| - done < BLOCK_SIZE - bufferLen then |what| - done else BLOCK_SIZE - bufferLen;
        PushPart(start, what, done, done + part, Held());
        var full := UpdateOnce(what[done..done + part]);
        done := done + part;
        if !full {
          break;
        }
      }
      PushedAll(start, what, Held());
    }

    method PadBuffer()
      requires buffer.Length == BLOCK_SIZE && bufferLen < BLOCK_SIZE
      modifies buffer, this`bufferLen
      ensures bufferLen == BLOCK_SIZE
      ensures buffer[..] == old(buffer[..bufferLen]) + [0x80] + Zeros(BLOCK_SIZE - 1 - old(bufferLen))
    {
      ghost var left := buffer[..bufferLen];
      buffer[bufferLen] := 0x80;
      bufferLen := bufferLen + 1;
      while bufferLen < BLOCK_SIZE
        invariant |left| < bufferLen <= BLOCK_SIZE
        invariant buffer[..bufferLen] == left + [0x80] + Zeros(bufferLen - 1 - |left|)
      {
        ghost var before := buffer[..bufferLen];
        buffer[bufferLen] := 0;
        bufferLen := bufferLen + 1;
        assert buffer[..bufferLen] == before + [0];
      }
      assert buffer[..] == buffer[..bufferLen];
    }

    method ClearBuffer()
      requires buffer.Length == BLOCK_SIZE
      modifies buffer
      ensures buffer[..] == Zeros(BLOCK_SIZE)
    {
      for i := 0 to BLOCK_SIZE
        invariant forall k | 0 <= k < i :: buffer[k] == 0
      {
        buffer[i] := 0;
      }
    }

    method StoreUint(at: nat, v: nat)
      requires buffer.Length == BLOCK_SIZE && at + 4 <= BLOCK_SIZE
      modifies buffer
      ensures buffer[..] == Splice(old(buffer[..]), at, Octets(v))
    {
      buffer[at] := v / 0x100_0000 % 256;
      buffer[at + 1] := v / 0x1_0000 % 256;
      buffer[at + 2] := v / 0x100 % 256;
      buffer[at + 3] := v % 256;
    }

    method StoreBits(bits: nat)
      requires buffer.Length == BLOCK_SIZE
      modifies buffer
      ensures buffer[..] == old(buffer[..])[..56] + LengthField(bits)
    {
      StoreUint(56, bits / TWO_32 % TWO_32);
      StoreUint(60, bits % TWO_32);
    }

    /** `finish`. */
    method Finish() returns (r: State)
      requires Valid()
      modifies this, buffer
      ensures fed == old(fed) + FinalBlocks(old(buffer[..bufferLen]), TotalBits(old(transformsCount), old(bufferLen)))
      ensures |fed| % BLOCK_SIZE == 0 && r == digest == Hash(fed)
    {
      var totalBits := TotalBits(transformsCount, bufferLen);
      var originalLen := bufferLen;
      PadBuffer();
      ghost var first := buffer[..];
      if originalLen > BLOCK_SIZE - 8 {
        TransformBuffer();
        ClearBuffer();
        SecondBlock(old(fed), first, LengthField(totalBits));
      }
      StoreBits(totalBits);
      TransformBuffer();
      r := digest;
    }
  }

  /** `make_digest`: the digest of the standard, unless the length is 56 modulo 64. */
  method MakeDigest(message: seq<byte>) returns (r: State)
    ensures |Fed(message)| % BLOCK_SIZE == 0 && r == Hash(Fed(message))
    ensures |message| % BLOCK_SIZE != 56 ==> r == Digest(message)
  {
    var builder := new Builder();
    builder.Update(message);
    r := builder.Finish();
    FedIsPadded(message);
  }
}
