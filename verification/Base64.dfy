/** Base64 (section 4 of RFC 4648): the validity automaton, encoding and decoding. */
module Base64 {
  import opened Bytes

  const PAD: byte := 0x3D

  /** `base64_alphabet`. */
  function Alphabet(v: nat): (c: byte)
    requires v < 64
    ensures IsChar(c)
  {
    if v < 26 then 0x41 + v else if v < 52 then 0x61 + v - 26 else if v < 62 then 0x30 + v - 52
    else if v == 62 then 0x2B else 0x2F
  }

  /** `is_base64_char` without '='. */
  predicate IsChar(c: byte) {
    0x41 <= c <= 0x5A || 0x61 <= c <= 0x7A || 0x30 <= c <= 0x39 || c == 0x2B || c == 0x2F
  }

  /** `base64_decode_lut`: zero for everything else. */
  function Value(c: byte): (v: nat)
    ensures v < 64
  {
    if 0x41 <= c <= 0x5A then c - 0x41 else if 0x61 <= c <= 0x7A then c - 0x61 + 26
    else if 0x30 <= c <= 0x39 then c - 0x30 + 52 else if c == 0x2B then 62 else if c == 0x2F then 63 else 0
  }

  lemma TablesAreInverse(v: nat, c: byte)
    requires v < 64 && IsChar(c)
    ensures Value(Alphabet(v)) == v && Alphabet(Value(c)) == c
  {
  }

  /** Table 1 of RFC 4648, sixteen characters in a row. */
  lemma AlphabetByName(v: nat)
    requires v < 64
    ensures PAD as char == '='
    ensures Alphabet(v) as char == if v < 16 then "ABCDEFGHIJKLMNOP"[v]
                                   else if v < 32 then "QRSTUVWXYZabcdef"[v - 16]
                                   else if v < 48 then "ghijklmnopqrstuv"[v - 32]
                                   else "wxyz0123456789+/"[v - 48]
  {
  }

  // --- validity ---

  /** `k` characters, at least two, and then padding only, at most two. */
  ghost predicate Shape(s: seq<byte>, k: nat) {
    && 2 <= k <= |s| <= k + 2
    && (forall i | 0 <= i < k :: IsChar(s[i]))
    && (forall i | k <= i < |s| :: s[i] == PAD)
  }

  ghost predicate IsValid(s: seq<byte>) {
    |s| >= 4 && exists k :: Shape(s, k)
  }

  /** Characters of the alphabet, at least two, and then nothing, "=" or "==". */
  ghost predicate Written(s: seq<byte>, chars: seq<byte>, paddings: seq<byte>) {
    && s == chars + paddings && |chars| >= 2
    && (paddings == [] || paddings == [0x3D] || paddings == [0x3D, 0x3D])
    && forall i | 0 <= i < |chars| :: IsChar(chars[i])
  }

  lemma {:induction false} ValidByName(s: seq<byte>)
    ensures IsValid(s) <==> |s| >= 4 && exists chars, paddings :: Written(s, chars, paddings)
  {
    if IsValid(s) {
      var k: nat :| Shape(s, k);
      var paddings := s[k..];
      assert s == s[..k] + paddings;
      assert |paddings| == 0 || |paddings| == 1 || |paddings| == 2;
      assert Written(s, s[..k], paddings);
    }
    forall chars, paddings | |s| >= 4 && Written(s, chars, paddings)
      ensures IsValid(s)
    {
      assert Shape(s, |chars|);
    }
  }

  datatype Expected = Char | CharOrPadding | Padding

  /** What the automaton knows after `i` characters. */
  ghost predicate Seen(s: seq<byte>, i: nat, expects: Expected, chars: nat, paddings: nat) {
    && i <= |s| && paddings <= i
    && (forall j | 0 <= j < i - paddings :: IsChar(s[j]))
    && (forall j | i - paddings <= j < i :: s[j] == PAD)
    && match expects
       case Char => chars == i < 2 && paddings == 0
       case CharOrPadding => i >= 2 && paddings == 0
       case Padding => i >= 2 + paddings && 1 <= paddings <= 2
  }

  /** A character that no valid string has at this place. */
  lemma Rejected(s: seq<byte>, i: nat, expects: Expected, chars: nat, paddings: nat)
    requires Seen(s, i, expects, chars, paddings) && i < |s|
    requires match expects
             case Char => !IsChar(s[i])
             case CharOrPadding => s[i] != PAD && !IsChar(s[i])
             case Padding => s[i] != PAD || paddings == 2
    ensures !IsValid(s)
  {
    assert expects == Padding ==> s[i - paddings] == PAD;
  }

  method IsValidBase64String(s: seq<byte>) returns (ok: bool)
    ensures ok <==> IsValid(s)
  {
    if |s| < 4 {
      return false;
    }
    var expects, chars, paddings := Char, 0, 0;
    for i := 0 to |s|
      invariant Seen(s, i, expects, chars, paddings)
    {
      var ch := s[i];
      match expects
      case Char =>
        if !IsChar(ch) {
          Rejected(s, i, expects, chars, paddings);
          return false;
        }
        chars := chars + 1;
        if chars >= 2 {
          expects := CharOrPadding;
        }
      case CharOrPadding =>
        if ch == PAD {
          expects, paddings := Padding, paddings + 1;
        } else if !IsChar(ch) {
          Rejected(s, i, expects, chars, paddings);
          return false;
        }
      case Padding =>
        if ch != PAD || paddings + 1 > 2 {
          Rejected(s, i, expects, chars, paddings);
          return false;
        }
        paddings := paddings + 1;
    }
    assert Shape(s, |s| - paddings);
    return true;
  }

  // --- encoding ---

  function Word24(a: byte, b: byte, c: byte): nat {
    a as int * 0x1_0000 + b as int * 0x100 + c as int
  }

  /** The four groups of six bits of 24 bits. */
  function Sextet(bs: nat, n: nat): (v: nat)
    requires n < 4
    ensures v < 64
  {
    if n == 0 then bs / 0x4_0000 % 64 else if n == 1 then bs / 0x1000 % 64 else if n == 2 then bs / 64 % 64
    else bs % 64
  }

  function EncodeGroup(bs: nat, n: nat): (r: seq<byte>)
    requires n <= 4
    ensures |r| == n
  {
    if n == 0 then [] else EncodeGroup(bs, n - 1) + [Alphabet(Sextet(bs, n - 1))]
  }

  /** Three bytes in four characters; one or two bytes at the end in two or three, and padding. */
  function Encode(s: seq<byte>): seq<byte>
    decreases |s|
  {
    if |s| == 0 then []
    else if |s| == 1 then EncodeGroup(Word24(s[0], 0, 0), 2) + [PAD, PAD]
    else if |s| == 2 then EncodeGroup(Word24(s[0], s[1], 0), 3) + [PAD]
    else EncodeGroup(Word24(s[0], s[1], s[2]), 4) + Encode(s[3..])
  }

  // --- decoding ---

  /** The outcome of decoding; the code does not check that a group is complete before it reads it. */
  datatype Outcome = Bytes(bytes: seq<byte>) | InvalidSequence | ReadPastTheEnd

  function Bits(c0: byte, c1: byte, c2: byte, c3: byte): nat {
    ((Value(c0) * 64 + Value(c1)) * 64 + (if c2 == PAD then 0 else Value(c2))) * 64
    + (if c3 == PAD then 0 else Value(c3))
  }

  /** The bytes of 24 bits, fewer with padding. */
  function BytesOf(bs: nat, paddings: nat): seq<byte> {
    [bs / 0x1_0000 % 256]
    + (if paddings < 2 then [bs / 0x100 % 256] else [])
    + (if paddings < 1 then [bs % 256] else [])
  }

  function DecodeGroup(c0: byte, c1: byte, c2: byte, c3: byte): seq<byte> {
    BytesOf(Bits(c0, c1, c2, c3), (if c2 == PAD then 1 else 0) + (if c3 == PAD then 1 else 0))
  }

  function Prepend(front: seq<byte>, r: Outcome): Outcome {
    if r.Bytes? then Bytes(front + r.bytes) else r
  }

  function DecodeGroups(s: seq<byte>): Outcome
    decreases |s|
  {
    if |s| == 0 then Bytes([])
    else if |s| < 4 then ReadPastTheEnd
    else Prepend(DecodeGroup(s[0], s[1], s[2], s[3]), DecodeGroups(s[4..]))
  }

  ghost function Decode(s: seq<byte>): Outcome {
    if IsValid(s) then DecodeGroups(s) else InvalidSequence
  }

  // --- the loops ---

  method EncodeString(s: seq<byte>) returns (result: seq<byte>)
    ensures result == Encode(s)
  {
    var remaining := |s| % 3;
    var i := |s| - remaining;
    result := EncodeWholeGroups(s, i);
    EncodeEnd(s, i);
    if remaining == 1 {
      result := result + (EncodeGroup(Word24(s[i], 0, 0), 2) + [PAD, PAD]);
    } else if remaining == 2 {
      result := result + (EncodeGroup(Word24(s[i], s[i + 1], 0), 3) + [PAD]);
    }
  }

  method EncodeWholeGroups(s: seq<byte>, end: nat) returns (result: seq<byte>)
    requires end <= |s| && end % 3 == 0
    ensures result + Encode(s[end..]) == Encode(s)
  {
    result := [];
    var i := 0;
    assert s[0..] == s;
    while i < end
      invariant i <= end && i % 3 == 0
      invariant result + Encode(s[i..]) == Encode(s)
    {
      MultiplesOfThree(i, end);
      EncodeNext(result, s, i);
      result := result + EncodeGroup(Word24(s[i], s[i + 1], s[i + 2]), 4);
      i := i + 3;
    }
  }

  lemma MultiplesOfThree(i: nat, end: nat)
    requires i < end && i % 3 == 0 && end % 3 == 0
    ensures i + 3 <= end && (i + 3) % 3 == 0
  {
  }

  lemma EncodeEnd(s: seq<byte>, i: nat)
    requires i <= |s| < i + 3
    ensures |s| == i ==> Encode(s[i..]) == []
    ensures |s| == i + 1 ==> Encode(s[i..]) == EncodeGroup(Word24(s[i], 0, 0), 2) + [PAD, PAD]
    ensures |s| == i + 2 ==> Encode(s[i..]) == EncodeGroup(Word24(s[i], s[i + 1], 0), 3) + [PAD]
  {
  }

  lemma EncodeNext(result: seq<byte>, s: seq<byte>, i: nat)
    requires i + 3 <= |s|
    ensures result + Encode(s[i..])
         == result + EncodeGroup(Word24(s[i], s[i + 1], s[i + 2]), 4) + Encode(s[i + 3..])
  {
    assert s[i..][3..] == s[i + 3..];
  }

  method TryDecode(s: seq<byte>) returns (r: Outcome)
    ensures r == Decode(s)
  {
    var ok := IsValidBase64String(s);
    if !ok {
      return InvalidSequence;
    }
    var result: seq<byte> := [];
    var i := 0;
    PrependNothing(DecodeGroups(s));
    assert s[0..] == s;
    while i < |s|
      invariant i <= |s|
      invariant DecodeGroups(s) == Prepend(result, DecodeGroups(s[i..]))
    {
      if i + 4 > |s| {
        return ReadPastTheEnd;
      }
      DecodeNext(result, s, i);
      result := result + DecodeGroup(s[i], s[i + 1], s[i + 2], s[i + 3]);
      i := i + 4;
    }
    return Bytes(result);
  }

  lemma PrependNothing(r: Outcome)
    ensures Prepend([], r) == r
  {
    if r.Bytes? {
      assert [] + r.bytes == r.bytes;
    }
  }

  lemma DecodeNext(result: seq<byte>, s: seq<byte>, i: nat)
    requires i + 4 <= |s|
    ensures Prepend(result, DecodeGroups(s[i..]))
         == Prepend(result + DecodeGroup(s[i], s[i + 1], s[i + 2], s[i + 3]), DecodeGroups(s[i + 4..]))
  {
    var group, rest := DecodeGroup(s[i], s[i + 1], s[i + 2], s[i + 3]), DecodeGroups(s[i + 4..]);
    assert s[i..][4..] == s[i + 4..];
    if rest.Bytes? {
      assert result + (group + rest.bytes) == result + group + rest.bytes;
    }
  }

  // --- the laws ---

  lemma Rebuild(bs: nat)
    requires bs < 0x100_0000
    ensures ((Sextet(bs, 0) * 64 + Sextet(bs, 1)) * 64 + Sextet(bs, 2)) * 64 + Sextet(bs, 3) == bs
  {
    var q := bs / 64;
    assert bs / 0x1000 == q / 64;
    assert bs / 0x4_0000 == q / 64 / 64;
  }

  lemma GroupChars(bs: nat, n: nat)
    requires 2 <= n <= 4
    ensures var g := EncodeGroup(bs, n);
            && IsChar(g[0]) && Value(g[0]) == Sextet(bs, 0) && IsChar(g[1]) && Value(g[1]) == Sextet(bs, 1)
            && (n > 2 ==> IsChar(g[2]) && Value(g[2]) == Sextet(bs, 2))
            && (n > 3 ==> IsChar(g[3]) && Value(g[3]) == Sextet(bs, 3))
  {
    CharAt(bs, n, 0);
    CharAt(bs, n, 1);
    if n > 2 {
      CharAt(bs, n, 2);
    }
    if n > 3 {
      CharAt(bs, n, 3);
    }
  }

  lemma {:induction false} CharAt(bs: nat, n: nat, i: nat)
    requires i < n <= 4
    ensures IsChar(EncodeGroup(bs, n)[i]) && Value(EncodeGroup(bs, n)[i]) == Sextet(bs, i)
    decreases n
  {
    if i < n - 1 {
      CharAt(bs, n - 1, i);
    } else {
      TablesAreInverse(Sextet(bs, i), 0x2B);
    }
  }

  lemma HighBytes(a: nat, b: nat, c: nat)
    requires b < 256 && c < 256
    ensures (a * 0x1_0000 + b * 0x100 + c) / 0x1_0000 == a
    ensures (a * 0x1_0000 + b * 0x100 + c) / 0x100 == a * 0x100 + b
    ensures (a * 0x1_0000 + b * 0x100 + c) % 0x100 == c
  {
  }

  lemma BytesOfWord(a: byte, b: byte, c: byte)
    ensures var bs := Word24(a, b, c);
            bs < 0x100_0000 && bs / 0x1_0000 % 256 == a && bs / 0x100 % 256 == b && bs % 256 == c
  {
    HighBytes(a, b, c);
  }

  lemma UnusedBits(a: byte, b: byte, c: byte)
    ensures c == 0 ==> Sextet(Word24(a, b, c), 3) == 0
    ensures b == c == 0 ==> Sextet(Word24(a, b, c), 2) == 0
  {
    assert b == c == 0 ==> Word24(a, b, c) / 64 == a as int * 0x400;
  }

  lemma BytesBack(a: byte, b: byte, c: byte, n: nat)
    requires 1 <= n <= 3
    ensures BytesOf(Word24(a, b, c), 3 - n) == [a, b, c][..n]
  {
    BytesOfWord(a, b, c);
  }

  lemma BitsBack(a: byte, b: byte, c: byte, n: nat)
    requires 1 <= n <= 3 && (n < 3 ==> c == 0) && (n < 2 ==> b == 0)
    ensures var g := EncodeGroup(Word24(a, b, c), n + 1);
            Bits(g[0], g[1], if n > 1 then g[2] else PAD, if n > 2 then g[3] else PAD) == Word24(a, b, c)
  {
    GroupChars(Word24(a, b, c), n + 1);
    UnusedBits(a, b, c);
    BytesOfWord(a, b, c);
    Rebuild(Word24(a, b, c));
  }

  /** A group of `n` bytes, padded, decodes to these bytes. */
  lemma GroupRoundTrip(a: byte, b: byte, c: byte, n: nat)
    requires 1 <= n <= 3 && (n < 3 ==> c == 0) && (n < 2 ==> b == 0)
    ensures var g := EncodeGroup(Word24(a, b, c), n + 1);
            DecodeGroup(g[0], g[1], if n > 1 then g[2] else PAD, if n > 2 then g[3] else PAD) == [a, b, c][..n]
  {
    GroupChars(Word24(a, b, c), n + 1);
    BitsBack(a, b, c, n);
    BytesBack(a, b, c, n);
  }

  lemma WholeGroup(a: byte, b: byte, c: byte, rest: seq<byte>)
    ensures DecodeGroups(EncodeGroup(Word24(a, b, c), 4) + rest) == Prepend([a, b, c], DecodeGroups(rest))
  {
    GroupRoundTrip(a, b, c, 3);
    DecodeFirst(EncodeGroup(Word24(a, b, c), 4), rest);
  }

  lemma LastGroup(group: seq<byte>)
    requires |group| == 4
    ensures DecodeGroups(group) == Bytes(DecodeGroup(group[0], group[1], group[2], group[3]))
  {
    assert group[4..] == [];
    assert DecodeGroup(group[0], group[1], group[2], group[3]) + [] == DecodeGroup(group[0], group[1], group[2], group[3]);
  }

  lemma LastByte(a: byte)
    ensures DecodeGroups(EncodeGroup(Word24(a, 0, 0), 2) + [PAD, PAD]) == Bytes([a])
  {
    GroupRoundTrip(a, 0, 0, 1);
    LastGroup(EncodeGroup(Word24(a, 0, 0), 2) + [PAD, PAD]);
  }

  lemma LastTwoBytes(a: byte, b: byte)
    ensures DecodeGroups(EncodeGroup(Word24(a, b, 0), 3) + [PAD]) == Bytes([a, b])
  {
    GroupRoundTrip(a, b, 0, 2);
    LastGroup(EncodeGroup(Word24(a, b, 0), 3) + [PAD]);
  }

  /** The first group of an encoding: four characters that decode to the first three bytes. */
  lemma {:induction false} FirstGroup(s: seq<byte>) returns (g: seq<byte>)
    requires |s| > 2
    ensures |g| == 4 && IsChar(g[0]) && IsChar(g[1]) && IsChar(g[2]) && IsChar(g[3])
    ensures Encode(s) == g + Encode(s[3..])
    ensures DecodeGroups(g + Encode(s[3..])) == Prepend([s[0], s[1], s[2]], DecodeGroups(Encode(s[3..])))
  {
    g := EncodeGroup(Word24(s[0], s[1], s[2]), 4);
    GroupChars(Word24(s[0], s[1], s[2]), 4);
    WholeGroup(s[0], s[1], s[2], Encode(s[3..]));
  }

  lemma {:induction false} LastGroupUndone(s: seq<byte>)
    requires |s| <= 2
    ensures DecodeGroups(Encode(s)) == Bytes(s)
  {
    if |s| == 1 {
      LastByte(s[0]);
    } else if |s| == 2 {
      LastTwoBytes(s[0], s[1]);
    }
  }

  lemma {:induction false} DecodeGroupsUndoesEncode(s: seq<byte>)
    ensures DecodeGroups(Encode(s)) == Bytes(s)
    decreases |s|
  {
    if |s| <= 2 {
      LastGroupUndone(s);
    } else {
      var g := FirstGroup(s);
      DecodeGroupsUndoesEncode(s[3..]);
      assert s == [s[0], s[1], s[2]] + s[3..];
    }
  }

  lemma DecodeFirst(group: seq<byte>, rest: seq<byte>)
    requires |group| == 4
    ensures DecodeGroups(group + rest) == Prepend(DecodeGroup(group[0], group[1], group[2], group[3]), DecodeGroups(rest))
  {
    assert (group + rest)[4..] == rest;
  }

  lemma ThreeLess(n: nat)
    requires n >= 3
    ensures (n + 2) / 3 == (n - 3 + 2) / 3 + 1
  {
  }

  lemma ShapeAfterGroup(g: seq<byte>, rest: seq<byte>, k: nat)
    requires |g| == 4 && forall i | 0 <= i < 4 :: IsChar(g[i])
    requires (|rest| == 0 && k == 0) || Shape(rest, k)
    ensures Shape(g + rest, k + 4)
  {
  }

  lemma {:induction false} LastShape(s: seq<byte>)
    requires 1 <= |s| <= 2
    ensures Shape(Encode(s), |s| + 1)
  {
    if |s| == 1 {
      GroupChars(Word24(s[0], 0, 0), 2);
    } else {
      GroupChars(Word24(s[0], s[1], 0), 3);
    }
  }

  lemma {:induction false} ShapeWithGroup(s: seq<byte>, k: nat)
    requires |s| > 2 && if |s| == 3 then k == 0 else Shape(Encode(s[3..]), k)
    ensures Shape(Encode(s), k + 4)
  {
    var g := FirstGroup(s);
    assert |s| == 3 ==> Encode(s[3..]) == [];
    ShapeAfterGroup(g, Encode(s[3..]), k);
  }

  /** The characters of an encoding that are not padding come first. */
  lemma {:induction false} EncodeShape(s: seq<byte>) returns (k: nat)
    ensures if |s| == 0 then k == 0 else Shape(Encode(s), k)
    decreases |s|
  {
    if |s| == 0 {
      k := 0;
    } else if |s| <= 2 {
      LastShape(s);
      k := |s| + 1;
    } else {
      k := EncodeShape(s[3..]);
      ShapeWithGroup(s, k);
      k := k + 4;
    }
  }

  lemma {:induction false} EncodeLength(s: seq<byte>)
    ensures |Encode(s)| == (|s| + 2) / 3 * 4
    decreases |s|
  {
    if |s| > 2 {
      var g := FirstGroup(s);
      EncodeLength(s[3..]);
      ThreeLess(|s|);
    }
  }

  /** Decoding undoes encoding for every non-empty string; the empty encoding is refused. */
  lemma {:induction false} DecodeUndoesEncode(s: seq<byte>)
    ensures |Encode(s)| == (|s| + 2) / 3 * 4
    ensures Decode(Encode(s)) == Bytes(s) <==> |s| > 0
    ensures |s| == 0 ==> Decode(Encode(s)) == InvalidSequence
  {
    EncodeLength(s);
    var k := EncodeShape(s);
    DecodeGroupsUndoesEncode(s);
    assert |s| > 0 ==> Shape(Encode(s), k);
  }

  function Text(s: seq<byte>): string {
    seq(|s|, i requires 0 <= i < |s| => s[i] as char)
  }

  /** Section 10 of RFC 4648: the texts "f", "fo" and "foo". */
  lemma {:induction false} KnownAnswers()
    ensures Text(Encode([0x66])) == "Zg==" && Text(Encode([0x66, 0x6F])) == "Zm8="
    ensures Text(Encode([0x66, 0x6F, 0x6F])) == "Zm9v"
  {
    FourChars(Word24(0x66, 0, 0), 25, 32, 0, 0);
    FourChars(Word24(0x66, 0x6F, 0), 25, 38, 60, 0);
    FourChars(Word24(0x66, 0x6F, 0x6F), 25, 38, 61, 47);
    var s: seq<byte> := [0x66, 0x6F, 0x6F];
    assert s[3..] == [];
  }

  function Join(v0: nat, v1: nat, v2: nat, v3: nat): nat {
    ((v0 * 64 + v1) * 64 + v2) * 64 + v3
  }

  lemma Sextets(v0: nat, v1: nat, v2: nat, v3: nat)
    requires v0 < 64 && v1 < 64 && v2 < 64 && v3 < 64
    ensures var bs := Join(v0, v1, v2, v3);
            Sextet(bs, 0) == v0 && Sextet(bs, 1) == v1 && Sextet(bs, 2) == v2 && Sextet(bs, 3) == v3
  {
    var bs := Join(v0, v1, v2, v3);
    assert bs / 64 == (v0 * 64 + v1) * 64 + v2;
    assert bs / 0x1000 == v0 * 64 + v1;
    assert bs / 0x4_0000 == v0;
  }

  /** The characters of a group are those of its four groups of six bits. */
  lemma FourChars(bs: nat, v0: nat, v1: nat, v2: nat, v3: nat)
    requires v0 < 64 && v1 < 64 && v2 < 64 && v3 < 64 && bs == Join(v0, v1, v2, v3)
    ensures EncodeGroup(bs, 2) == [Alphabet(v0), Alphabet(v1)]
    ensures EncodeGroup(bs, 3) == [Alphabet(v0), Alphabet(v1), Alphabet(v2)]
    ensures EncodeGroup(bs, 4) == [Alphabet(v0), Alphabet(v1), Alphabet(v2), Alphabet(v3)]
  {
    Sextets(v0, v1, v2, v3);
    assert EncodeGroup(bs, 1) == [Alphabet(v0)];
    assert EncodeGroup(bs, 2) == [Alphabet(v0), Alphabet(v1)];
    assert EncodeGroup(bs, 3) == [Alphabet(v0), Alphabet(v1), Alphabet(v2)];
  }

  // --- encoding what was decoded ---

  lemma DivideTwice(bs: nat)
    ensures bs / 0x100 / 0x100 == bs / 0x1_0000
  {
  }

  lemma LowByte(q: nat, r: nat)
    requires r < 0x100
    ensures (q * 0x100 + r) % 0x100 == r
  {
  }

  lemma LowTwoBytes(q: nat, r: nat)
    requires r < 0x1_0000
    ensures (q * 0x1_0000 + r) % 0x1_0000 == r
  {
  }

  lemma {:induction false} ThreeBytes(bs: nat) returns (a: byte, b: byte, c: byte)
    requires bs < 0x100_0000
    ensures a == bs / 0x1_0000 % 256 && b == bs / 0x100 % 256 && c == bs % 256 && Word24(a, b, c) == bs
  {
    var q := bs / 0x100;
    DivideTwice(bs);
    assert bs == q * 0x100 + bs % 0x100 && q == q / 0x100 * 0x100 + q % 0x100;
    assert q / 0x100 < 256;
    a, b, c := q / 0x100, q % 0x100, bs % 0x100;
  }

  lemma {:induction false} FullGroupBack(c0: byte, c1: byte, c2: byte, c3: byte)
    requires IsChar(c0) && IsChar(c1) && IsChar(c2) && IsChar(c3)
    ensures var d := DecodeGroup(c0, c1, c2, c3);
            |d| == 3 && EncodeGroup(Word24(d[0], d[1], d[2]), 4) == [c0, c1, c2, c3]
  {
    var bs := Join(Value(c0), Value(c1), Value(c2), Value(c3));
    assert Bits(c0, c1, c2, c3) == bs;
    var a, b, c := ThreeBytes(bs);
    FourChars(bs, Value(c0), Value(c1), Value(c2), Value(c3));
    TablesAreInverse(0, c0);
    TablesAreInverse(0, c1);
    TablesAreInverse(0, c2);
    TablesAreInverse(0, c3);
  }

  lemma LowTwoBits(v0: nat, v1: nat, v2: nat)
    requires v0 < 64 && v1 < 64 && v2 < 64
    ensures var bs := Join(v0, v1, v2, 0); bs - bs % 0x100 == Join(v0, v1, v2 - v2 % 4, 0)
  {
    var q := (v0 * 64 + v1) * 16 + v2 / 4;
    assert v2 == v2 / 4 * 4 + v2 % 4;
    assert Join(v0, v1, v2, 0) == q * 0x100 + v2 % 4 * 64;
    LowByte(q, v2 % 4 * 64);
  }

  lemma LowFourBits(v0: nat, v1: nat)
    requires v0 < 64 && v1 < 64
    ensures var bs := Join(v0, v1, 0, 0); bs - bs % 0x1_0000 == Join(v0, v1 - v1 % 16, 0, 0)
  {
    var q := v0 * 4 + v1 / 16;
    assert v1 == v1 / 16 * 16 + v1 % 16;
    assert Join(v0, v1, 0, 0) == q * 0x1_0000 + v1 % 16 * 0x1000;
    LowTwoBytes(q, v1 % 16 * 0x1000);
  }

  lemma {:induction false} DecodedTwo(c0: byte, c1: byte, c2: byte) returns (a: byte, b: byte)
    requires IsChar(c0) && IsChar(c1) && IsChar(c2)
    ensures DecodeGroup(c0, c1, c2, PAD) == [a, b]
    ensures Word24(a, b, 0) == Join(Value(c0), Value(c1), Value(c2) - Value(c2) % 4, 0)
  {
    var bs := Join(Value(c0), Value(c1), Value(c2), 0);
    PaddedBits(c0, c1, c2);
    a, b := HighBytesOf(bs);
    LowTwoBits(Value(c0), Value(c1), Value(c2));
  }

  lemma PaddedBits(c0: byte, c1: byte, c2: byte)
    requires IsChar(c2)
    ensures Bits(c0, c1, c2, PAD) == Join(Value(c0), Value(c1), Value(c2), 0) < 0x100_0000
    ensures Bits(c0, c1, PAD, PAD) == Join(Value(c0), Value(c1), 0, 0) < 0x100_0000
  {
  }

  /** The bytes that padding leaves, as the high bits of a number. */
  lemma HighBytesOf(bs: nat) returns (a: byte, b: byte)
    requires bs < 0x100_0000
    ensures BytesOf(bs, 1) == [a, b] && BytesOf(bs, 2) == [a]
    ensures Word24(a, b, 0) == bs - bs % 256 && Word24(a, 0, 0) == bs - bs % 0x1_0000
  {
    var c;
    a, b, c := ThreeBytes(bs);
    LowByte(a * 0x100 + b, c);
    LowTwoBytes(a, b * 0x100 + c);
  }

  lemma {:induction false} DecodedOne(c0: byte, c1: byte) returns (a: byte)
    requires IsChar(c0) && IsChar(c1)
    ensures DecodeGroup(c0, c1, PAD, PAD) == [a]
    ensures Word24(a, 0, 0) == Join(Value(c0), Value(c1) - Value(c1) % 16, 0, 0)
  {
    var bs := Join(Value(c0), Value(c1), 0, 0);
    PaddedBits(c0, c1, c1);
    var b;
    a, b := HighBytesOf(bs);
    LowFourBits(Value(c0), Value(c1));
  }

  lemma EncodedTwo(a: byte, b: byte, v0: nat, v1: nat, v2: nat)
    requires v0 < 64 && v1 < 64 && v2 < 64 && Word24(a, b, 0) == Join(v0, v1, v2, 0)
    ensures Encode([a, b]) == [Alphabet(v0), Alphabet(v1), Alphabet(v2), PAD]
  {
    FourChars(Word24(a, b, 0), v0, v1, v2, 0);
  }

  lemma EncodedOne(a: byte, v0: nat, v1: nat)
    requires v0 < 64 && v1 < 64 && Word24(a, 0, 0) == Join(v0, v1, 0, 0)
    ensures Encode([a]) == [Alphabet(v0), Alphabet(v1), PAD, PAD]
  {
    FourChars(Word24(a, 0, 0), v0, v1, 0, 0);
  }

  lemma SameChar(c: byte, v: nat)
    requires IsChar(c) && v < 64
    ensures Alphabet(v) == c <==> v == Value(c)
  {
    TablesAreInverse(v, c);
  }

  lemma {:induction false} LastTwoBack(c0: byte, c1: byte, c2: byte)
    requires IsChar(c0) && IsChar(c1) && IsChar(c2)
    ensures Encode(DecodeGroup(c0, c1, c2, PAD)) == [c0, c1, c2, PAD] <==> Value(c2) % 4 == 0
  {
    var v0, v1, v2 := Value(c0), Value(c1), Value(c2) - Value(c2) % 4;
    var a, b := DecodedTwo(c0, c1, c2);
    EncodedTwo(a, b, v0, v1, v2);
    SameChar(c0, v0);
    SameChar(c1, v1);
    SameChar(c2, v2);
    ClearedBits(Value(c2), 4);
    SameFour([c0, c1, c2, PAD], [c0, c1, Alphabet(v2), PAD]);
  }

  lemma ClearedBits(v: nat, n: nat)
    requires n > 0
    ensures 0 <= v - v % n && (v - v % n == v <==> v % n == 0)
  {
  }

  lemma SameFour(a: seq<byte>, b: seq<byte>)
    requires |a| == |b| == 4
    ensures a == b <==> a[0] == b[0] && a[1] == b[1] && a[2] == b[2] && a[3] == b[3]
  {
  }

  lemma SameSecond(c0: byte, a: byte, b: byte)
    ensures [c0, a, PAD, PAD] == [c0, b, PAD, PAD] <==> a == b
  {
    SameFour([c0, a, PAD, PAD], [c0, b, PAD, PAD]);
  }

  lemma {:induction false} OneByteBack(c0: byte, c1: byte, v: nat)
    requires IsChar(c0) && IsChar(c1) && v == Value(c1) - Value(c1) % 16
    ensures Encode(DecodeGroup(c0, c1, PAD, PAD)) == [c0, Alphabet(v), PAD, PAD]
  {
    var a := DecodedOne(c0, c1);
    EncodedOne(a, Value(c0), v);
    TablesAreInverse(0, c0);
  }

  lemma {:induction false} LastOneBack(c0: byte, c1: byte)
    requires IsChar(c0) && IsChar(c1)
    ensures Encode(DecodeGroup(c0, c1, PAD, PAD)) == [c0, c1, PAD, PAD] <==> Value(c1) % 16 == 0
  {
    var v := Value(c1) - Value(c1) % 16;
    OneByteBack(c0, c1, v);
    SameChar(c1, v);
    SameSecond(c0, Alphabet(v), c1);
  }

  /** The bits that the padding leaves unused are zero. */
  predicate UnusedBitsAreZero(s: seq<byte>)
    requires |s| >= 4
  {
    var n := |s|;
    if s[n - 1] != PAD then true
    else if s[n - 2] != PAD then Value(s[n - 2]) % 4 == 0
    else Value(s[n - 3]) % 16 == 0
  }

  lemma {:induction false} LastGroupBack(s: seq<byte>)
    requires |s| == 4 && IsValid(s)
    ensures DecodeGroups(s).Bytes? && (Encode(DecodeGroups(s).bytes) == s <==> UnusedBitsAreZero(s))
  {
    var k: nat :| Shape(s, k);
    LastGroup(s);
    if k == 4 {
      FullGroupBack(s[0], s[1], s[2], s[3]);
      var d := DecodeGroups(s).bytes;
      assert d[3..] == [] && EncodeGroup(Word24(d[0], d[1], d[2]), 4) + [] == s;
    } else if k == 3 {
      LastTwoBack(s[0], s[1], s[2]);
      assert s == [s[0], s[1], s[2], PAD];
    } else {
      LastOneBack(s[0], s[1]);
      assert s == [s[0], s[1], PAD, PAD];
    }
  }

  lemma {:induction false} TailIsValid(s: seq<byte>)
    requires IsValid(s) && |s| >= 8
    ensures IsValid(s[4..]) && UnusedBitsAreZero(s[4..]) == UnusedBitsAreZero(s)
    ensures IsChar(s[0]) && IsChar(s[1]) && IsChar(s[2]) && IsChar(s[3])
  {
    var k: nat :| Shape(s, k);
    assert Shape(s[4..], k - 4);
  }

  lemma {:induction false} GroupInFront(s: seq<byte>, rest: seq<byte>)
    requires |s| >= 4 && IsChar(s[0]) && IsChar(s[1]) && IsChar(s[2]) && IsChar(s[3])
    requires DecodeGroups(s[4..]) == Bytes(rest)
    ensures DecodeGroups(s).Bytes? && Encode(DecodeGroups(s).bytes) == s[..4] + Encode(rest)
  {
    FullGroupBack(s[0], s[1], s[2], s[3]);
    EncodedInFront(s[..4], DecodeGroup(s[0], s[1], s[2], s[3]), rest);
  }

  lemma {:induction false} EncodedInFront(front: seq<byte>, d: seq<byte>, rest: seq<byte>)
    requires |d| == 3 && |front| == 4
    requires EncodeGroup(Word24(d[0], d[1], d[2]), 4) == [front[0], front[1], front[2], front[3]]
    ensures Encode(d + rest) == front + Encode(rest)
  {
    assert (d + rest)[3..] == rest;
    assert front == [front[0], front[1], front[2], front[3]];
  }

  /** Encoding what was decoded gives the same characters, for every valid string whose length is a multiple
      of four, exactly when the bits that the padding leaves unused are zero. */
  lemma {:induction false} EncodeUndoesDecode(s: seq<byte>)
    requires IsValid(s) && |s| % 4 == 0
    ensures Decode(s).Bytes? && (Encode(Decode(s).bytes) == s <==> UnusedBitsAreZero(s))
    decreases |s|
  {
    if |s| == 4 {
      LastGroupBack(s);
    } else {
      FourLess(|s|);
      TailIsValid(s);
      EncodeUndoesDecode(s[4..]);
      var rest := Decode(s[4..]).bytes;
      GroupInFront(s, rest);
      SameFront(s[..4], Encode(rest), s[4..]);
      assert s == s[..4] + s[4..];
    }
  }

  lemma SameFront(front: seq<byte>, a: seq<byte>, b: seq<byte>)
    ensures front + a == front + b <==> a == b
  {
    if front + a == front + b {
      assert a == (front + a)[|front|..] == (front + b)[|front|..] == b;
    }
  }

  lemma {:induction false} GroupsAreComplete(s: seq<byte>)
    ensures DecodeGroups(s) == ReadPastTheEnd <==> |s| % 4 != 0
    ensures DecodeGroups(s) != InvalidSequence
    decreases |s|
  {
    if |s| >= 4 {
      GroupsAreComplete(s[4..]);
      FourLess(|s|);
    }
  }

  lemma FourLess(n: nat)
    requires n >= 4
    ensures (n - 4) % 4 == n % 4
  {
  }

  /** The automaton does not look at the length: reads stay in range exactly on multiples of four. */
  lemma {:induction false} ReadsStayInRange(s: seq<byte>)
    requires IsValid(s)
    ensures Decode(s) == ReadPastTheEnd <==> |s| % 4 != 0
    ensures Decode(s).Bytes? <==> |s| % 4 == 0
  {
    GroupsAreComplete(s);
  }

  /** Five letters 'A' pass the automaton, and the second group is then read past its end. */
  lemma {:induction false} FiveCharactersPass()
    ensures var s: seq<byte> := [0x41, 0x41, 0x41, 0x41, 0x41]; IsValid(s) && Decode(s) == ReadPastTheEnd
  {
    var s: seq<byte> := [0x41, 0x41, 0x41, 0x41, 0x41];
    assert Shape(s, 5);
    ReadsStayInRange(s);
  }
}
