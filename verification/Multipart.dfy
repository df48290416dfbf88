/** Splitting a multipart body at its boundary. */
module Multipart {
  import opened Bytes

  const EOL: string := "\r\n"
  const LAST_SEPARATOR: string := "--\r\n"

  /** `string_view::find`: the first occurrence. */
  function Find(s: string, sub: string): (r: Option<nat>)
    ensures r.Some? ==> OccursAt(s, sub, r.value) && forall i | 0 <= i < r.value :: !OccursAt(s, sub, i)
    ensures r.None? ==> forall i: nat :: !OccursAt(s, sub, i)
  {
    FindFrom(s, sub, 0)
  }

  function FindFrom(s: string, sub: string, from: nat): (r: Option<nat>)
    requires from <= |s|
    requires forall i | 0 <= i < from :: !OccursAt(s, sub, i)
    ensures r.Some? ==> OccursAt(s, sub, r.value) && forall i | 0 <= i < r.value :: !OccursAt(s, sub, i)
    ensures r.None? ==> forall i: nat :: !OccursAt(s, sub, i)
    decreases |s| - from
  {
    if OccursAt(s, sub, from) then Some(from)
    else if from == |s| then None
    else FindFrom(s, sub, from + 1)
  }

  /** Is the text before `at` an end of line? */
  predicate EndsLineAt(s: string, at: nat)
    requires at <= |s|
  {
    at >= |EOL| && s[at - |EOL|..at] == EOL
  }

  /** After a boundary that is not the last one: the next part, and what follows the boundary after it. */
  function Next(rest: string, boundary: string): (r: Option<(string, string)>)
    ensures r.Some? ==> |r.value.1| < |rest|
  {
    if !(EOL <= rest) then None
    else
      var text := rest[|EOL|..];
      match Find(text, boundary)
      case None => None
      case Some(at) =>
        if EndsLineAt(text, at) then Some((text[..at - |EOL|], text[at + |boundary|..])) else None
  }

  /** The parts of the text after a boundary that is not the last one. */
  function Collect(rest: string, boundary: string): Option<seq<string>>
    decreases |rest|
  {
    match Next(rest, boundary)
    case None => None
    case Some((part, after)) =>
      if LAST_SEPARATOR <= after then Some([part]) else Prepend([part], Collect(after, boundary))
  }

  /** Where the text after the first boundary begins, if the first boundary is in a legal place. */
  function Start(body: string, boundary: string): (r: Option<nat>)
    ensures r.Some? ==> r.value <= |body|
  {
    match Find(body, boundary)
    case None => None
    case Some(at) => if at == 0 || EndsLineAt(body, at) then Some(at + |boundary|) else None
  }

  /** What `split_multipart_body` returns. */
  function Split(body: string, boundary: string): seq<string> {
    match Start(body, boundary)
    case None => []
    case Some(start) =>
      var rest := body[start..];
      if LAST_SEPARATOR <= rest then [] else PartsOrNothing(Collect(rest, boundary))
  }

  function PartsOrNothing(o: Option<seq<string>>): seq<string> {
    if o.None? then [] else o.value
  }

  method SplitMultipartBody(body: string, boundary: string) returns (result: seq<string>)
    ensures result == Split(body, boundary)
  {
    var start := FindStart(body, boundary);
    if start.None? {
      return [];
    }
    var remaining := body[start.value..];
    if LAST_SEPARATOR <= remaining {
      return [];
    }
    result := SplitRemaining(remaining, boundary);
  }

  /** The search for the first boundary. */
  method FindStart(body: string, boundary: string) returns (start: Option<nat>)
    ensures start == Start(body, boundary)
  {
    var boundaryPos := Find(body, boundary);
    if boundaryPos.None? {
      return None;
    }
    if boundaryPos.value != 0 && !EndsLineAt(body, boundaryPos.value) {
      return None;
    }
    return Some(boundaryPos.value + |boundary|);
  }

  /** The loop of `split_multipart_body`. */
  method SplitRemaining(first: string, boundary: string) returns (result: seq<string>)
    ensures result == PartsOrNothing(Collect(first, boundary))
  {
    var remaining := first;
    var tmp: seq<string> := [];
    PrependNothing(Collect(first, boundary));
    while EOL <= remaining
      invariant Collect(first, boundary) == Prepend(tmp, Collect(remaining, boundary))
      decreases |remaining|
    {
      ghost var here := remaining;
      remaining := remaining[|EOL|..];
      var boundaryPos := Find(remaining, boundary);
      if boundaryPos.None? || !EndsLineAt(remaining, boundaryPos.value) {
        assert Next(here, boundary) == None;
        return [];
      }
      ghost var before := tmp;
      var part := remaining[..boundaryPos.value - |EOL|];
      tmp := tmp + [part];
      remaining := remaining[boundaryPos.value + |boundary|..];
      assert Next(here, boundary) == Some((part, remaining));
      if LAST_SEPARATOR <= remaining {
        return tmp;
      }
      PrependStep(before, part, Collect(remaining, boundary));
    }
    return [];
  }

  /** Parts found earlier, in front of what the rest gives. */
  function Prepend(front: seq<string>, o: Option<seq<string>>): Option<seq<string>> {
    if o.None? then None else Some(front + o.value)
  }

  lemma PrependNothing(o: Option<seq<string>>)
    ensures Prepend([], o) == o
  {
    if o.Some? {
      assert [] + o.value == o.value;
    }
  }

  lemma PrependStep(before: seq<string>, part: string, o: Option<seq<string>>)
    ensures Prepend(before, Prepend([part], o)) == Prepend(before + [part], o)
  {
    if o.Some? {
      assert before + ([part] + o.value) == (before + [part]) + o.value;
    }
  }

  // --- the form of a multipart body: section 5.1.1 of RFC 2046, without transport padding ---

  predicate Free(text: string, boundary: string) {
    forall i | 0 <= i <= |text| :: !OccursAt(text, boundary, i)
  }

  /** What follows the first boundary: every part on lines of its own, each closed by a boundary. */
  function Sections(boundary: string, parts: seq<string>): string
    decreases |parts|
  {
    if |parts| == 0 then [] else "\r\n" + parts[0] + "\r\n" + boundary + Sections(boundary, parts[1..])
  }

  function Render(preamble: string, boundary: string, parts: seq<string>, epilogue: string): string {
    preamble + (boundary + (Sections(boundary, parts) + ("--\r\n" + epilogue)))
  }

  predicate IsPreamble(preamble: string, boundary: string) {
    Free(preamble, boundary) && (preamble == [] || EndsLineAt(preamble, |preamble|))
  }

  predicate AllFree(parts: seq<string>, boundary: string) {
    forall i | 0 <= i < |parts| :: Free(parts[i], boundary)
  }

  predicate IsMultipart(body: string, boundary: string, preamble: string, parts: seq<string>, epilogue: string) {
    && parts != [] && body == Render(preamble, boundary, parts, epilogue)
    && IsPreamble(preamble, boundary) && AllFree(parts, boundary)
  }

  // --- boundaries ---

  predicate IsBcharNoSpace(c: char) {
    || '0' <= c <= '9' || 'A' <= c <= 'Z' || 'a' <= c <= 'z'
    || c in {'\'', '(', ')', '+', '_', ',', '-', '.', '/', ':', '=', '?'}
  }

  predicate IsBchar(c: char) {
    IsBcharNoSpace(c) || c == ' '
  }

  /** The list bcharsnospace of section 5.1.1 of RFC 2046: DIGIT, ALPHA and these. */
  lemma BcharsByName(c: char)
    ensures IsBcharNoSpace(c) <==>
              '0' <= c <= '9' || 'A' <= c <= 'Z' || 'a' <= c <= 'z' || c in "'()+_,-./:=?"
    ensures IsBchar(c) <==> IsBcharNoSpace(c) || c in " "
  {
  }

  /** boundary := 0*69<bchars> bcharsnospace. */
  predicate IsBoundaryValue(value: string) {
    && 1 <= |value| <= 70
    && (forall i | 0 <= i < |value| :: IsBchar(value[i]))
    && IsBcharNoSpace(value[|value| - 1])
  }

  function Letters(n: nat): (r: string)
    ensures |r| == n
  {
    seq(n, _ => 'x')
  }

  /** The lengths: one to seventy characters; and no space at the end. */
  lemma BoundaryLengths()
    ensures !IsBoundaryValue("") && IsBoundaryValue(Letters(1)) && IsBoundaryValue(Letters(70))
    ensures !IsBoundaryValue(Letters(71)) && IsBoundaryValue("x y") && !IsBoundaryValue("xy ")
  {
  }

  /** `check_boundary_value`; true stands for "no error". */
  method CheckBoundaryValue(value: string) returns (ok: bool)
    ensures ok == IsBoundaryValue(value)
  {
    if !(1 <= |value| <= 70) {
      return false;
    }
    var last := |value| - 1;
    var i := 0;
    while i != last
      invariant 0 <= i <= last
      invariant forall j | 0 <= j < i :: IsBchar(value[j])
      decreases last - i
    {
      if !IsBchar(value[i]) {
        return false;
      }
      i := i + 1;
    }
    return IsBcharNoSpace(value[last]);
  }

  /** The boundary that the splitter is given has two hyphens in front of the checked value. */
  predicate IsBoundaryMark(boundary: string) {
    |boundary| > 2 && boundary[..2] == "--" && IsBoundaryValue(boundary[2..])
  }

  lemma MarkHasNoLineEnd(boundary: string, i: nat)
    requires IsBoundaryMark(boundary) && i < |boundary|
    ensures boundary[i] != '\r' && boundary[i] != '\n'
  {
    if i < 2 {
      assert boundary[i] == boundary[..2][i];
    } else {
      assert boundary[i] == boundary[2..][i - 2];
    }
  }

  // --- splitting undoes rendering, and finds nothing else ---

  /** No occurrence of the boundary straddles a line end. */
  lemma FirstAfterLineEnd(text: string, boundary: string, rest: string)
    requires IsBoundaryMark(boundary) && Free(text, boundary)
    ensures Find(text + EOL + boundary + rest, boundary) == Some(|text| + 2)
  {
    var s := text + EOL + boundary + rest;
    assert s[|text|] == '\r' && s[|text| + 1] == '\n';
    assert s[|text| + 2..|text| + 2 + |boundary|] == boundary;
    assert OccursAt(s, boundary, |text| + 2);
    forall i | 0 <= i < |text| + 2
      ensures !OccursAt(s, boundary, i)
    {
      if OccursAt(s, boundary, i) {
        if i + |boundary| <= |text| {
          assert text[i..i + |boundary|] == s[i..i + |boundary|];
          assert OccursAt(text, boundary, i);
        } else {
          var k := if i <= |text| then |text| else |text| + 1;
          assert s[i..i + |boundary|][k - i] == s[k];
          MarkHasNoLineEnd(boundary, k - i);
        }
      }
    }
  }

  lemma FirstAtStart(boundary: string, rest: string)
    ensures Find(boundary + rest, boundary) == Some(0)
  {
    assert (boundary + rest)[0..|boundary|] == boundary;
    assert OccursAt(boundary + rest, boundary, 0);
  }

  /** One section is taken off exactly. */
  lemma NextSection(part: string, boundary: string, after: string)
    requires IsBoundaryMark(boundary) && Free(part, boundary)
    ensures Next(EOL + part + EOL + boundary + after, boundary) == Some((part, after))
  {
    var rest := EOL + part + EOL + boundary + after;
    var text := part + EOL + boundary + after;
    assert rest == EOL + text;
    SectionSlices(part, boundary, after);
    FirstAfterLineEnd(part, boundary, after);
    NextUnfolds(rest, text, boundary, |part| + 2);
  }

  lemma SectionSlices(part: string, boundary: string, after: string)
    ensures var text := part + EOL + boundary + after;
            && text[..|part|] == part && EndsLineAt(text, |part| + 2)
            && text[|part| + 2 + |boundary|..] == after
  {
    var text := part + EOL + boundary + after;
    assert text[|part|..|part| + 2] == EOL;
  }

  lemma NextUnfolds(rest: string, text: string, boundary: string, at: nat)
    requires rest == EOL + text && Find(text, boundary) == Some(at) && EndsLineAt(text, at)
    ensures Next(rest, boundary) == Some((text[..at - 2], text[at + |boundary|..]))
  {
    assert rest[2..] == text;
  }

  lemma CollectUnfolds(rest: string, boundary: string, part: string, after: string)
    requires Next(rest, boundary) == Some((part, after))
    ensures Collect(rest, boundary)
         == if LAST_SEPARATOR <= after then Some([part]) else Prepend([part], Collect(after, boundary))
  {
  }

  lemma {:induction false} CollectSections(boundary: string, parts: seq<string>, epilogue: string)
    requires IsBoundaryMark(boundary) && parts != [] && AllFree(parts, boundary)
    ensures Collect(Sections(boundary, parts) + (LAST_SEPARATOR + epilogue), boundary) == Some(parts)
    decreases |parts|
  {
    var end := LAST_SEPARATOR + epilogue;
    var tail := Sections(boundary, parts[1..]) + end;
    SectionsFirst(boundary, parts, end);
    NextSection(parts[0], boundary, tail);
    CollectUnfolds(Sections(boundary, parts) + end, boundary, parts[0], tail);
    assert parts == [parts[0]] + parts[1..];
    if |parts| == 1 {
      assert parts == [parts[0]];
      assert Sections(boundary, parts[1..]) == [];
      assert tail == end;
      assert LAST_SEPARATOR <= tail;
    } else {
      NextSectionIsNotLast(boundary, parts[1..], end);
      CollectSections(boundary, parts[1..], epilogue);
    }
  }

  lemma SectionsFirst(boundary: string, parts: seq<string>, rest: string)
    requires parts != []
    ensures Sections(boundary, parts) + rest
         == EOL + parts[0] + EOL + boundary + (Sections(boundary, parts[1..]) + rest)
  {
  }

  lemma NextSectionIsNotLast(boundary: string, parts: seq<string>, rest: string)
    requires parts != []
    ensures !(LAST_SEPARATOR <= Sections(boundary, parts) + rest)
  {
    assert (Sections(boundary, parts) + rest)[0] == '\r';
  }

  /** Splitting undoes rendering. */
  lemma {:induction false} SplitRendered(preamble: string, boundary: string, parts: seq<string>, epilogue: string)
    requires IsBoundaryMark(boundary) && IsPreamble(preamble, boundary)
    requires parts != [] && AllFree(parts, boundary)
    ensures Split(Render(preamble, boundary, parts, epilogue), boundary) == parts
  {
    NextSectionIsNotLast(boundary, parts, LAST_SEPARATOR + epilogue);
    CollectSections(boundary, parts, epilogue);
    SplitAfterPreamble(preamble, boundary, Sections(boundary, parts) + (LAST_SEPARATOR + epilogue));
  }

  lemma SplitAfterPreamble(preamble: string, boundary: string, rest: string)
    requires IsBoundaryMark(boundary) && IsPreamble(preamble, boundary) && !(LAST_SEPARATOR <= rest)
    ensures Split(preamble + (boundary + rest), boundary) == PartsOrNothing(Collect(rest, boundary))
  {
    StartAfterPreamble(preamble, boundary, rest);
    SplitUnfolds(preamble + (boundary + rest), boundary, |preamble| + |boundary|, rest);
  }

  lemma SplitUnfolds(body: string, boundary: string, start: nat, rest: string)
    requires Start(body, boundary) == Some(start) && rest == body[start..] && !(LAST_SEPARATOR <= rest)
    ensures Split(body, boundary) == PartsOrNothing(Collect(rest, boundary))
  {
  }

  lemma StartAfterPreamble(preamble: string, boundary: string, rest: string)
    requires IsBoundaryMark(boundary) && IsPreamble(preamble, boundary)
    ensures var body := preamble + (boundary + rest);
            && Start(body, boundary) == Some(|preamble| + |boundary|)
            && body[|preamble| + |boundary|..] == rest
  {
    var body := preamble + (boundary + rest);
    if preamble == [] {
      assert body == boundary + rest;
      FirstAtStart(boundary, rest);
    } else {
      var text := preamble[..|preamble| - 2];
      assert preamble == text + EOL;
      FreePrefix(preamble, text, boundary);
      assert body == text + EOL + boundary + rest;
      FirstAfterLineEnd(text, boundary, rest);
      assert body[|preamble| - 2..|preamble|] == EOL;
    }
  }

  lemma FreePrefix(whole: string, text: string, boundary: string)
    requires text <= whole && Free(whole, boundary)
    ensures Free(text, boundary)
  {
    forall i | 0 <= i <= |text|
      ensures !OccursAt(text, boundary, i)
    {
      if OccursAt(text, boundary, i) {
        assert whole[i..i + |boundary|] == text[i..i + |boundary|];
        assert OccursAt(whole, boundary, i);
      }
    }
  }

  /** What lies before the first occurrence contains none. */
  lemma BeforeFirstIsFree(s: string, boundary: string)
    requires boundary != [] && Find(s, boundary).Some?
    ensures Free(s[..Find(s, boundary).value], boundary)
  {
    var at := Find(s, boundary).value;
    forall i | 0 <= i <= at
      ensures !OccursAt(s[..at], boundary, i)
    {
      if OccursAt(s[..at], boundary, i) {
        assert s[i..i + |boundary|] == s[..at][i..i + |boundary|];
        assert OccursAt(s, boundary, i);
      }
    }
  }

  /** Whatever is collected was laid out as sections of boundary-free parts. */
  lemma {:induction false} CollectedIsSections(rest: string, boundary: string) returns (epilogue: string)
    requires boundary != [] && Collect(rest, boundary).Some?
    ensures var parts := Collect(rest, boundary).value;
            && parts != [] && AllFree(parts, boundary)
            && rest == Sections(boundary, parts) + (LAST_SEPARATOR + epilogue)
    decreases |rest|
  {
    var (part, after) := Next(rest, boundary).value;
    NextIsSection(rest, boundary);
    var parts := Collect(rest, boundary).value;
    assert parts[0] == part;
    if LAST_SEPARATOR <= after {
      epilogue := after[4..];
      assert after == LAST_SEPARATOR + epilogue;
      assert Sections(boundary, parts[1..]) + after == after;
    } else {
      epilogue := CollectedIsSections(after, boundary);
      assert parts[1..] == Collect(after, boundary).value;
    }
    SectionsFirst(boundary, parts, LAST_SEPARATOR + epilogue);
  }

  lemma NextIsSection(rest: string, boundary: string)
    requires boundary != [] && Next(rest, boundary).Some?
    ensures var (part, after) := Next(rest, boundary).value;
            Free(part, boundary) && rest == EOL + part + EOL + boundary + after
  {
    var text := rest[2..];
    var at := Find(text, boundary).value;
    BeforeFirstIsFree(text, boundary);
    FreePrefix(text[..at], text[..at - 2], boundary);
    OneSection(rest, text, boundary, at);
  }

  lemma OneSection(rest: string, text: string, boundary: string, at: nat)
    requires EOL <= rest && text == rest[2..] && OccursAt(text, boundary, at) && EndsLineAt(text, at)
    ensures rest == EOL + text[..at - 2] + EOL + boundary + text[at + |boundary|..]
  {
    assert rest == EOL + text;
    assert text == text[..at - 2] + text[at - 2..at] + text[at..at + |boundary|] + text[at + |boundary|..];
  }

  lemma {:induction false} SplitFindsMultipart(body: string, boundary: string)
    returns (preamble: string, epilogue: string)
    requires boundary != [] && Split(body, boundary) != []
    ensures IsMultipart(body, boundary, preamble, Split(body, boundary), epilogue)
  {
    preamble := PreambleBeforeStart(body, boundary);
    epilogue := CollectedIsSections(body[Start(body, boundary).value..], boundary);
  }

  lemma PreambleBeforeStart(body: string, boundary: string) returns (preamble: string)
    requires boundary != [] && Start(body, boundary).Some?
    ensures IsPreamble(preamble, boundary)
    ensures body == preamble + (boundary + body[Start(body, boundary).value..])
  {
    var at := Find(body, boundary).value;
    preamble := body[..at];
    BeforeFirstIsFree(body, boundary);
    assert body == body[..at] + (body[at..at + |boundary|] + body[at + |boundary|..]);
    if at != 0 {
      assert preamble[at - 2..at] == body[at - 2..at];
    }
  }

  /** The splitter returns some parts exactly when the body is a multipart body of these parts: preamble,
      parts on lines of their own without the boundary in them, and a closing boundary. */
  lemma {:induction false} SplitsExactlyMultipartBodies(body: string, boundary: string, parts: seq<string>)
    requires IsBoundaryMark(boundary) && parts != []
    ensures Split(body, boundary) == parts
       <==> exists preamble, epilogue :: IsMultipart(body, boundary, preamble, parts, epilogue)
  {
    if Split(body, boundary) == parts {
      var preamble, epilogue := SplitFindsMultipart(body, boundary);
    }
    forall preamble, epilogue | IsMultipart(body, boundary, preamble, parts, epilogue)
      ensures Split(body, boundary) == parts
    {
      SplitRendered(preamble, boundary, parts, epilogue);
    }
  }
}
