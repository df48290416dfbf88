/** The parser as it runs: one mutable position, targets updated in place, and acquired input given
    back on the way out; proved to do what the pure meaning says. */
module EasyParser {
  import opened Bytes
  import opened ParserSemantics

  /** `source_t`. */
  class Source {
    const data: string
    var index: nat

    ghost predicate Valid()
      reads this
    {
      index <= |data|
    }

    constructor (data: string)
      ensures Valid() && this.data == data && index == 0
    {
      this.data := data;
      index := 0;
    }

    /** `getch`: nothing at the end of input. */
    method Getch() returns (ch: Option<char>)
      requires Valid()
      modifies this
      ensures Valid()
      ensures old(index) < |data| ==> ch == Some(data[old(index)]) && index == old(index) + 1
      ensures old(index) == |data| ==> ch == None && index == old(index)
    {
      if index < |data| {
        ch := Some(data[index]);
        index := index + 1;
      } else {
        ch := None;
      }
    }

    method Putback()
      requires Valid()
      modifies this
      ensures Valid() && index == if old(index) > 0 then old(index) - 1 else 0
    {
      if index > 0 {
        index := index - 1;
      }
    }

    /** `backto`, as the destructor of `content_consumer_t` calls it. */
    method BackTo(pos: nat)
      modifies this
      ensures index == if pos <= |data| then pos else old(index)
    {
      if pos <= |data| {
        index := pos;
      }
    }
  }

  /** A target object passed by reference. */
  class Target {
    var value: Value

    constructor (value: Value)
      ensures this.value == value
    {
      this.value := value;
    }
  }

  datatype Result = Success(value: Value) | Failure(error: ParseError)

  /** A producer's run: on success its value and end position; on failure its error, but the position
      may have moved. */
  ghost predicate Runs(r: Result, end: nat, p: Producer, s: string, pos: nat)
    requires pos <= |s|
  {
    match Parse(p, s, pos)
    case Produced(stop, v) => r == Success(v) && end == stop
    case NotProduced(e) => r == Failure(e)
  }

  /** A list of clauses run in order; on failure the position may have moved. */
  ghost predicate RunsAll(err: Option<ParseError>, end: nat, now: Value, cs: seq<Clause>, s: string, pos: nat, v: Value)
    requires pos <= |s|
  {
    match All(cs, s, pos, v)
    case Ok(stop, v1) => err == None && end == stop && now == v1
    case Err(e, v1) => err == Some(e) && now == v1
  }

  /** A clause's run: only a consuming clause may leave the position moved when it fails. */
  ghost predicate RunsClause(err: Option<ParseError>, end: nat, now: Value, c: Clause, s: string, pos: nat, v: Value)
    requires pos <= |s|
  {
    match Process(c, s, pos, v)
    case Ok(stop, v1) => err == None && end == stop && now == v1
    case Err(e, v1) => err == Some(e) && now == v1 && (c.Consume? || end == pos)
  }

  method TryParseExactFragment(from: Source, fragment: string) returns (r: Result)
    requires from.Valid() && fragment != []
    modifies from
    ensures from.Valid()
    ensures match ParseExact(from.data, old(from.index), fragment)
            case Produced(stop, v) => r == Success(v) && from.index == stop
            case NotProduced(e) => r == Failure(e) && from.index == old(from.index)
  {
    var startedAt := from.index;
    var at := 0;
    var ch := from.Getch();
    while ch.Some?
      invariant from.Valid() && 0 <= at < |fragment|
      invariant ch.Some? ==> from.index == startedAt + at + 1 && ch.value == from.data[startedAt + at]
      invariant ch.None? ==> from.index == startedAt + at == |from.data|
      invariant startedAt + at <= |from.data|
      invariant MatchLength(from.data, startedAt, fragment)
             == at + MatchLength(from.data, startedAt + at, fragment[at..])
      decreases |from.data| - from.index, if ch.Some? then 1 else 0
    {
      if ch.value != fragment[at] {
        from.BackTo(startedAt);
        return Failure(ParseError(startedAt, PatternNotFound));
      }
      assert fragment[at..][1..] == fragment[at + 1..];
      at := at + 1;
      if at == |fragment| {
        return Success(Found(true));
      }
      ch := from.Getch();
    }
    from.BackTo(startedAt);
    return Failure(ParseError(startedAt, UnexpectedEof));
  }

  method TryParse(p: Producer, from: Source) returns (r: Result)
    requires from.Valid()
    modifies from
    ensures from.Valid() && Runs(r, from.index, p, from.data, old(from.index))
    decreases p, 0, 0
  {
    match p
    case AnySymbol(accepts) =>
      var ch := from.Getch();
      if ch.Some? {
        if accepts(ch.value) {
          r := Success(Symbol(ch.value));
        } else {
          from.Putback();
          r := Failure(ParseError(from.index, UnexpectedCharacter));
        }
      } else {
        r := Failure(ParseError(from.index, UnexpectedEof));
      }
    case Exact(first, more) =>
      r := TryParseExactFragment(from, [first] + more);
    case Produce(init, parts) =>
      var tmp := new Target(init);
      var err := AllOf(parts, from, tmp);
      r := if err.None? then Success(tmp.value) else Failure(err.value);
    case Transformed(source, transform) =>
      r := TryParse(source, from);
      if r.Success? {
        r := Success(transform(r.value));
      }
  }

  /** `all_of` over the subitems, on one target. */
  method AllOf(cs: seq<Clause>, from: Source, target: Target) returns (err: Option<ParseError>)
    requires from.Valid()
    modifies from, target
    ensures from.Valid()
    ensures RunsAll(err, from.index, target.value, cs, from.data, old(from.index), old(target.value))
    decreases cs, 0, 0
  {
    if |cs| == 0 {
      err := None;
    } else {
      err := TryProcess(cs[0], from, target);
      if err.None? {
        err := AllOf(cs[1..], from, target);
      }
    }
  }

  /** `any_of` over the alternatives: each works on a copy of the target and gives its input back when
      it fails; the search stops at a success and at a cut. */
  method AnyOf(cs: seq<Clause>, from: Source, target: Target) returns (success: bool, err: Option<ParseError>)
    requires from.Valid()
    modifies from, target
    ensures from.Valid()
    ensures match Any(cs, from.data, old(from.index), old(target.value))
            case Ok(stop, v1) => success && err == None && from.index == stop && target.value == v1
            case Err(_, v1) =>
              (!success || err.Some?) && from.index == old(from.index) && target.value == v1 == old(target.value)
    decreases cs, 0, 0
  {
    if |cs| == 0 {
      success, err := false, None;
    } else {
      var startedAt := from.index;
      var tmp := new Target(target.value);
      err := TryProcess(cs[0], from, tmp);
      if err.None? {
        target.value := tmp.value;
        success := true;
      } else {
        from.BackTo(startedAt);
        if err.value.reason.ForceOnlyThisAlternativeFailed? {
          success := true;
        } else {
          success, err := AnyOf(cs[1..], from, target);
        }
      }
    }
  }

  /** The loop of `repeat_clause_t`: it works on the target itself. */
  method RepeatAll(max: nat, parts: seq<Clause>, from: Source, target: Target) returns (count: nat)
    requires from.Valid()
    modifies from, target
    ensures from.Valid()
    ensures Loop(parts, from.data, old(from.index), old(target.value), max)
         == LoopEnd(from.index, target.value, count)
    decreases parts, 1, 0
  {
    count := 0;
    var failureDetected := false;
    while !failureDetected && count != max
      invariant from.Valid() && count <= max
      invariant var whole := Loop(parts, from.data, old(from.index), old(target.value), max);
                if failureDetected then whole == LoopEnd(from.index, target.value, count)
                else
                  var rest := Loop(parts, from.data, from.index, target.value, max - count);
                  whole == rest.(count := rest.count + count)
      decreases max - count, if failureDetected then 0 else 1
    {
      var startedAt := from.index;
      var err := AllOf(parts, from, target);
      failureDetected := err.Some?;
      if failureDetected {
        from.BackTo(startedAt);
      } else {
        count := count + 1;
      }
    }
  }

  method TryProcess(c: Clause, from: Source, target: Target) returns (err: Option<ParseError>)
    requires from.Valid()
    modifies from, target
    ensures from.Valid()
    ensures RunsClause(err, from.index, target.value, c, from.data, old(from.index), old(target.value))
    decreases c, 0, 0
  {
    var startedAt := from.index;
    match c
    case Consume(producer, consumer) =>
      var r := TryParse(producer, from);
      if r.Success? {
        target.value := consumer(target.value, r.value);
        err := None;
      } else {
        err := Some(r.error);
      }
    case Alternatives(choices) =>
      var success, e := AnyOf(choices, from, target);
      err := if !success || e.Some? then Some(ParseError(startedAt, NoAppropriateAlternative)) else None;
      AnyFailsPlainly(choices, from.data, startedAt, old(target.value));
    case Maybe(parts) =>
      var tmp := new Target(target.value);
      var e := AllOf(parts, from, tmp);
      if e.None? {
        target.value := tmp.value;
      } else {
        from.BackTo(startedAt);
      }
      err := None;
    case Not(parts) =>
      var dummy := new Target(Nothing);
      var e := AllOf(parts, from, dummy);
      from.BackTo(startedAt);
      err := if e.None? then Some(ParseError(startedAt, PatternNotFound)) else None;
    case And(parts) =>
      var dummy := new Target(Nothing);
      var e := AllOf(parts, from, dummy);
      from.BackTo(startedAt);
      err := if e.None? then None else Some(ParseError(startedAt, PatternNotFound));
    case Sequence(parts) =>
      err := TrySequence(parts, from, target);
    case Forced(parts) =>
      err := TrySequence(parts, from, target);
      if err.Some? {
        err := Some(ParseError(startedAt, ForceOnlyThisAlternativeFailed));
      }
    case Repeat(min, max, parts) =>
      var count := RepeatAll(max, parts, from, target);
      if count >= min {
        err := None;
      } else {
        err := Some(ParseError(from.index, PatternNotFound));
        from.BackTo(startedAt);
      }
  }

  /** `sequence_clause_t::try_process`. */
  method TrySequence(parts: seq<Clause>, from: Source, target: Target) returns (err: Option<ParseError>)
    requires from.Valid()
    modifies from, target
    ensures from.Valid()
    ensures match All(parts, from.data, old(from.index), old(target.value))
            case Ok(stop, v1) => err == None && from.index == stop && target.value == v1
            case Err(e, _) => err == Some(e) && from.index == old(from.index) && target.value == old(target.value)
    decreases parts, 1, 0
  {
    var startedAt := from.index;
    var tmp := new Target(target.value);
    err := AllOf(parts, from, tmp);
    if err.None? {
      target.value := tmp.value;
    } else {
      from.BackTo(startedAt);
    }
  }

  predicate IsSpace(c: char) {
    c == ' ' || c == '\t'
  }

  /** The space and the horizontal tab of section 3.2.3 of RFC 7230. */
  lemma SpacesByName(c: char)
    ensures IsSpace(c) <==> c in " \t"
  {
  }

  function Trim(text: string): (r: string)
    ensures r <= text && (r == [] || !IsSpace(r[|r| - 1]))
    ensures forall i | |r| <= i < |text| :: IsSpace(text[i])
  {
    if text != [] && IsSpace(text[|text| - 1]) then Trim(text[..|text| - 1]) else text
  }

  /** `remove_trailing_spaces`. */
  method RemoveTrailingSpaces(text: string) returns (r: string)
    ensures r == Trim(text)
  {
    var n: nat := |text|;
    assert text[..n] == text;
    while n > 0 && IsSpace(text[n - 1])
      invariant n <= |text| && Trim(text[..n]) == Trim(text)
    {
      assert text[..n][..n - 1] == text[..n - 1];
      n := n - 1;
    }
    r := text[..n];
  }

  /** The first character that is not a space, from `from` on, or the end. */
  function FirstNonSpace(s: string, from: nat): (r: nat)
    requires from <= |s|
    ensures from <= r <= |s| && (r < |s| ==> !IsSpace(s[r]))
    ensures forall i | from <= i < r :: IsSpace(s[i])
    decreases |s| - from
  {
    if from == |s| || !IsSpace(s[from]) then from else FirstNonSpace(s, from + 1)
  }

  /** `ensure_no_remaining_content`. */
  method EnsureNoRemainingContent(from: Source) returns (err: Option<ParseError>)
    requires from.Valid()
    modifies from
    ensures from.Valid()
    ensures err.None? <==> forall i | old(from.index) <= i < |from.data| :: IsSpace(from.data[i])
    ensures err.Some? ==>
              && err.value.reason == UnconsumedInput
              && old(from.index) <= err.value.position < |from.data|
              && !IsSpace(from.data[err.value.position])
              && forall i | old(from.index) <= i < err.value.position :: IsSpace(from.data[i])
  {
    while from.index < |from.data|
      invariant from.Valid() && old(from.index) <= from.index
      invariant forall i | old(from.index) <= i < from.index :: IsSpace(from.data[i])
      decreases |from.data| - from.index
    {
      var ch := from.Getch();
      if !IsSpace(ch.value) {
        from.Putback();
        return Some(ParseError(from.index, UnconsumedInput));
      }
    }
    err := None;
  }

  /** `try_parse`: the text without its trailing spaces has to be taken completely. */
  method TryParseText(text: string, p: Producer) returns (r: Result)
    ensures TakesAll(r, Trim(text), p)
  {
    var trimmed := RemoveTrailingSpaces(text);
    var source := new Source(trimmed);
    r := TryParse(p, source);
    if r.Success? {
      var err := EnsureNoRemainingContent(source);
      if err.Some? {
        r := Failure(err.value);
      }
    }
  }

  /** Success exactly when the producer takes all of the text, with the producer's value; otherwise the
      producer's error, or the first character left over. */
  ghost predicate TakesAll(r: Result, s: string, p: Producer) {
    match Parse(p, s, 0)
    case NotProduced(e) => r == Failure(e)
    case Produced(end, v) =>
      if end == |s| then r == Success(v)
      else r == Failure(ParseError(FirstNonSpace(s, end), UnconsumedInput))
  }
}
