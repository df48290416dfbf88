/** The parser combinators: their syntax, and a pure meaning for them (ordered choice with a cut). */
module ParserSemantics {

  /** `error_reason_t`. */
  datatype Reason =
    | UnexpectedCharacter | UnexpectedEof | NoAppropriateAlternative | PatternNotFound
    | UnconsumedInput | IllegalValueFound | ForceOnlyThisAlternativeFailed

  datatype ParseError = ParseError(position: nat, reason: Reason)

  /** Values that producers make and clauses store in their target. */
  datatype Value = Nothing | Symbol(c: char) | Found(b: bool) | List(items: seq<Value>)

  /** Producers make a value from the input. A fragment is not empty: its first character is apart. */
  datatype Producer =
    | AnySymbol(accepts: char -> bool)
    | Exact(first: char, more: string)
    | Produce(init: Value, parts: seq<Clause>)
    | Transformed(source: Producer, transform: Value -> Value)

  /** Clauses read the input and update a target value. */
  datatype Clause =
    | Consume(producer: Producer, consumer: (Value, Value) -> Value)
    | Alternatives(choices: seq<Clause>)
    | Maybe(parts: seq<Clause>)
    | Not(parts: seq<Clause>)
    | And(parts: seq<Clause>)
    | Sequence(parts: seq<Clause>)
    | Forced(parts: seq<Clause>)
    | Repeat(min: nat, max: nat, parts: seq<Clause>)

  /** Success with the new position and target, or an error; `target` is what the target holds then. */
  datatype Outcome = Ok(pos: nat, target: Value) | Err(error: ParseError, target: Value) {

    /** The failure that stops the search for other alternatives. */
    predicate IsCut() {
      Err? && error.reason.ForceOnlyThisAlternativeFailed?
    }

    predicate InRange(from: nat, size: nat) {
      match this
      case Ok(p, _) => from <= p <= size
      case Err(e, _) => e.position <= size
    }
  }

  datatype Product = Produced(pos: nat, value: Value) | NotProduced(error: ParseError) {
    predicate InRange(from: nat, size: nat) {
      match this
      case Produced(p, _) => from <= p <= size
      case NotProduced(e) => e.position <= size
    }
  }

  datatype LoopEnd = LoopEnd(pos: nat, target: Value, count: nat)

  /** How much of the fragment the input matches from `pos` on. */
  function MatchLength(s: string, pos: nat, fragment: string): (n: nat)
    requires pos <= |s|
    ensures n <= |fragment| && pos + n <= |s|
    decreases |fragment|
  {
    if |fragment| == 0 || pos == |s| || s[pos] != fragment[0] then 0
    else 1 + MatchLength(s, pos + 1, fragment[1..])
  }

  function ParseExact(s: string, pos: nat, fragment: string): (r: Product)
    requires pos <= |s|
    ensures r.InRange(pos, |s|)
  {
    var n := MatchLength(s, pos, fragment);
    if n == |fragment| then Produced(pos + n, Found(true))
    else if pos + n == |s| then NotProduced(ParseError(pos, UnexpectedEof))
    else NotProduced(ParseError(pos, PatternNotFound))
  }

  /** The meaning of a producer. */
  function Parse(p: Producer, s: string, pos: nat): (r: Product)
    requires pos <= |s|
    ensures r.InRange(pos, |s|)
    decreases p, 0, 0
  {
    match p
    case AnySymbol(accepts) =>
      if pos == |s| then NotProduced(ParseError(pos, UnexpectedEof))
      else if accepts(s[pos]) then Produced(pos + 1, Symbol(s[pos]))
      else NotProduced(ParseError(pos, UnexpectedCharacter))
    case Exact(first, more) => ParseExact(s, pos, [first] + more)
    case Produce(init, parts) =>
      (match All(parts, s, pos, init)
       case Ok(end, value) => Produced(end, value)
       case Err(e, _) => NotProduced(e))
    case Transformed(source, transform) =>
      (match Parse(source, s, pos)
       case Produced(end, value) => Produced(end, transform(value))
       case NotProduced(e) => NotProduced(e))
  }

  /** The meaning of a clause. */
  function Process(c: Clause, s: string, pos: nat, v: Value): (r: Outcome)
    requires pos <= |s|
    ensures r.InRange(pos, |s|)
    decreases c, 0, 0
  {
    match c
    case Consume(producer, consumer) =>
      (match Parse(producer, s, pos)
       case Produced(end, value) => Ok(end, consumer(v, value))
       case NotProduced(e) => Err(e, v))
    case Alternatives(choices) => Any(choices, s, pos, v)
    case Maybe(parts) =>
      var r := All(parts, s, pos, v);
      if r.Ok? then r else Ok(pos, v)
    case Not(parts) =>
      if All(parts, s, pos, Nothing).Ok? then Err(ParseError(pos, PatternNotFound), v) else Ok(pos, v)
    case And(parts) =>
      if All(parts, s, pos, Nothing).Ok? then Ok(pos, v) else Err(ParseError(pos, PatternNotFound), v)
    case Sequence(parts) =>
      var r := All(parts, s, pos, v);
      if r.Ok? then r else Err(r.error, v)
    case Forced(parts) =>
      var r := All(parts, s, pos, v);
      if r.Ok? then r else Err(ParseError(pos, ForceOnlyThisAlternativeFailed), v)
    case Repeat(min, max, parts) =>
      var end := Loop(parts, s, pos, v, max);
      if end.count >= min then Ok(end.pos, end.target)
      else Err(ParseError(end.pos, PatternNotFound), end.target)
  }

  /** All clauses, one after another, on one target. */
  function All(cs: seq<Clause>, s: string, pos: nat, v: Value): (r: Outcome)
    requires pos <= |s|
    ensures r.InRange(pos, |s|)
    decreases cs, 0, 0
  {
    if |cs| == 0 then Ok(pos, v)
    else
      match Process(cs[0], s, pos, v)
      case Ok(next, v1) => All(cs[1..], s, next, v1)
      case Err(e, v1) => Err(e, v1)
  }

  /** The first clause that succeeds; a cut ends the search. */
  function Any(cs: seq<Clause>, s: string, pos: nat, v: Value): (r: Outcome)
    requires pos <= |s|
    ensures r.InRange(pos, |s|)
    decreases cs, 0, 0
  {
    if |cs| == 0 then Err(ParseError(pos, NoAppropriateAlternative), v)
    else
      var r := Process(cs[0], s, pos, v);
      if r.Ok? then r
      else if r.IsCut() then Err(ParseError(pos, NoAppropriateAlternative), v)
      else Any(cs[1..], s, pos, v)
  }

  /** At most `left` rounds of all clauses; a failed round gives its input back, but not its changes
      to the target. */
  function Loop(cs: seq<Clause>, s: string, pos: nat, v: Value, left: nat): (r: LoopEnd)
    requires pos <= |s|
    ensures pos <= r.pos <= |s| && r.count <= left
    decreases cs, 1, left
  {
    if left == 0 then LoopEnd(pos, v, 0)
    else
      match All(cs, s, pos, v)
      case Ok(next, v1) =>
        var rest := Loop(cs, s, next, v1, left - 1);
        rest.(count := rest.count + 1)
      case Err(_, v1) => LoopEnd(pos, v1, 0)
  }

  /** Alternatives fail in one way only: at their start, with no cut, and with the target as it was. */
  lemma {:induction false} AnyFailsPlainly(cs: seq<Clause>, s: string, pos: nat, v: Value)
    requires pos <= |s|
    ensures var r := Any(cs, s, pos, v);
            r.Err? ==> r == Err(ParseError(pos, NoAppropriateAlternative), v)
    decreases |cs|
  {
    if |cs| > 0 {
      AnyFailsPlainly(cs[1..], s, pos, v);
    }
  }
}
