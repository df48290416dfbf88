/** The reference for the parser: plain ordered choice with a cut, without targets and error details. */
module OrderedChoice {
  import opened ParserSemantics

  datatype Verdict = Match(end: nat) | NoMatch | Cut

  function Recognise(c: Clause, s: string, pos: nat): (r: Verdict)
    requires pos <= |s|
    ensures r.Match? ==> pos <= r.end <= |s|
    decreases c, 0, 0
  {
    match c
    case Consume(producer, _) => RecogniseProducer(producer, s, pos)
    case Alternatives(choices) => First(choices, s, pos)
    case Maybe(parts) =>
      var r := InOrder(parts, s, pos);
      if r.Match? then r else Match(pos)
    case Not(parts) => if InOrder(parts, s, pos).Match? then NoMatch else Match(pos)
    case And(parts) => if InOrder(parts, s, pos).Match? then Match(pos) else NoMatch
    case Sequence(parts) => InOrder(parts, s, pos)
    case Forced(parts) =>
      var r := InOrder(parts, s, pos);
      if r.Match? then r else Cut
    case Repeat(min, max, parts) =>
      var (end, rounds) := Rounds(parts, s, pos, max);
      if rounds >= min then Match(end) else NoMatch
  }

  function RecogniseProducer(p: Producer, s: string, pos: nat): (r: Verdict)
    requires pos <= |s|
    ensures r.Match? ==> pos <= r.end <= |s|
    decreases p, 0, 0
  {
    match p
    case AnySymbol(accepts) => if pos < |s| && accepts(s[pos]) then Match(pos + 1) else NoMatch
    case Exact(first, more) => if [first] + more <= s[pos..] then Match(pos + 1 + |more|) else NoMatch
    case Produce(_, parts) => InOrder(parts, s, pos)
    case Transformed(source, _) => RecogniseProducer(source, s, pos)
  }

  function InOrder(cs: seq<Clause>, s: string, pos: nat): (r: Verdict)
    requires pos <= |s|
    ensures r.Match? ==> pos <= r.end <= |s|
    decreases cs, 0, 0
  {
    if |cs| == 0 then Match(pos)
    else
      var r := Recognise(cs[0], s, pos);
      if r.Match? then InOrder(cs[1..], s, r.end) else r
  }

  function First(cs: seq<Clause>, s: string, pos: nat): (r: Verdict)
    requires pos <= |s|
    ensures r.Match? ==> pos <= r.end <= |s|
    decreases cs, 0, 0
  {
    if |cs| == 0 then NoMatch
    else
      match Recognise(cs[0], s, pos)
      case Match(end) => Match(end)
      case Cut => NoMatch
      case NoMatch => First(cs[1..], s, pos)
  }

  /** Where at most `left` rounds end, and how many there were. */
  function Rounds(cs: seq<Clause>, s: string, pos: nat, left: nat): (r: (nat, nat))
    requires pos <= |s|
    ensures pos <= r.0 <= |s| && r.1 <= left
    decreases cs, 1, left
  {
    if left == 0 then (pos, 0)
    else
      var r := InOrder(cs, s, pos);
      if r.Match? then
        var (end, n) := Rounds(cs, s, r.end, left - 1);
        (end, n + 1)
      else (pos, 0)
  }

  function VerdictOf(o: Outcome): Verdict {
    if o.Ok? then Match(o.pos) else if o.IsCut() then Cut else NoMatch
  }

  function ProductVerdict(o: Product): Verdict {
    match o
    case Produced(end, _) => Match(end)
    case NotProduced(e) => if e.reason.ForceOnlyThisAlternativeFailed? then Cut else NoMatch
  }

  lemma {:induction false} MatchLengthIsPrefix(s: string, pos: nat, fragment: string)
    requires pos <= |s|
    ensures MatchLength(s, pos, fragment) == |fragment| <==> fragment <= s[pos..]
    decreases |fragment|
  {
    if |fragment| > 0 && pos < |s| {
      MatchLengthIsPrefix(s, pos + 1, fragment[1..]);
      assert s[pos..] == [s[pos]] + s[pos + 1..];
      assert fragment == [fragment[0]] + fragment[1..];
      if s[pos] == fragment[0] && fragment[1..] <= s[pos + 1..] {
        assert s[pos..][..|fragment|] == fragment;
      }
      if fragment <= s[pos..] {
        assert s[pos + 1..][..|fragment| - 1] == s[pos..][..|fragment|][1..];
      }
    }
  }

  /** For every clause, input, position and target: accepting, failing and cutting, and the end
      position, are those of plain ordered choice. */
  lemma {:induction false} ProcessIsOrderedChoice(c: Clause, s: string, pos: nat, v: Value)
    requires pos <= |s|
    ensures VerdictOf(Process(c, s, pos, v)) == Recognise(c, s, pos)
    decreases c, 0, 0
  {
    match c
    case Consume(producer, _) => ParseIsOrderedChoice(producer, s, pos);
    case Alternatives(choices) => AnyIsFirst(choices, s, pos, v);
    case Maybe(parts) => AllIsInOrder(parts, s, pos, v);
    case Not(parts) => AllIsInOrder(parts, s, pos, Nothing);
    case And(parts) => AllIsInOrder(parts, s, pos, Nothing);
    case Sequence(parts) => AllIsInOrder(parts, s, pos, v);
    case Forced(parts) => AllIsInOrder(parts, s, pos, v);
    case Repeat(min, max, parts) => LoopIsRounds(parts, s, pos, v, max);
  }

  lemma {:induction false} ParseIsOrderedChoice(p: Producer, s: string, pos: nat)
    requires pos <= |s|
    ensures ProductVerdict(Parse(p, s, pos)) == RecogniseProducer(p, s, pos)
    decreases p, 0, 0
  {
    match p
    case AnySymbol(_) =>
    case Exact(first, more) => MatchLengthIsPrefix(s, pos, [first] + more);
    case Produce(init, parts) => AllIsInOrder(parts, s, pos, init);
    case Transformed(source, _) => ParseIsOrderedChoice(source, s, pos);
  }

  lemma {:induction false} AllIsInOrder(cs: seq<Clause>, s: string, pos: nat, v: Value)
    requires pos <= |s|
    ensures VerdictOf(All(cs, s, pos, v)) == InOrder(cs, s, pos)
    decreases cs, 0, 0
  {
    if |cs| > 0 {
      ProcessIsOrderedChoice(cs[0], s, pos, v);
      var r := Process(cs[0], s, pos, v);
      if r.Ok? {
        AllIsInOrder(cs[1..], s, r.pos, r.target);
      }
    }
  }

  lemma {:induction false} AnyIsFirst(cs: seq<Clause>, s: string, pos: nat, v: Value)
    requires pos <= |s|
    ensures VerdictOf(Any(cs, s, pos, v)) == First(cs, s, pos)
    decreases cs, 0, 0
  {
    if |cs| > 0 {
      ProcessIsOrderedChoice(cs[0], s, pos, v);
      AnyIsFirst(cs[1..], s, pos, v);
    }
  }

  lemma {:induction false} LoopIsRounds(cs: seq<Clause>, s: string, pos: nat, v: Value, left: nat)
    requires pos <= |s|
    ensures var end := Loop(cs, s, pos, v, left);
            (end.pos, end.count) == Rounds(cs, s, pos, left)
    decreases cs, 1, left
  {
    if left > 0 {
      AllIsInOrder(cs, s, pos, v);
      var r := All(cs, s, pos, v);
      if r.Ok? {
        LoopIsRounds(cs, s, r.pos, r.target, left - 1);
      }
    }
  }
}
