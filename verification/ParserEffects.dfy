/** What a grammar does to its target: a second reference for the parser, in which clauses know no target
    and give the list of updates that they ask for. */
module ParserEffects {
  import opened ParserSemantics

  type Update = Value -> Value

  /** What is read and asked for; on a failure, what was asked for before it and is not taken back. */
  datatype Effect = Done(end: nat, updates: seq<Update>) | Stopped(error: ParseError, updates: seq<Update>)

  function Fold(updates: seq<Update>, v: Value): Value
    decreases |updates|
  {
    if |updates| == 0 then v else Fold(updates[1..], updates[0](v))
  }

  /** The effect on a target. */
  function On(e: Effect, v: Value): Outcome {
    match e
    case Done(end, updates) => Ok(end, Fold(updates, v))
    case Stopped(error, updates) => Err(error, Fold(updates, v))
  }

  predicate Within(e: Effect, pos: nat, size: nat) {
    e.Done? ==> pos <= e.end <= size
  }

  /** The updates of all that was read so far come first. */
  function Before(updates: seq<Update>, e: Effect): Effect {
    match e
    case Done(end, more) => Done(end, updates + more)
    case Stopped(error, more) => Stopped(error, updates + more)
  }

  function Fails(pos: nat, reason: Reason): Effect {
    Stopped(ParseError(pos, reason), [])
  }

  function EffectOf(c: Clause, s: string, pos: nat): (r: Effect)
    requires pos <= |s|
    ensures Within(r, pos, |s|)
    decreases c, 0, 0
  {
    match c
    case Consume(producer, consumer) =>
      (match ValueOf(producer, s, pos)
       case Produced(end, value) => Done(end, [(v: Value) => consumer(v, value)])
       case NotProduced(e) => Stopped(e, []))
    case Alternatives(choices) => EffectOfFirst(choices, s, pos)
    case Maybe(parts) =>
      var r := EffectOfAll(parts, s, pos);
      if r.Done? then r else Done(pos, [])
    case Not(parts) => if EffectOfAll(parts, s, pos).Done? then Fails(pos, PatternNotFound) else Done(pos, [])
    case And(parts) => if EffectOfAll(parts, s, pos).Done? then Done(pos, []) else Fails(pos, PatternNotFound)
    case Sequence(parts) =>
      var r := EffectOfAll(parts, s, pos);
      if r.Done? then r else Stopped(r.error, [])
    case Forced(parts) =>
      var r := EffectOfAll(parts, s, pos);
      if r.Done? then r else Fails(pos, ForceOnlyThisAlternativeFailed)
    case Repeat(min, max, parts) =>
      var (end, updates, rounds) := EffectOfRounds(parts, s, pos, max);
      if rounds >= min then Done(end, updates) else Stopped(ParseError(end, PatternNotFound), updates)
  }

  function ValueOf(p: Producer, s: string, pos: nat): (r: Product)
    requires pos <= |s|
    ensures r.Produced? ==> pos <= r.pos <= |s|
    decreases p, 0, 0
  {
    match p
    case AnySymbol(accepts) =>
      if pos < |s| && accepts(s[pos]) then Produced(pos + 1, Symbol(s[pos]))
      else NotProduced(ParseError(pos, if pos < |s| then UnexpectedCharacter else UnexpectedEof))
    case Exact(first, more) =>
      var fragment := [first] + more;
      if fragment <= s[pos..] then Produced(pos + |fragment|, Found(true))
      else NotProduced(ParseError(pos, if s[pos..] <= fragment then UnexpectedEof else PatternNotFound))
    case Produce(init, parts) =>
      (match EffectOfAll(parts, s, pos)
       case Done(end, updates) => Produced(end, Fold(updates, init))
       case Stopped(e, _) => NotProduced(e))
    case Transformed(source, transform) =>
      (match ValueOf(source, s, pos)
       case Produced(end, value) => Produced(end, transform(value))
       case NotProduced(e) => NotProduced(e))
  }

  function EffectOfAll(cs: seq<Clause>, s: string, pos: nat): (r: Effect)
    requires pos <= |s|
    ensures Within(r, pos, |s|)
    decreases cs, 0, 0
  {
    if |cs| == 0 then Done(pos, [])
    else
      match EffectOf(cs[0], s, pos)
      case Done(next, updates) => Before(updates, EffectOfAll(cs[1..], s, next))
      case Stopped(e, updates) => Stopped(e, updates)
  }

  function EffectOfFirst(cs: seq<Clause>, s: string, pos: nat): (r: Effect)
    requires pos <= |s|
    ensures Within(r, pos, |s|)
    decreases cs, 0, 0
  {
    if |cs| == 0 then Fails(pos, NoAppropriateAlternative)
    else
      match EffectOf(cs[0], s, pos)
      case Done(end, updates) => Done(end, updates)
      case Stopped(e, _) =>
        if e.reason.ForceOnlyThisAlternativeFailed? then Fails(pos, NoAppropriateAlternative)
        else EffectOfFirst(cs[1..], s, pos)
  }

  /** The end, the updates and the number of at most `left` rounds. The updates of the round that fails
      are not taken back. */
  function EffectOfRounds(cs: seq<Clause>, s: string, pos: nat, left: nat): (r: (nat, seq<Update>, nat))
    requires pos <= |s|
    ensures pos <= r.0 <= |s|
    decreases cs, 1, left
  {
    if left == 0 then (pos, [], 0)
    else
      match EffectOfAll(cs, s, pos)
      case Done(next, updates) =>
        var (end, more, rounds) := EffectOfRounds(cs, s, next, left - 1);
        (end, updates + more, rounds + 1)
      case Stopped(_, updates) => (pos, updates, 0)
  }

  lemma {:induction false} FoldConcat(xs: seq<Update>, ys: seq<Update>, v: Value)
    ensures Fold(xs + ys, v) == Fold(ys, Fold(xs, v))
    decreases |xs|
  {
    if |xs| == 0 {
      assert xs + ys == ys;
    } else {
      assert (xs + ys)[1..] == xs[1..] + ys;
      FoldConcat(xs[1..], ys, xs[0](v));
    }
  }

  lemma {:induction false} FoldOne(f: Update, v: Value)
    ensures Fold([f], v) == f(v)
  {
    assert [f][1..] == [];
  }

  lemma OnBefore(updates: seq<Update>, e: Effect, v: Value)
    ensures On(Before(updates, e), v) == On(e, Fold(updates, v))
  {
    FoldConcat(updates, e.updates, v);
  }

  /** For every clause, input and target: the new position or the error are those of the effect, and the
      new target is the old one with the updates made in order. */
  lemma {:induction false} ProcessIsEffect(c: Clause, s: string, pos: nat, v: Value)
    requires pos <= |s|
    ensures Process(c, s, pos, v) == On(EffectOf(c, s, pos), v)
    decreases c, 0, 0
  {
    match c
    case Consume(producer, consumer) =>
      ParseIsValue(producer, s, pos);
      var p := ValueOf(producer, s, pos);
      if p.Produced? {
        FoldOne((x: Value) => consumer(x, p.value), v);
      }
    case Alternatives(choices) => AnyIsFirst(choices, s, pos, v);
    case Maybe(parts) => AllIsEffect(parts, s, pos, v);
    case Not(parts) => AllIsEffect(parts, s, pos, Nothing);
    case And(parts) => AllIsEffect(parts, s, pos, Nothing);
    case Sequence(parts) => AllIsEffect(parts, s, pos, v);
    case Forced(parts) => AllIsEffect(parts, s, pos, v);
    case Repeat(min, max, parts) => LoopIsRounds(parts, s, pos, v, max);
  }

  lemma {:induction false} ParseIsValue(p: Producer, s: string, pos: nat)
    requires pos <= |s|
    ensures Parse(p, s, pos) == ValueOf(p, s, pos)
    decreases p, 0, 0
  {
    match p
    case AnySymbol(_) =>
    case Exact(first, more) => ExactIsPrefix(s, pos, [first] + more);
    case Produce(init, parts) => AllIsEffect(parts, s, pos, init);
    case Transformed(source, _) => ParseIsValue(source, s, pos);
  }

  /** Either the fragment is a prefix of the input, or the input ends within it, or they differ. */
  lemma {:induction false} ExactIsPrefix(s: string, pos: nat, fragment: string)
    requires pos <= |s|
    ensures var n := MatchLength(s, pos, fragment);
            && (n == |fragment| <==> fragment <= s[pos..])
            && (n == |fragment| || (pos + n == |s| <==> s[pos..] <= fragment))
    decreases |fragment|
  {
    if |fragment| > 0 && pos < |s| && s[pos] == fragment[0] {
      ExactIsPrefix(s, pos + 1, fragment[1..]);
      PrefixCons(fragment, s[pos..]);
      PrefixCons(s[pos..], fragment);
    }
  }

  lemma PrefixCons(a: string, b: string)
    requires |a| > 0 && |b| > 0 && a[0] == b[0]
    ensures a <= b <==> a[1..] <= b[1..]
  {
    assert a == [a[0]] + a[1..] && b == [b[0]] + b[1..];
    if a <= b {
      assert a[1..] == b[..|a|][1..] == b[1..][..|a| - 1];
    }
    if a[1..] <= b[1..] {
      assert b[..|a|] == [b[0]] + b[1..][..|a| - 1] == a;
    }
  }

  lemma {:induction false} AllIsEffect(cs: seq<Clause>, s: string, pos: nat, v: Value)
    requires pos <= |s|
    ensures All(cs, s, pos, v) == On(EffectOfAll(cs, s, pos), v)
    decreases cs, 0, 0
  {
    if |cs| > 0 {
      ProcessIsEffect(cs[0], s, pos, v);
      var e := EffectOf(cs[0], s, pos);
      if e.Done? {
        AllIsEffect(cs[1..], s, e.end, Fold(e.updates, v));
        OnBefore(e.updates, EffectOfAll(cs[1..], s, e.end), v);
      }
    }
  }

  lemma {:induction false} AnyIsFirst(cs: seq<Clause>, s: string, pos: nat, v: Value)
    requires pos <= |s|
    ensures Any(cs, s, pos, v) == On(EffectOfFirst(cs, s, pos), v)
    decreases cs, 0, 0
  {
    if |cs| > 0 {
      ProcessIsEffect(cs[0], s, pos, v);
      AnyIsFirst(cs[1..], s, pos, v);
    }
  }

  lemma {:induction false} LoopIsRounds(cs: seq<Clause>, s: string, pos: nat, v: Value, left: nat)
    requires pos <= |s|
    ensures var (end, updates, rounds) := EffectOfRounds(cs, s, pos, left);
            Loop(cs, s, pos, v, left) == LoopEnd(end, Fold(updates, v), rounds)
    decreases cs, 1, left
  {
    if left > 0 {
      AllIsEffect(cs, s, pos, v);
      var e := EffectOfAll(cs, s, pos);
      if e.Done? {
        LoopIsRounds(cs, s, e.end, Fold(e.updates, v), left - 1);
        var (_, more, _) := EffectOfRounds(cs, s, e.end, left - 1);
        FoldConcat(e.updates, more, v);
      }
    }
  }
}
