/** Laws of the parser combinators, for every grammar and every input. */
module ParserLaws {
  import opened ParserSemantics

  // ---------------------------------------------------------------------------------------------
  // Where a cut can come from.
  // ---------------------------------------------------------------------------------------------

  /** A cut starts at a forced clause; sequences and producers pass it on; alternatives and all other
      clauses absorb it. */
  predicate CanCut(c: Clause)
    decreases c, 0
  {
    match c
    case Forced(_) => true
    case Sequence(parts) => AnyCanCut(parts)
    case Consume(producer, _) => ProducerCanCut(producer)
    case _ => false
  }

  predicate AnyCanCut(cs: seq<Clause>)
    decreases cs, 0
  {
    |cs| > 0 && (CanCut(cs[0]) || AnyCanCut(cs[1..]))
  }

  predicate ProducerCanCut(p: Producer)
    decreases p, 0
  {
    match p
    case Produce(_, parts) => AnyCanCut(parts)
    case Transformed(source, _) => ProducerCanCut(source)
    case _ => false
  }

  lemma {:induction false} CutComesFromForced(c: Clause, s: string, pos: nat, v: Value)
    requires pos <= |s| && Process(c, s, pos, v).IsCut()
    ensures CanCut(c)
    decreases c, 0
  {
    match c
    case Sequence(parts) => AllCutComesFromForced(parts, s, pos, v);
    case Consume(producer, _) => ProducerCutComesFromForced(producer, s, pos);
    case Alternatives(choices) => AnyFailsPlainly(choices, s, pos, v);
    case _ =>
  }

  lemma {:induction false} AllCutComesFromForced(cs: seq<Clause>, s: string, pos: nat, v: Value)
    requires pos <= |s| && All(cs, s, pos, v).IsCut()
    ensures AnyCanCut(cs)
    decreases cs, 0
  {
    var r := Process(cs[0], s, pos, v);
    if r.Ok? {
      AllCutComesFromForced(cs[1..], s, r.pos, r.target);
    } else {
      CutComesFromForced(cs[0], s, pos, v);
    }
  }

  lemma {:induction false} ProducerCutComesFromForced(p: Producer, s: string, pos: nat)
    requires pos <= |s| && Parse(p, s, pos).NotProduced?
    requires Parse(p, s, pos).error.reason.ForceOnlyThisAlternativeFailed?
    ensures ProducerCanCut(p)
    decreases p, 0
  {
    match p
    case Produce(init, parts) => AllCutComesFromForced(parts, s, pos, init);
    case Transformed(source, _) => ProducerCutComesFromForced(source, s, pos);
    case _ =>
  }

  // ---------------------------------------------------------------------------------------------
  // The target never influences what is recognised.
  // ---------------------------------------------------------------------------------------------

  predicate SameVerdict(a: Outcome, b: Outcome) {
    match a
    case Ok(p, _) => b.Ok? && b.pos == p
    case Err(e, _) => b.Err? && b.error == e
  }

  lemma {:induction false} TargetDoesNotMatter(c: Clause, s: string, pos: nat, v: Value, w: Value)
    requires pos <= |s|
    ensures SameVerdict(Process(c, s, pos, v), Process(c, s, pos, w))
    decreases c, 0, 0
  {
    match c
    case Consume(_, _) =>
    case Alternatives(choices) => AnyTargetDoesNotMatter(choices, s, pos, v, w);
    case Maybe(parts) => AllTargetDoesNotMatter(parts, s, pos, v, w);
    case Not(parts) =>
    case And(parts) =>
    case Sequence(parts) => AllTargetDoesNotMatter(parts, s, pos, v, w);
    case Forced(parts) => AllTargetDoesNotMatter(parts, s, pos, v, w);
    case Repeat(min, max, parts) => LoopTargetDoesNotMatter(parts, s, pos, v, w, max);
  }

  lemma {:induction false} AllTargetDoesNotMatter(cs: seq<Clause>, s: string, pos: nat, v: Value, w: Value)
    requires pos <= |s|
    ensures SameVerdict(All(cs, s, pos, v), All(cs, s, pos, w))
    decreases cs, 0, 0
  {
    if |cs| > 0 {
      TargetDoesNotMatter(cs[0], s, pos, v, w);
      var a, b := Process(cs[0], s, pos, v), Process(cs[0], s, pos, w);
      if a.Ok? {
        AllTargetDoesNotMatter(cs[1..], s, a.pos, a.target, b.target);
      }
    }
  }

  lemma {:induction false} AnyTargetDoesNotMatter(cs: seq<Clause>, s: string, pos: nat, v: Value, w: Value)
    requires pos <= |s|
    ensures SameVerdict(Any(cs, s, pos, v), Any(cs, s, pos, w))
    decreases cs, 0, 0
  {
    if |cs| > 0 {
      TargetDoesNotMatter(cs[0], s, pos, v, w);
      AnyTargetDoesNotMatter(cs[1..], s, pos, v, w);
    }
  }

  lemma {:induction false} LoopTargetDoesNotMatter(cs: seq<Clause>, s: string, pos: nat, v: Value, w: Value, left: nat)
    requires pos <= |s|
    ensures var a, b := Loop(cs, s, pos, v, left), Loop(cs, s, pos, w, left);
            a.pos == b.pos && a.count == b.count
    decreases cs, 1, left
  {
    if left > 0 {
      AllTargetDoesNotMatter(cs, s, pos, v, w);
      var a, b := All(cs, s, pos, v), All(cs, s, pos, w);
      if a.Ok? {
        LoopTargetDoesNotMatter(cs, s, a.pos, a.target, b.target, left - 1);
      }
    }
  }

  // ---------------------------------------------------------------------------------------------
  // Nothing before the start position is read.
  // ---------------------------------------------------------------------------------------------

  function Shift(o: Outcome, k: nat): Outcome {
    match o
    case Ok(p, v) => Ok(p + k, v)
    case Err(e, v) => Err(e.(position := e.position + k), v)
  }

  function ShiftProduct(o: Product, k: nat): Product {
    match o
    case Produced(p, v) => Produced(p + k, v)
    case NotProduced(e) => NotProduced(e.(position := e.position + k))
  }

  lemma {:induction false} MatchLengthShift(pre: string, s: string, pos: nat, fragment: string)
    requires pos <= |s|
    ensures MatchLength(pre + s, |pre| + pos, fragment) == MatchLength(s, pos, fragment)
    decreases |fragment|
  {
    if |fragment| > 0 && pos < |s| {
      MatchLengthShift(pre, s, pos + 1, fragment[1..]);
    }
  }

  lemma {:induction false} ParseShift(p: Producer, pre: string, s: string, pos: nat)
    requires pos <= |s|
    ensures Parse(p, pre + s, |pre| + pos) == ShiftProduct(Parse(p, s, pos), |pre|)
    decreases p, 0, 0
  {
    match p
    case AnySymbol(_) =>
    case Exact(first, more) => MatchLengthShift(pre, s, pos, [first] + more);
    case Produce(init, parts) => AllShift(parts, pre, s, pos, init);
    case Transformed(source, _) => ParseShift(source, pre, s, pos);
  }

  /** A clause run in the middle of an input does what it does on the rest of the input alone. */
  lemma {:induction false} ProcessShift(c: Clause, pre: string, s: string, pos: nat, v: Value)
    requires pos <= |s|
    ensures Process(c, pre + s, |pre| + pos, v) == Shift(Process(c, s, pos, v), |pre|)
    decreases c, 0, 0
  {
    match c
    case Consume(producer, _) => ParseShift(producer, pre, s, pos);
    case Alternatives(choices) => AnyShift(choices, pre, s, pos, v);
    case Maybe(parts) => AllShift(parts, pre, s, pos, v);
    case Not(parts) => AllShift(parts, pre, s, pos, Nothing);
    case And(parts) => AllShift(parts, pre, s, pos, Nothing);
    case Sequence(parts) => AllShift(parts, pre, s, pos, v);
    case Forced(parts) => AllShift(parts, pre, s, pos, v);
    case Repeat(min, max, parts) => LoopShift(parts, pre, s, pos, v, max);
  }

  lemma {:induction false} AllShift(cs: seq<Clause>, pre: string, s: string, pos: nat, v: Value)
    requires pos <= |s|
    ensures All(cs, pre + s, |pre| + pos, v) == Shift(All(cs, s, pos, v), |pre|)
    decreases cs, 0, 0
  {
    if |cs| > 0 {
      ProcessShift(cs[0], pre, s, pos, v);
      var r := Process(cs[0], s, pos, v);
      if r.Ok? {
        AllShift(cs[1..], pre, s, r.pos, r.target);
      }
    }
  }

  lemma {:induction false} AnyShift(cs: seq<Clause>, pre: string, s: string, pos: nat, v: Value)
    requires pos <= |s|
    ensures Any(cs, pre + s, |pre| + pos, v) == Shift(Any(cs, s, pos, v), |pre|)
    decreases cs, 0, 0
  {
    if |cs| > 0 {
      ProcessShift(cs[0], pre, s, pos, v);
      AnyShift(cs[1..], pre, s, pos, v);
    }
  }

  lemma {:induction false} LoopShift(cs: seq<Clause>, pre: string, s: string, pos: nat, v: Value, left: nat)
    requires pos <= |s|
    ensures var end := Loop(cs, s, pos, v, left);
            Loop(cs, pre + s, |pre| + pos, v, left) == end.(pos := end.pos + |pre|)
    decreases cs, 1, left
  {
    if left > 0 {
      AllShift(cs, pre, s, pos, v);
      var r := All(cs, s, pos, v);
      if r.Ok? {
        LoopShift(cs, pre, s, r.pos, r.target, left - 1);
      }
    }
  }

  // ---------------------------------------------------------------------------------------------
  // Rewriting grammars.
  // ---------------------------------------------------------------------------------------------

  lemma {:induction false} AllConcat(xs: seq<Clause>, ys: seq<Clause>, s: string, pos: nat, v: Value)
    requires pos <= |s|
    ensures All(xs + ys, s, pos, v)
         == (match All(xs, s, pos, v)
             case Ok(next, v1) => All(ys, s, next, v1)
             case Err(e, v1) => Err(e, v1))
    decreases |xs|
  {
    if |xs| == 0 {
      assert xs + ys == ys;
    } else {
      assert (xs + ys)[1..] == xs[1..] + ys;
      var r := Process(xs[0], s, pos, v);
      if r.Ok? {
        AllConcat(xs[1..], ys, s, r.pos, r.target);
      }
    }
  }

  lemma AllOne(c: Clause, s: string, pos: nat, v: Value)
    requires pos <= |s|
    ensures All([c], s, pos, v) == Process(c, s, pos, v)
  {
    assert [c][1..] == [];
  }

  /** A failed clause leaves the target as it was, repetition excepted; looking ahead never changes the
      position or the target. */
  lemma {:induction false} FailureKeepsTheTarget(c: Clause, s: string, pos: nat, v: Value)
    requires pos <= |s|
    ensures var r := Process(c, s, pos, v);
            && (r.Err? && !c.Repeat? ==> r.target == v)
            && (c.Maybe? ==> r.Ok?)
            && (c.Not? || c.And? ==> r == Ok(pos, v) || r == Err(ParseError(pos, PatternNotFound), v))
  {
    if c.Alternatives? {
      AnyFailsPlainly(c.choices, s, pos, v);
    }
  }

  /** A sequence at the front of a sequence can be written out. */
  lemma {:induction false} NestedSequence(xs: seq<Clause>, ys: seq<Clause>, s: string, pos: nat, v: Value)
    requires pos <= |s|
    ensures Process(Sequence([Sequence(xs)] + ys), s, pos, v) == Process(Sequence(xs + ys), s, pos, v)
  {
    AllConcat([Sequence(xs)], ys, s, pos, v);
    AllOne(Sequence(xs), s, pos, v);
    AllConcat(xs, ys, s, pos, v);
  }

  /** Looking ahead for the absence of an absence is looking ahead. */
  lemma {:induction false} DoubleNotIsAnd(xs: seq<Clause>, s: string, pos: nat, v: Value)
    requires pos <= |s|
    ensures Process(Not([Not(xs)]), s, pos, v) == Process(And(xs), s, pos, v)
  {
    AllOne(Not(xs), s, pos, Nothing);
  }

  /** The first alternative that does not fail plainly is a cut. */
  predicate StopsAtCut(xs: seq<Clause>, s: string, pos: nat, v: Value)
    requires pos <= |s|
    decreases |xs|
  {
    |xs| > 0 &&
    var r := Process(xs[0], s, pos, v);
    r.IsCut() || (r.Err? && StopsAtCut(xs[1..], s, pos, v))
  }

  lemma {:induction false} AnyConcat(xs: seq<Clause>, ys: seq<Clause>, s: string, pos: nat, v: Value)
    requires pos <= |s|
    ensures StopsAtCut(xs, s, pos, v) ==> Any(xs, s, pos, v).Err?
    ensures Any(xs + ys, s, pos, v)
         == if Any(xs, s, pos, v).Ok? || StopsAtCut(xs, s, pos, v) then Any(xs, s, pos, v)
            else Any(ys, s, pos, v)
    decreases |xs|
  {
    if |xs| == 0 {
      assert xs + ys == ys;
    } else {
      assert (xs + ys)[1..] == xs[1..] + ys;
      AnyConcat(xs[1..], ys, s, pos, v);
    }
  }

  /** Alternatives at the front of alternatives can be written out exactly when no cut in the inner
      ones hides an outer one that would succeed: a cut ends the innermost choice only. */
  lemma {:induction false} NestedAlternatives(xs: seq<Clause>, ys: seq<Clause>, s: string, pos: nat, v: Value)
    requires pos <= |s|
    ensures Process(Alternatives([Alternatives(xs)] + ys), s, pos, v) == Process(Alternatives(xs + ys), s, pos, v)
       <==> !(StopsAtCut(xs, s, pos, v) && Any(ys, s, pos, v).Ok?)
  {
    AnyCons(Alternatives(xs), ys, s, pos, v);
    AnyConcat(xs, ys, s, pos, v);
    AnyFailsPlainly(xs, s, pos, v);
    AnyFailsPlainly(ys, s, pos, v);
  }

  lemma {:induction false} NoCutWithoutForced(xs: seq<Clause>, s: string, pos: nat, v: Value)
    requires pos <= |s| && !AnyCanCut(xs)
    ensures !StopsAtCut(xs, s, pos, v)
    decreases |xs|
  {
    if |xs| > 0 {
      if Process(xs[0], s, pos, v).IsCut() {
        CutComesFromForced(xs[0], s, pos, v);
      }
      NoCutWithoutForced(xs[1..], s, pos, v);
    }
  }

  /** As the grammar shows it: inner alternatives that cannot cut can always be written out. */
  lemma {:induction false} NestedAlternativesWithoutForced(
    xs: seq<Clause>, ys: seq<Clause>, s: string, pos: nat, v: Value)
    requires pos <= |s| && !AnyCanCut(xs)
    ensures Process(Alternatives([Alternatives(xs)] + ys), s, pos, v) == Process(Alternatives(xs + ys), s, pos, v)
  {
    NoCutWithoutForced(xs, s, pos, v);
    NestedAlternatives(xs, ys, s, pos, v);
  }

  function SymbolClause(c: char): Clause {
    Consume(AnySymbol(x => x == c), (target, value) => value)
  }

  /** A forced 'a' or else 'b', on the text "b": written out, the cut hides the 'b'. */
  lemma {:induction false} CutHidesTheOuterAlternative()
    ensures var xs, ys := [Forced([SymbolClause('a')])], [SymbolClause('b')];
            && Process(Alternatives([Alternatives(xs)] + ys), "b", 0, Nothing) == Ok(1, Symbol('b'))
            && Process(Alternatives(xs + ys), "b", 0, Nothing) == Err(ParseError(0, NoAppropriateAlternative), Nothing)
  {
    var a, b := Forced([SymbolClause('a')]), SymbolClause('b');
    AllOne(SymbolClause('a'), "b", 0, Nothing);
    AnyCons(a, [], "b", 0, Nothing);
    assert [a] + [] == [a];
    AnyOfTwo(Alternatives([a]), b, "b", 0, Nothing);
    assert [Alternatives([a])] + [b] == [Alternatives([a]), b];
    AnyOfTwo(a, b, "b", 0, Nothing);
    assert [a] + [b] == [a, b];
  }

  /** What the documentation promises of `force_only_this_alternative`: it spares the guard. Choosing
      between "a, then forced b" and c is choosing between "a, then b" and "not a, then c". */
  lemma {:induction false} ForcedSparesTheGuard(a: seq<Clause>, b: seq<Clause>, c: Clause, s: string, pos: nat,
      v: Value)
    requires pos <= |s|
    ensures Process(Alternatives([Sequence(a + [Forced(b)]), c]), s, pos, v)
         == Process(Alternatives([Sequence(a + b), Sequence([Not(a), c])]), s, pos, v)
  {
    var forced, plain, guarded := Sequence(a + [Forced(b)]), Sequence(a + b), Sequence([Not(a), c]);
    AllConcat(a, [Forced(b)], s, pos, v);
    AllConcat(a, b, s, pos, v);
    AllTargetDoesNotMatter(a, s, pos, v, Nothing);
    AllConcat([Not(a)], [c], s, pos, v);
    assert [Not(a)] + [c] == [Not(a), c];
    AllOne(Not(a), s, pos, v);
    AllOne(c, s, pos, v);
    var r := All(a, s, pos, v);
    if r.Ok? {
      AllOne(Forced(b), s, r.pos, r.target);
    }
    AnyOfTwo(forced, c, s, pos, v);
    AnyOfTwo(plain, guarded, s, pos, v);
  }

  /** An optional part is a choice between the part and nothing; the inner choice absorbs a cut. */
  lemma {:induction false} MaybeIsChoice(xs: seq<Clause>, s: string, pos: nat, v: Value)
    requires pos <= |s|
    ensures Process(Maybe(xs), s, pos, v)
         == Process(Alternatives([Alternatives([Sequence(xs)]), Sequence([])]), s, pos, v)
  {
    AnyOfTwo(Alternatives([Sequence(xs)]), Sequence([]), s, pos, v);
    assert [Sequence(xs)] + [] == [Sequence(xs)];
    AnyCons(Sequence(xs), [], s, pos, v);
  }

  /** Transforming a value before it is consumed is consuming the transformed value. */
  lemma {:induction false} TransformIsInTheConsumer(
    p: Producer, f: Value -> Value, consumer: (Value, Value) -> Value, s: string, pos: nat, v: Value)
    requires pos <= |s|
    ensures Process(Consume(Transformed(p, f), consumer), s, pos, v)
         == Process(Consume(p, (target: Value, value: Value) => consumer(target, f(value))), s, pos, v)
  {
    assert Parse(Transformed(p, f), s, pos)
        == (match Parse(p, s, pos)
            case Produced(end, value) => Produced(end, f(value))
            case NotProduced(e) => NotProduced(e));
  }

  /** A repetition is its parts once and then a shorter repetition on the same target, when the parts
      succeed; without rounds left it is nothing. */
  lemma {:induction false} RepeatUnrolls(min: nat, max: nat, xs: seq<Clause>, s: string, pos: nat, v: Value)
    requires pos <= |s|
    ensures Process(Repeat(0, 0, xs), s, pos, v) == Ok(pos, v)
    ensures Process(Repeat(min, max + 1, xs), s, pos, v)
         == (match All(xs, s, pos, v)
             case Ok(next, v1) => Process(Repeat(if min == 0 then 0 else min - 1, max, xs), s, next, v1)
             case Err(_, v1) => if min == 0 then Ok(pos, v1) else Err(ParseError(pos, PatternNotFound), v1))
  {
  }

  lemma AnyOfTwo(x: Clause, y: Clause, s: string, pos: nat, v: Value)
    requires pos <= |s|
    ensures var r, q := Process(x, s, pos, v), Process(y, s, pos, v);
            Any([x, y], s, pos, v)
            == if r.Ok? then r
               else if !r.IsCut() && q.Ok? then q
               else Err(ParseError(pos, NoAppropriateAlternative), v)
  {
    assert [x] + [y] == [x, y] && [y] + [] == [y];
    AnyCons(x, [y], s, pos, v);
    AnyCons(y, [], s, pos, v);
  }

  lemma AnyCons(x: Clause, ys: seq<Clause>, s: string, pos: nat, v: Value)
    requires pos <= |s|
    ensures var r := Process(x, s, pos, v);
            Any([x] + ys, s, pos, v)
            == if r.Ok? then r
               else if r.IsCut() then Err(ParseError(pos, NoAppropriateAlternative), v)
               else Any(ys, s, pos, v)
  {
    assert ([x] + ys)[1..] == ys;
  }
}
