/** Which error the calculator reports (projects/calculator/src/calculator.c), for every text. */
module CalculatorErrors {
  import opened Wrappers
  import opened Calculator

  // ---------- the count of the values ----------

  function Operators(ops: seq<char>): nat {
    if ops == [] then 0 else Operators(Init(ops)) + (if IsOperator(Last(ops)) then 1 else 0)
  }

  lemma {:induction false} ValuesOfContext<V>(num: Numeric<V>, ctx: Context<V>)
    requires Sound(num, ctx)
    ensures |ValsOf(num, ctx)| == Operators(OpsOf(ctx))
    decreases ctx
  {
    match ctx
    case Outermost =>
    case Opened(_, open, outer) =>
      ValuesOfContext(num, outer);
      assert Init(OpsOf(ctx)) == OpsOf(outer) && Last(OpsOf(ctx)) == open;
    case Pending(_, op, outer) =>
      ValuesOfContext(num, outer);
      assert Init(OpsOf(ctx)) == OpsOf(outer) && Last(OpsOf(ctx)) == op;
  }

  /** In every reachable state there is a value for each operator, and one more when an operator is awaited. */
  lemma {:induction false} ValuesCounted<V>(num: Numeric<V>, toks: seq<Token<V>>)
    ensures var o := RunTo(num, toks, Start());
            o.Go? ==> |o.cfg.vals| == Operators(o.cfg.ops) + (if o.cfg.state == WaitingForOp then 1 else 0)
  {
    var start := Waiting(Outermost, []);
    assert Reads(num, start, [], Start());
    var rd := RunReads(num, start, [], Start(), toks);
    if RunTo(num, toks, Start()).Go? { ValuesOfContext(num, rd.ctx); }
  }

  // ---------- math errors ----------

  predicate IsClosing(c: char) { c in ")]}" }

  /** What comes behind the first `n` tokens makes the calculator apply an operator that stands on
      top: a weaker operator or an equal left-associative one, a closing bracket, or the end. */
  predicate Forces<V>(toks: seq<Token<V>>, n: nat, op: char) {
    n == |toks| ||
    (n < |toks| && toks[n].Sym? && (IsClosing(toks[n].c) || (IsOperator(toks[n].c) && Precedence(op) >= Threshold(toks[n].c))))
  }

  /** `e` is an operation that is a math error while its operands are none. */
  ghost predicate Failing<V>(num: Numeric<V>, ctx: Context<V>, e: Expr<V>) {
    && Sound(num, ctx) && Grammatical(e) && e.Binary? && Holds(OpsOf(ctx), Level(e))
    && Value(num, e.left, Carry(ctx)).Some? && Value(num, e.right, 1).Some? && Value(num, e, Carry(ctx)).None?
  }

  /** The first `n` tokens end with such an operation, everything before it has a value, and it is applied next. */
  ghost predicate FailsAt<V>(num: Numeric<V>, toks: seq<Token<V>>, n: nat, ctx: Context<V>, e: Expr<V>) {
    n <= |toks| && toks[..n] == Text(ctx) + Print(e) && Failing(num, ctx, e) && Forces(toks, n, e.op)
  }

  ghost predicate SomeFails<V(!new)>(num: Numeric<V>, toks: seq<Token<V>>) { exists n, ctx, e :: FailsAt(num, toks, n, ctx, e) }

  // ---------- a failing operation stops the run ----------

  lemma HoldsMore(ops: seq<char>, level: nat, more: nat)
    requires Holds(ops, level) && level <= more
    ensures Holds(ops, more)
  {}

  /** Over the text of a context the machine gets to the stacks of the context. */
  lemma {:induction false} ContextRuns<V>(num: Numeric<V>, ctx: Context<V>)
    requires Sound(num, ctx)
    ensures RunTo(num, Text(ctx), Start()) == Go(Config(ValsOf(num, ctx), OpsOf(ctx), Carry(ctx), WaitingForNum))
    decreases ctx
  {
    match ctx
    case Outermost =>
    case Opened(signs, open, outer) =>
      ContextRuns(num, outer);
      OpenedRuns(num, signs, open, outer, RunTo(num, Text(outer), Start()).cfg);
    case Pending(l, op, outer) =>
      ContextRuns(num, outer);
      PendingRuns(num, l, op, outer, RunTo(num, Text(outer), Start()).cfg);
  }

  lemma {:induction false} OpenedRuns<V>(num: Numeric<V>, signs: string, open: char, outer: Context<V>, cfg: Config<V>)
    requires Signs(signs) && IsOpen(open) && RunTo(num, Text(outer), Start()) == Go(cfg) && cfg.state == WaitingForNum
    ensures RunTo(num, Text(Opened(signs, open, outer)), Start()) ==
            Go(cfg.(ops := cfg.ops + [open], sign := AfterSigns(signs, cfg.sign)))
  {
    assert Text(Opened(signs, open, outer)) == Text(outer) + (Symbols(signs) + [Sym(open)]);
    RunToConcat(num, Text(outer), Symbols(signs) + [Sym(open)], Start());
    RunOpening(num, signs, open, cfg);
  }

  lemma {:induction false} PendingRuns<V>(num: Numeric<V>, l: Expr<V>, op: char, outer: Context<V>, cfg: Config<V>)
    requires Sound(num, Pending(l, op, outer)) && RunTo(num, Text(outer), Start()) == Go(cfg)
    requires cfg == Config(ValsOf(num, outer), OpsOf(outer), Carry(outer), WaitingForNum)
    ensures RunTo(num, Text(Pending(l, op, outer)), Start()) ==
            Go(Config(cfg.vals + [Value(num, l, cfg.sign).value], cfg.ops + [op], 1, WaitingForNum))
  {
    RunToConcat(num, Text(outer) + Print(l), [Sym(op)], Start());
    RunToConcat(num, Text(outer), Print(l), Start());
    HoldsMore(cfg.ops, Precedence(op), Level(l));
    ExprComputes(num, l, cfg, Threshold(op));
    var c := RunTo(num, Print(l), cfg).cfg;
    ReduceHeld(num, cfg.vals + [Value(num, l, cfg.sign).value], cfg.ops, op);
    StepOperator(num, c, op);
    StepOne(num, Sym(op), c);
  }

  /** How far the next token makes the calculator reduce. */
  function ForcedThreshold<V>(toks: seq<Token<V>>, n: nat): nat {
    if n < |toks| && toks[n].Sym? && IsOperator(toks[n].c) then Threshold(toks[n].c) else 0
  }

  lemma {:induction false} FailingStops<V>(num: Numeric<V>, toks: seq<Token<V>>, n: nat, ctx: Context<V>, e: Expr<V>)
    requires FailsAt(num, toks, n, ctx, e)
    ensures Run(num, toks, Start()) == MathError
  {
    var cfg := Config(ValsOf(num, ctx), OpsOf(ctx), Carry(ctx), WaitingForNum);
    ContextRuns(num, ctx);
    RunToConcat(num, Text(ctx), Print(e), Start());
    ExprComputes(num, e, cfg, ForcedThreshold(toks, n));
    assert toks == toks[..n] + toks[n..];
    RunToConcat(num, toks[..n], toks[n..], Start());
    if RunTo(num, Print(e), cfg).Go? {
      ForcedStep(num, toks, n, RunTo(num, Print(e), cfg).cfg, e.op);
    }
  }

  lemma {:induction false} ForcedStep<V>(num: Numeric<V>, toks: seq<Token<V>>, n: nat, c: Config<V>, op: char)
    requires n <= |toks| && Forces(toks, n, op) && c.state == WaitingForOp
    requires Reduce(num, c.vals, c.ops, ForcedThreshold(toks, n)) == Stop(MathError)
    ensures Run(num, toks[n..], c) == MathError
  {
    if n < |toks| {
      ForcedToken(num, toks, n, c, op);
      assert toks[n..][0] == toks[n];
      RunFirst(num, toks[n..], c);
    }
  }

  lemma {:induction false} ForcedToken<V>(num: Numeric<V>, toks: seq<Token<V>>, n: nat, c: Config<V>, op: char)
    requires n < |toks| && Forces(toks, n, op) && c.state == WaitingForOp
    requires Reduce(num, c.vals, c.ops, ForcedThreshold(toks, n)) == Stop(MathError)
    ensures Step(num, c, toks[n]) == Halt(MathError)
  {}

  // ---------- a run that stops so has met a failing operation ----------

  /** A reduction that fails has built the failing operation, out of the same text. */
  lemma {:induction false} ReduceFails<V>(num: Numeric<V>, ctx: Context<V>, e: Expr<V>, threshold: nat)
    returns (ctx': Context<V>, e': Expr<V>)
    requires Filled(num, ctx, e) && Level(e) >= threshold && Reduce(num, FilledVals(num, ctx, e), OpsOf(ctx), threshold) == Stop(MathError)
    ensures Failing(num, ctx', e') && Precedence(e'.op) >= threshold && Text(ctx') + Print(e') == Text(ctx) + Print(e)
    decreases ctx
  {
    if !(ctx.Pending? && Precedence(ctx.op) >= threshold) { ReduceStays(num, FilledVals(num, ctx, e), ctx, threshold); }
    var tree := Binary(ctx.op, ctx.left, e);
    FoldGrammatical(num, ctx, e);
    FoldReduces(num, ctx, e, threshold);
    if Value(num, tree, Carry(ctx.outer)).Some? {
      ctx', e' := ReduceFails(num, ctx.outer, tree, threshold);
    } else {
      ctx', e' := ctx.outer, tree;
    }
  }

  /** The tokens at which a reduction can fail, and how far they reduce. */
  lemma {:induction false} FailingToken<V>(num: Numeric<V>, cfg: Config<V>, t: Token<V>)
    requires Step(num, cfg, t) == Halt(MathError)
    ensures cfg.state == WaitingForOp && t.Sym? && (IsClosing(t.c) || IsOperator(t.c))
    ensures Reduce(num, cfg.vals, cfg.ops, if IsOperator(t.c) then Threshold(t.c) else 0) == Stop(MathError)
  {
    FailingState(num, cfg, t);
  }

  lemma {:induction false} FailingState<V>(num: Numeric<V>, cfg: Config<V>, t: Token<V>)
    requires Step(num, cfg, t) == Halt(MathError)
    ensures cfg.state == WaitingForOp && t.Sym? && (IsClosing(t.c) || IsOperator(t.c))
  {}

  lemma {:induction false} StepFails<V>(num: Numeric<V>, rd: Reading<V>, toks: seq<Token<V>>, cfg: Config<V>, t: Token<V>)
    returns (ctx: Context<V>, e: Expr<V>)
    requires Reads(num, rd, toks, cfg) && Step(num, cfg, t) == Halt(MathError)
    ensures FailsAt(num, toks + [t], |toks|, ctx, e)
  {
    FailingToken(num, cfg, t);
    ctx, e := ReduceFails(num, rd.ctx, rd.e, if IsOperator(t.c) then Threshold(t.c) else 0);
    assert (toks + [t])[..|toks|] == toks;
  }

  lemma {:induction false} FinishFails<V>(num: Numeric<V>, rd: Reading<V>, toks: seq<Token<V>>, cfg: Config<V>)
    returns (ctx: Context<V>, e: Expr<V>)
    requires Reads(num, rd, toks, cfg) && Finish(num, cfg) == MathError
    ensures FailsAt(num, toks, |toks|, ctx, e)
  {
    ctx, e := ReduceFails(num, rd.ctx, rd.e, 0);
    assert toks[..|toks|] == toks;
  }

  lemma {:induction false} FailsLater<V>(num: Numeric<V>, toks: seq<Token<V>>, more: seq<Token<V>>, n: nat, ctx: Context<V>, e: Expr<V>)
    requires FailsAt(num, toks, n, ctx, e) && n < |toks|
    ensures FailsAt(num, toks + more, n, ctx, e)
  {
    assert (toks + more)[..n] == toks[..n];
  }

  lemma {:induction false} StepReads<V>(num: Numeric<V>, rd: Reading<V>, toks: seq<Token<V>>, cfg: Config<V>, t: Token<V>)
    returns (rd': Reading<V>)
    requires Reads(num, rd, toks, cfg) && Step(num, cfg, t).Go?
    ensures Reads(num, rd', toks + [t], Step(num, cfg, t).cfg)
  {
    if rd.Waiting? { rd' := StepWaiting(num, rd, toks, cfg, t); } else { rd' := StepHave(num, rd, toks, cfg, t); }
  }

  lemma {:induction false} RunFirst<V>(num: Numeric<V>, toks: seq<Token<V>>, cfg: Config<V>)
    requires toks != []
    ensures var o := Step(num, cfg, toks[0]); Run(num, toks, cfg) == if o.Halt? then o.result else Run(num, toks[1..], o.cfg)
  {}

  lemma {:induction false} RunFails<V>(num: Numeric<V>, rd: Reading<V>, before: seq<Token<V>>, cfg: Config<V>, toks: seq<Token<V>>, all: seq<Token<V>>)
    returns (n: nat, ctx: Context<V>, e: Expr<V>)
    requires Reads(num, rd, before, cfg) && Run(num, toks, cfg) == MathError && all == before + toks
    ensures FailsAt(num, all, n, ctx, e)
    decreases |toks|, 1
  {
    if toks == [] {
      assert all == before;
      n := |before|;
      ctx, e := FinishFails(num, rd, all, cfg);
    } else {
      assert all == before + [toks[0]] + toks[1..];
      n, ctx, e := RunFailsRest(num, rd, before, cfg, toks, all);
    }
  }

  lemma {:induction false} RunFailsRest<V>(num: Numeric<V>, rd: Reading<V>, before: seq<Token<V>>, cfg: Config<V>, toks: seq<Token<V>>, all: seq<Token<V>>)
    returns (n: nat, ctx: Context<V>, e: Expr<V>)
    requires toks != [] && Reads(num, rd, before, cfg) && Run(num, toks, cfg) == MathError && all == before + [toks[0]] + toks[1..]
    ensures FailsAt(num, all, n, ctx, e)
    decreases |toks|, 0
  {
    RunFirst(num, toks, cfg);
    if Step(num, cfg, toks[0]).Halt? {
      n := |before|;
      ctx, e := StepFails(num, rd, before, cfg, toks[0]);
      FailsLater(num, before + [toks[0]], toks[1..], n, ctx, e);
    } else {
      var rd' := StepReads(num, rd, before, cfg, toks[0]);
      n, ctx, e := RunFails(num, rd', before + [toks[0]], Step(num, cfg, toks[0]).cfg, toks[1..], all);
    }
  }

  /** MATH_ERROR is reported exactly if some operation fails whose operands and all that is pending before
      it have values, and which the next token, or the end, makes the calculator apply. */
  lemma {:induction false} MathErrorIff<V(!new)>(num: Numeric<V>, toks: seq<Token<V>>)
    ensures Run(num, toks, Start()) == MathError <==> SomeFails(num, toks)
  {
    if Run(num, toks, Start()) == MathError {
      assert Reads(num, Waiting(Outermost, []), [], Start());
      assert toks == [] + toks;
      var n, ctx, e := RunFails(num, Waiting(Outermost, []), [], Start(), toks, toks);
    }
    forall n, ctx, e | FailsAt(num, toks, n, ctx, e) ensures Run(num, toks, Start()) == MathError {
      FailingStops(num, toks, n, ctx, e);
    }
  }

  lemma {:induction false} ThreeResults<V>(num: Numeric<V>, toks: seq<Token<V>>)
    ensures Run(num, toks, Start()).Success? || Run(num, toks, Start()) == MathError || Run(num, toks, Start()) == SyntaxError
  {
    var e := AcceptedGrammatical(num, toks);
  }

  lemma {:induction false} NothingIsMathError<V(!new)>(num: Numeric<V>, toks: seq<Token<V>>)
    ensures MeansNothing(num, toks) ==> Run(num, toks, Start()) == MathError
  {
    if e :| Parses(e, toks) && Value(num, e, 1).None? {
      GrammaticalComputed(num, e);
    }
  }

  /** Every text gets its value, a math error or a syntax error, each under its own condition. */
  lemma {:induction false} ErrorsOf<V(!new)>(num: Numeric<V>, text: string)
    ensures forall v :: Evaluate(num, text) == Success(v) <==> Means(num, Lex(num, text, 0), v)
    ensures Evaluate(num, text) == MathError <==> SomeFails(num, Lex(num, text, 0))
    ensures MeansNothing(num, Lex(num, text, 0)) ==> Evaluate(num, text) == MathError
    ensures Evaluate(num, text).Success? || Evaluate(num, text) == MathError || Evaluate(num, text) == SyntaxError
  {
    var toks := Lex(num, text, 0);
    forall v ensures Evaluate(num, text) == Success(v) <==> Means(num, toks, v) { EvaluateIffParses(num, text, v); }
    MathErrorIff(num, toks);
    NothingIsMathError(num, toks);
    ThreeResults(num, toks);
  }
}
