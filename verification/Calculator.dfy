/** The calculator: a table-driven state machine over two stacks
    (projects/calculator/src/calculator.c).

    This file holds the machine as a function on token sequences, the expression
    grammar it is meant to implement, and the proof that the two agree in both
    directions.  The stepwise program over cursor and stacks is in
    CalculatorProgram.dfy. */
module Calculator {

  import opened Wrappers

  /** What the calculator needs of C's `double`.  Rounding, `pow` and `strtod` are
      not defined here: every statement below holds for all choices of them.
      `strtod(text)` gives the number read and how many characters were used. */
  datatype Numeric<!V> = Numeric(
    add: (V, V) -> V, sub: (V, V) -> V, mul: (V, V) -> V, div: (V, V) -> V, pow: (V, V) -> V,
    negate: V -> V,
    isZero: V -> bool, isNegative: V -> bool, isIntegral: V -> bool,
    strtod: string -> (V, nat))

  // ---------- look-up tables ----------

  datatype Event =
    | EvPlus | EvMinus | EvNum | EvMul | EvDiv
    | EvLParen | EvRParen | EvLBracket | EvRBracket | EvLBrace | EvRBrace
    | EvPow | EvSpace | EvEnd | EvOther

  datatype State = WaitingForNum | WaitingForOp

  datatype Action =
    | ActSpace | ActUnaryPlus | ActUnaryMinus | ActPushNumber
    | ActBinary(op: char) | ActOpen(open: char) | ActClose(matching: char)
    | ActEnd | ActError

  function EventOf(c: char): Event {
    match c
    case '\0' => EvEnd
    case '+' => EvPlus
    case '-' => EvMinus
    case '*' => EvMul
    case '/' => EvDiv
    case '^' => EvPow
    case '(' => EvLParen
    case ')' => EvRParen
    case '[' => EvLBracket
    case ']' => EvRBracket
    case '{' => EvLBrace
    case '}' => EvRBrace
    case _ =>
      if c in " \t\n\r\U{0b}\U{0c}" then EvSpace
      else if '0' <= c <= '9' || c == '.' then EvNum
      else EvOther
  }

  function Transition(state: State, event: Event): (State, Action) {
    match state
    case WaitingForNum => (
      match event
      case EvPlus => (WaitingForNum, ActUnaryPlus)
      case EvMinus => (WaitingForNum, ActUnaryMinus)
      case EvNum => (WaitingForOp, ActPushNumber)
      case EvLParen => (WaitingForNum, ActOpen('('))
      case EvLBracket => (WaitingForNum, ActOpen('['))
      case EvLBrace => (WaitingForNum, ActOpen('{'))
      case EvSpace => (WaitingForNum, ActSpace)
      case _ => (WaitingForNum, ActError))
    case WaitingForOp => (
      match event
      case EvPlus => (WaitingForNum, ActBinary('+'))
      case EvMinus => (WaitingForNum, ActBinary('-'))
      case EvMul => (WaitingForNum, ActBinary('*'))
      case EvDiv => (WaitingForNum, ActBinary('/'))
      case EvPow => (WaitingForNum, ActBinary('^'))
      case EvRParen => (WaitingForOp, ActClose('('))
      case EvRBracket => (WaitingForOp, ActClose('['))
      case EvRBrace => (WaitingForOp, ActClose('{'))
      case EvSpace => (WaitingForOp, ActSpace)
      case EvEnd => (WaitingForOp, ActEnd)
      case EvNum | EvOther => (WaitingForOp, ActError)
      case _ => (WaitingForNum, ActError))
  }

  function Precedence(c: char): nat {
    match c
    case '+' | '-' => 1
    case '*' | '/' => 2
    case '^' => 3
    case _ => 0
  }

  predicate RightAssociative(c: char) { c == '^' }

  predicate IsOperator(c: char) { Precedence(c) > 0 }

  predicate IsOpen(c: char) { c == '(' || c == '[' || c == '{' }

  predicate IsSign(c: char) { c == '+' || c == '-' }

  function Closing(open: char): char {
    match open
    case '(' => ')'
    case '[' => ']'
    case _ => '}'
  }

  // ---------- the machine on tokens ----------

  datatype Token<V> = Num(value: V) | Sym(c: char) | Bad

  /** Underflow stands for popping or peeking an empty stack, which the C code only asserts against. */
  datatype Result<V> = Success(value: V) | MathError | SyntaxError | Underflow

  datatype Config<V> = Config(vals: seq<V>, ops: seq<char>, sign: int, state: State)

  datatype Outcome<V> = Go(cfg: Config<V>) | Halt(result: Result<V>)

  datatype Stacks<V> = Stacks(vals: seq<V>, ops: seq<char>) | Stop(error: Result<V>)

  function Last<T>(s: seq<T>): T requires s != [] { s[|s| - 1] }

  function Init<T>(s: seq<T>): seq<T> requires s != [] { s[..|s| - 1] }

  /** One binary operation: None is the code's MATH_ERROR. */
  function Compute<V>(num: Numeric<V>, op: char, left: V, right: V): Option<V>
    requires IsOperator(op)
  {
    if op == '/' && num.isZero(right) then None
    else if op == '^' && ((num.isZero(right) && num.isZero(left)) || (num.isNegative(left) && !num.isIntegral(right))) then None
    else match op
      case '+' => Some(num.add(left, right))
      case '-' => Some(num.sub(left, right))
      case '*' => Some(num.mul(left, right))
      case '/' => Some(num.div(left, right))
      case _ => Some(num.pow(left, right))
  }

  /** Pops one operator and two values and pushes the value computed. */
  function ApplyTop<V>(num: Numeric<V>, vals: seq<V>, ops: seq<char>): Stacks<V> {
    if ops == [] || |vals| < 2 then Stop(Underflow)
    else if !IsOperator(Last(ops)) then Stop(SyntaxError)
    else match Compute(num, Last(ops), vals[|vals| - 2], vals[|vals| - 1])
      case None => Stop(MathError)
      case Some(v) => Stacks(vals[..|vals| - 2] + [v], Init(ops))
  }

  /** Applies operators from the top as long as their precedence is at least `threshold`. */
  function Reduce<V>(num: Numeric<V>, vals: seq<V>, ops: seq<char>, threshold: nat): Stacks<V>
    decreases |ops|
  {
    if ops == [] || Precedence(Last(ops)) == 0 || Precedence(Last(ops)) < threshold then Stacks(vals, ops)
    else match ApplyTop(num, vals, ops)
      case Stop(r) => Stop(r)
      case Stacks(vals', ops') => Reduce(num, vals', ops', threshold)
  }

  /** The lowest precedence that an incoming operator applies before it is pushed. */
  function Threshold(op: char): nat {
    Precedence(op) + (if RightAssociative(op) then 1 else 0)
  }

  function CloseBracket<V>(num: Numeric<V>, vals: seq<V>, ops: seq<char>, open: char): Stacks<V> {
    match Reduce(num, vals, ops, 0)
    case Stop(r) => Stop(r)
    case Stacks(vals', ops') =>
      if ops' != [] && Last(ops') == open then Stacks(vals', Init(ops')) else Stop(SyntaxError)
  }

  function Signed<V>(num: Numeric<V>, sign: int, v: V): V {
    if sign < 0 then num.negate(v) else v
  }

  function TokenEvent<V>(t: Token<V>): Event {
    match t
    case Num(_) => EvNum
    case Sym(c) => EventOf(c)
    case Bad => EvOther
  }

  function Act<V>(num: Numeric<V>, cfg: Config<V>, action: Action, t: Token<V>): Outcome<V> {
    match action
    case ActUnaryPlus => Go(cfg)
    case ActUnaryMinus => Go(cfg.(sign := -cfg.sign))
    case ActPushNumber =>
      if t.Num? then Go(cfg.(vals := cfg.vals + [Signed(num, cfg.sign, t.value)], sign := 1))
      else Halt(SyntaxError)
    case ActBinary(op) => (
      match Reduce(num, cfg.vals, cfg.ops, Threshold(op))
      case Stop(r) => Halt(r)
      case Stacks(vals, ops) => Go(cfg.(vals := vals, ops := ops + [op])))
    case ActOpen(open) => Go(cfg.(ops := cfg.ops + [open]))
    case ActClose(open) => (
      match CloseBracket(num, cfg.vals, cfg.ops, open)
      case Stop(r) => Halt(r)
      case Stacks(vals, ops) => Go(cfg.(vals := vals, ops := ops)))
    case _ => Halt(SyntaxError)
  }

  function Step<V>(num: Numeric<V>, cfg: Config<V>, t: Token<V>): Outcome<V> {
    var (next, action) := Transition(cfg.state, TokenEvent(t));
    Act(num, cfg.(state := next), action, t)
  }

  /** The event of the terminating '\0'. */
  function Finish<V>(num: Numeric<V>, cfg: Config<V>): Result<V> {
    if cfg.state == WaitingForNum then SyntaxError
    else match Reduce(num, cfg.vals, cfg.ops, 0)
      case Stop(r) => r
      case Stacks(vals, ops) => if ops != [] || |vals| != 1 then SyntaxError else Success(vals[0])
  }

  function RunTo<V>(num: Numeric<V>, toks: seq<Token<V>>, cfg: Config<V>): Outcome<V> {
    if toks == [] then Go(cfg)
    else match Step(num, cfg, toks[0])
      case Halt(r) => Halt(r)
      case Go(cfg') => RunTo(num, toks[1..], cfg')
  }

  function Run<V>(num: Numeric<V>, toks: seq<Token<V>>, cfg: Config<V>): Result<V> {
    match RunTo(num, toks, cfg)
    case Halt(r) => r
    case Go(cfg') => Finish(num, cfg')
  }

  function Start<V>(): Config<V> { Config([], [], 1, WaitingForNum) }

  /** The characters from `pos` on as tokens: spaces vanish, a number takes what `strtod` takes. */
  function Lex<V>(num: Numeric<V>, text: string, pos: nat): seq<Token<V>>
    requires pos <= |text|
    decreases |text| - pos
  {
    if pos == |text| then []
    else match EventOf(text[pos])
      case EvSpace => Lex(num, text, pos + 1)
      case EvNum =>
        var (v, used) := num.strtod(text[pos..]);
        if used == 0 || used > |text| - pos then [Bad] else [Num(v)] + Lex(num, text, pos + used)
      case _ => [Sym(text[pos])] + Lex(num, text, pos + 1)
  }

  function Evaluate<V>(num: Numeric<V>, text: string): Result<V> {
    Run(num, Lex(num, text, 0), Start())
  }

  datatype Move<V> = Moved(cfg: Config<V>, pos: nat) | Ended(result: Result<V>)

  function MoveOf<V>(o: Outcome<V>, pos: nat): Move<V> {
    if o.Halt? then Ended(o.result) else Moved(o.cfg, pos)
  }

  /** One transition at character `pos` of the text. */
  function StepAt<V>(num: Numeric<V>, text: string, pos: nat, cfg: Config<V>): Move<V>
    requires pos <= |text|
  {
    if pos == |text| then Ended(Finish(num, cfg))
    else match EventOf(text[pos])
      case EvSpace => Moved(cfg, pos + 1)
      case EvNum =>
        var (v, used) := num.strtod(text[pos..]);
        if used == 0 || used > |text| - pos then Ended(SyntaxError) else MoveOf(Step(num, cfg, Num(v)), pos + used)
      case _ => MoveOf(Step(num, cfg, Sym(text[pos])), pos + 1)
  }

  /** The move leads to this result. */
  ghost predicate LeadsTo<V>(num: Numeric<V>, text: string, move: Move<V>, result: Result<V>) {
    match move
    case Ended(r) => result == r
    case Moved(cfg, pos) => pos <= |text| && result == Run(num, Lex(num, text, pos), cfg)
  }

  lemma {:induction false} RunToken<V>(num: Numeric<V>, text: string, t: Token<V>, pos: nat, cfg: Config<V>)
    requires pos <= |text|
    ensures LeadsTo(num, text, MoveOf(Step(num, cfg, t), pos), Run(num, [t] + Lex(num, text, pos), cfg))
  {
    assert ([t] + Lex(num, text, pos))[1..] == Lex(num, text, pos);
  }

  /** Walking over the characters is running the machine on their tokens. */
  lemma {:induction false} RunAt<V>(num: Numeric<V>, text: string, pos: nat, cfg: Config<V>)
    requires pos <= |text|
    ensures LeadsTo(num, text, StepAt(num, text, pos, cfg), Run(num, Lex(num, text, pos), cfg))
  {
    if pos < |text| {
      match EventOf(text[pos])
      case EvSpace =>
      case EvNum => RunAtNumber(num, text, pos, cfg);
      case _ => RunAtSymbol(num, text, pos, cfg);
    }
  }

  lemma {:induction false} StepAtAdvances<V>(num: Numeric<V>, text: string, pos: nat, cfg: Config<V>)
    requires pos <= |text|
    ensures StepAt(num, text, pos, cfg).Moved? ==> pos < StepAt(num, text, pos, cfg).pos <= |text|
  {
  }

  lemma {:induction false} RunAtSymbol<V>(num: Numeric<V>, text: string, pos: nat, cfg: Config<V>)
    requires pos < |text| && EventOf(text[pos]) != EvNum && EventOf(text[pos]) != EvSpace
    ensures LeadsTo(num, text, StepAt(num, text, pos, cfg), Run(num, Lex(num, text, pos), cfg))
  {
    RunToken(num, text, Sym(text[pos]), pos + 1, cfg);
  }

  lemma {:induction false} RunAtNumber<V>(num: Numeric<V>, text: string, pos: nat, cfg: Config<V>)
    requires pos < |text| && EventOf(text[pos]) == EvNum
    ensures LeadsTo(num, text, StepAt(num, text, pos, cfg), Run(num, Lex(num, text, pos), cfg))
  {
    var (v, used) := num.strtod(text[pos..]);
    if used == 0 || used > |text| - pos {
      assert Run<V>(num, [Bad], cfg) == SyntaxError;
    } else {
      RunToken(num, text, Num(v), pos + used, cfg);
    }
  }

  // ---------- the grammar ----------

  /** An expression tree.  A run of signs may stand before a literal or before a bracket. */
  datatype Expr<V> =
    | Leaf(signs: string, value: V)
    | Bracket(signs: string, open: char, body: Expr<V>)
    | Binary(op: char, left: Expr<V>, right: Expr<V>)

  /** How tightly the outermost operator binds. */
  function Level<V>(e: Expr<V>): nat {
    if e.Binary? then Precedence(e.op) else 4
  }

  /** The level an operator demands of its right operand: equal levels associate
      to the right under '^' and to the left under the other four. */
  function RightLevel(op: char): nat {
    if RightAssociative(op) then Precedence(op) else Precedence(op) + 1
  }

  function LeftLevel(op: char): nat {
    if RightAssociative(op) then Precedence(op) + 1 else Precedence(op)
  }

  predicate Signs(s: string) { forall i :: 0 <= i < |s| ==> IsSign(s[i]) }

  /** The tree is bracketed enough to be read back: precedence and associativity are respected. */
  predicate Grammatical<V>(e: Expr<V>) {
    match e
    case Leaf(signs, _) => Signs(signs)
    case Bracket(signs, open, body) => Signs(signs) && IsOpen(open) && Grammatical(body)
    case Binary(op, l, r) =>
      IsOperator(op) && Grammatical(l) && Grammatical(r) && Level(l) >= LeftLevel(op) && Level(r) >= RightLevel(op)
  }

  function Symbols<V>(s: string): seq<Token<V>> {
    seq(|s|, i requires 0 <= i < |s| => Sym(s[i]))
  }

  function Print<V>(e: Expr<V>): seq<Token<V>> {
    match e
    case Leaf(signs, v) => Symbols(signs) + [Num(v)]
    case Bracket(signs, open, body) => Symbols(signs) + [Sym(open)] + Print(body) + [Sym(Closing(open))]
    case Binary(op, l, r) => Print(l) + [Sym(op)] + Print(r)
  }

  function AfterSigns(signs: string, sign: int): int
    decreases |signs|
  {
    if signs == [] then sign else AfterSigns(signs[1..], if signs[0] == '-' then -sign else sign)
  }

  /** The value of a tree, None on a math error.  A sign run before a bracket is
      handed on to the first literal inside it. */
  function Value<V>(num: Numeric<V>, e: Expr<V>, sign: int): Option<V>
    requires Grammatical(e)
  {
    match e
    case Leaf(signs, v) => Some(Signed(num, AfterSigns(signs, sign), v))
    case Bracket(signs, _, body) => Value(num, body, AfterSigns(signs, sign))
    case Binary(op, l, r) =>
      match (Value(num, l, sign), Value(num, r, 1))
      case (Some(x), Some(y)) => Compute(num, op, x, y)
      case _ => None
  }

  // ---------- every grammatical text is computed ----------

  function Then<V>(num: Numeric<V>, o: Outcome<V>, toks: seq<Token<V>>): Outcome<V> {
    if o.Halt? then o else RunTo(num, toks, o.cfg)
  }

  function ThenStep<V>(num: Numeric<V>, o: Outcome<V>, t: Token<V>): Outcome<V> {
    if o.Halt? then o else Step(num, o.cfg, t)
  }

  lemma {:induction false} RunToConcat<V>(num: Numeric<V>, a: seq<Token<V>>, b: seq<Token<V>>, cfg: Config<V>)
    ensures RunTo(num, a + b, cfg) == Then(num, RunTo(num, a, cfg), b)
    decreases |a|
  {
    if a == [] {
      assert a + b == b;
    } else {
      assert (a + b)[0] == a[0] && (a + b)[1..] == a[1..] + b;
      match Step(num, cfg, a[0]) {
        case Halt(_) =>
        case Go(c) => RunToConcat(num, a[1..], b, c);
      }
    }
  }

  lemma {:induction false} RunSigns<V>(num: Numeric<V>, signs: string, cfg: Config<V>)
    requires Signs(signs) && cfg.state == WaitingForNum
    ensures RunTo(num, Symbols(signs), cfg) == Go(cfg.(sign := AfterSigns(signs, cfg.sign)))
    decreases |signs|
  {
    if signs != [] {
      assert Symbols<V>(signs)[1..] == Symbols(signs[1..]);
      RunSigns(num, signs[1..], if signs[0] == '-' then cfg.(sign := -cfg.sign) else cfg);
    }
  }

  /** What lies on top of the operator stack stays there while an expression of this level is read. */
  predicate Holds(ops: seq<char>, level: nat) {
    ops == [] || !IsOperator(Last(ops)) || level >= RightLevel(Last(ops))
  }

  lemma {:induction false} ReduceHeld<V>(num: Numeric<V>, vals: seq<V>, ops: seq<char>, op: char)
    requires IsOperator(op) && Holds(ops, Precedence(op))
    ensures Reduce(num, vals, ops, Threshold(op)) == Stacks(vals, ops)
  {
  }

  /** Running the machine over a printed expression and then applying what is still
      pending has the same effect as pushing the expression's value. */
  ghost predicate Computes<V>(num: Numeric<V>, e: Expr<V>, cfg: Config<V>, threshold: nat)
    requires Grammatical(e)
  {
    match RunTo(num, Print(e), cfg)
    case Halt(r) => r == MathError && Value(num, e, cfg.sign).None?
    case Go(c) =>
      && c.state == WaitingForOp && c.sign == 1
      && Reduce(num, c.vals, c.ops, threshold) ==
         match Value(num, e, cfg.sign)
         case None => Stop(MathError)
         case Some(v) => Reduce(num, cfg.vals + [v], cfg.ops, threshold)
  }

  lemma {:induction false} ExprComputes<V>(num: Numeric<V>, e: Expr<V>, cfg: Config<V>, threshold: nat)
    requires Grammatical(e) && Holds(cfg.ops, Level(e)) && threshold <= Level(e)
    requires cfg.state == WaitingForNum
    ensures Computes(num, e, cfg, threshold)
    decreases e
  {
    match e
    case Leaf(signs, v) =>
      RunSigns(num, signs, cfg);
      RunToConcat(num, Symbols(signs), [Num(v)], cfg);
      StepOne(num, Num(v), cfg.(sign := AfterSigns(signs, cfg.sign)));
    case Bracket(_, _, _) => BracketComputes(num, e, cfg, threshold);
    case Binary(_, _, _) => BinaryComputes(num, e, cfg, threshold);
  }

  lemma {:induction false} StepOne<V>(num: Numeric<V>, t: Token<V>, cfg: Config<V>)
    ensures RunTo(num, [t], cfg) == Step(num, cfg, t)
  {
    match Step(num, cfg, t) {
      case Halt(_) =>
      case Go(c) => assert RunTo(num, [t][1..], c) == Go(c);
    }
  }

  /** The configuration just after the opening bracket of `e`. */
  function Inside<V>(e: Expr<V>, cfg: Config<V>): Config<V>
    requires e.Bracket?
  {
    cfg.(sign := AfterSigns(e.signs, cfg.sign), ops := cfg.ops + [e.open])
  }

  lemma {:induction false} RunBracket<V>(num: Numeric<V>, e: Expr<V>, cfg: Config<V>)
    requires e.Bracket? && Grammatical(e) && cfg.state == WaitingForNum
    ensures RunTo(num, Print(e), cfg) ==
            ThenStep(num, RunTo(num, Print(e.body), Inside(e, cfg)), Sym(Closing(e.open)))
  {
    var before := Symbols(e.signs) + [Sym(e.open)];
    RunToConcat(num, before + Print(e.body), [Sym(Closing(e.open))], cfg);
    RunToConcat(num, before, Print(e.body), cfg);
    RunOpening(num, e.signs, e.open, cfg);
    if RunTo(num, Print(e.body), Inside(e, cfg)).Go? {
      StepOne(num, Sym(Closing(e.open)), RunTo(num, Print(e.body), Inside(e, cfg)).cfg);
    }
  }

  lemma {:induction false} RunOpening<V>(num: Numeric<V>, signs: string, open: char, cfg: Config<V>)
    requires Signs(signs) && IsOpen(open) && cfg.state == WaitingForNum
    ensures RunTo(num, Symbols(signs) + [Sym(open)], cfg) == Go(cfg.(sign := AfterSigns(signs, cfg.sign), ops := cfg.ops + [open]))
  {
    RunToConcat(num, Symbols(signs), [Sym(open)], cfg);
    RunSigns(num, signs, cfg);
    StepOne(num, Sym(open), cfg.(sign := AfterSigns(signs, cfg.sign)));
  }

  lemma {:induction false} RunBinary<V>(num: Numeric<V>, e: Expr<V>, cfg: Config<V>)
    requires e.Binary? && Grammatical(e) && cfg.state == WaitingForNum
    ensures RunTo(num, Print(e), cfg) ==
            Then(num, ThenStep(num, RunTo(num, Print(e.left), cfg), Sym(e.op)), Print(e.right))
  {
    RunToConcat(num, Print(e.left) + [Sym(e.op)], Print(e.right), cfg);
    RunToConcat(num, Print(e.left), [Sym(e.op)], cfg);
    match RunTo(num, Print(e.left), cfg) {
      case Halt(_) =>
      case Go(c) => StepOne(num, Sym(e.op), c);
    }
  }

  lemma {:induction false} StepOperator<V>(num: Numeric<V>, cfg: Config<V>, op: char)
    requires IsOperator(op) && cfg.state == WaitingForOp
    ensures Step(num, cfg, Sym(op)) ==
            match Reduce(num, cfg.vals, cfg.ops, Threshold(op))
            case Stop(r) => Halt(r)
            case Stacks(vals, ops) => Go(Config(vals, ops + [op], cfg.sign, WaitingForNum))
  {
  }

  lemma {:induction false} StepClosing<V>(num: Numeric<V>, cfg: Config<V>, open: char)
    requires IsOpen(open) && cfg.state == WaitingForOp
    ensures Step(num, cfg, Sym(Closing(open))) ==
            match CloseBracket(num, cfg.vals, cfg.ops, open)
            case Stop(r) => Halt(r)
            case Stacks(vals, ops) => Go(cfg.(vals := vals, ops := ops))
  {
  }

  lemma {:induction false} BracketComputes<V>(num: Numeric<V>, e: Expr<V>, cfg: Config<V>, threshold: nat)
    requires e.Bracket? && Grammatical(e)
    requires cfg.state == WaitingForNum
    ensures Computes(num, e, cfg, threshold)
    decreases e, 0
  {
    var inner := Inside(e, cfg);
    RunBracket(num, e, cfg);
    ExprComputes(num, e.body, inner, 0);
    match RunTo(num, Print(e.body), inner) {
      case Halt(_) =>
      case Go(c) =>
        StepClosing(num, c, e.open);
        assert Init(inner.ops) == cfg.ops;
    }
  }

  /** Applying a pushed operator to the two values above it. */
  lemma {:induction false} ReducePushed<V>(num: Numeric<V>, vals: seq<V>, ops: seq<char>, x: V, op: char, y: V, threshold: nat)
    requires IsOperator(op) && threshold <= Precedence(op)
    ensures Reduce(num, vals + [x] + [y], ops + [op], threshold) ==
            match Compute(num, op, x, y)
            case None => Stop(MathError)
            case Some(v) => Reduce(num, vals + [v], ops, threshold)
  {
    var all := vals + [x] + [y];
    assert all[..|all| - 2] == vals && Init(ops + [op]) == ops;
  }

  lemma {:induction false} BinaryComputes<V>(num: Numeric<V>, e: Expr<V>, cfg: Config<V>, threshold: nat)
    requires e.Binary? && Grammatical(e) && Holds(cfg.ops, Level(e)) && threshold <= Level(e)
    requires cfg.state == WaitingForNum
    ensures Computes(num, e, cfg, threshold)
    decreases e, 0
  {
    RunBinary(num, e, cfg);
    ExprComputes(num, e.left, cfg, Threshold(e.op));
    match RunTo(num, Print(e.left), cfg) {
      case Halt(_) =>
      case Go(c) =>
        StepOperator(num, c, e.op);
        match Value(num, e.left, cfg.sign) {
          case None =>
          case Some(x) =>
            ReduceHeld(num, cfg.vals + [x], cfg.ops, e.op);
            var mid := Config(cfg.vals + [x], cfg.ops + [e.op], 1, WaitingForNum);
            ExprComputes(num, e.right, mid, threshold);
            match Value(num, e.right, 1) {
              case None =>
              case Some(y) => ReducePushed(num, cfg.vals, cfg.ops, x, e.op, y, threshold);
            }
        }
    }
  }

  // ---------- only grammatical texts are accepted ----------

  /** What has been read so far, seen from the operator stack: brackets not yet
      closed and operators still waiting for their right operand. */
  datatype Context<V> =
    | Outermost
    | Opened(signs: string, open: char, outer: Context<V>)
    | Pending(left: Expr<V>, op: char, outer: Context<V>)

  /** The sign handed to the first literal read in this context. */
  function Carry<V>(ctx: Context<V>): int {
    match ctx
    case Opened(signs, _, outer) => AfterSigns(signs, Carry(outer))
    case _ => 1
  }

  function OpsOf<V>(ctx: Context<V>): string {
    match ctx
    case Outermost => []
    case Opened(_, open, outer) => OpsOf(outer) + [open]
    case Pending(_, op, outer) => OpsOf(outer) + [op]
  }

  predicate Sound<V>(num: Numeric<V>, ctx: Context<V>) {
    match ctx
    case Outermost => true
    case Opened(signs, open, outer) => Signs(signs) && IsOpen(open) && Sound(num, outer)
    case Pending(l, op, outer) =>
      && IsOperator(op) && Grammatical(l) && Level(l) >= LeftLevel(op)
      && Holds(OpsOf(outer), Precedence(op))
      && Value(num, l, Carry(outer)).Some?
      && Sound(num, outer)
  }

  function ValsOf<V>(num: Numeric<V>, ctx: Context<V>): seq<V>
    requires Sound(num, ctx)
  {
    match ctx
    case Outermost => []
    case Opened(_, _, outer) => ValsOf(num, outer)
    case Pending(l, _, outer) => ValsOf(num, outer) + [Value(num, l, Carry(outer)).value]
  }

  function Text<V>(ctx: Context<V>): seq<Token<V>> {
    match ctx
    case Outermost => []
    case Opened(signs, open, outer) => Text(outer) + Symbols(signs) + [Sym(open)]
    case Pending(l, op, outer) => Text(outer) + Print(l) + [Sym(op)]
  }

  /** A context whose hole has just been filled by `e`. */
  ghost predicate Filled<V>(num: Numeric<V>, ctx: Context<V>, e: Expr<V>) {
    && Sound(num, ctx) && Grammatical(e) && Holds(OpsOf(ctx), Level(e))
    && Value(num, e, Carry(ctx)).Some?
  }

  function FilledVals<V>(num: Numeric<V>, ctx: Context<V>, e: Expr<V>): seq<V>
    requires Filled(num, ctx, e)
  {
    ValsOf(num, ctx) + [Value(num, e, Carry(ctx)).value]
  }

  /** The tree built when the operator waiting in `ctx` takes `e` as its right operand. */
  lemma {:induction false} FoldGrammatical<V>(num: Numeric<V>, ctx: Context<V>, e: Expr<V>)
    requires ctx.Pending? && Filled(num, ctx, e)
    ensures var tree := Binary(ctx.op, ctx.left, e);
            && Grammatical(tree) && Holds(OpsOf(ctx.outer), Level(tree))
            && Text(ctx) + Print(e) == Text(ctx.outer) + Print(tree)
  {
    var tree := Binary(ctx.op, ctx.left, e);
    assert Last(OpsOf(ctx)) == ctx.op;
    assert Print(tree) == Print(ctx.left) + [Sym(ctx.op)] + Print(e);
  }

  lemma {:induction false} FoldReduces<V>(num: Numeric<V>, ctx: Context<V>, e: Expr<V>, threshold: nat)
    requires ctx.Pending? && Filled(num, ctx, e) && Precedence(ctx.op) >= threshold
    requires Grammatical(Binary(ctx.op, ctx.left, e)) && Holds(OpsOf(ctx.outer), Precedence(ctx.op))
    ensures var tree := Binary(ctx.op, ctx.left, e);
            Reduce(num, FilledVals(num, ctx, e), OpsOf(ctx), threshold) ==
            if Value(num, tree, Carry(ctx.outer)).None? then Stop(MathError)
            else Reduce(num, FilledVals(num, ctx.outer, tree), OpsOf(ctx.outer), threshold)
  {
    var outer := ctx.outer;
    var x, y := Value(num, ctx.left, Carry(outer)).value, Value(num, e, 1).value;
    ReducePushed(num, ValsOf(num, outer), OpsOf(outer), x, ctx.op, y, threshold);
  }

  /** No more operator of the context would be applied, and the text is still that of `toks`. */
  ghost predicate Reduced<V>(num: Numeric<V>, ctx: Context<V>, e: Expr<V>, threshold: nat, toks: seq<Token<V>>) {
    && Filled(num, ctx, e) && Level(e) >= threshold
    && Text(ctx) + Print(e) == toks
    && (ctx.Pending? ==> Precedence(ctx.op) < threshold)
  }

  /** Reducing the stacks of a filled context builds the tree and keeps the text. */
  lemma {:induction false} ReduceSound<V>(num: Numeric<V>, ctx: Context<V>, e: Expr<V>, threshold: nat)
    returns (ctx': Context<V>, e': Expr<V>)
    requires Filled(num, ctx, e) && Level(e) >= threshold
    ensures var r := Reduce(num, FilledVals(num, ctx, e), OpsOf(ctx), threshold);
            || r == Stop(MathError)
            || (Reduced(num, ctx', e', threshold, Text(ctx) + Print(e)) && r == Stacks(FilledVals(num, ctx', e'), OpsOf(ctx')))
    decreases ctx
  {
    ctx', e' := ctx, e;
    if ctx.Pending? && Precedence(ctx.op) >= threshold {
      var tree := Binary(ctx.op, ctx.left, e);
      FoldGrammatical(num, ctx, e);
      FoldReduces(num, ctx, e, threshold);
      if Value(num, tree, Carry(ctx.outer)).Some? {
        ctx', e' := ReduceSound(num, ctx.outer, tree, threshold);
      }
    } else {
      ReduceStays(num, FilledVals(num, ctx, e), ctx, threshold);
    }
  }

  lemma {:induction false} ReduceStays<V>(num: Numeric<V>, vals: seq<V>, ctx: Context<V>, threshold: nat)
    requires Sound(num, ctx) && (ctx.Pending? ==> Precedence(ctx.op) < threshold)
    ensures Reduce(num, vals, OpsOf(ctx), threshold) == Stacks(vals, OpsOf(ctx))
  {
    if !ctx.Outermost? {
      assert Last(OpsOf(ctx)) == if ctx.Opened? then ctx.open else ctx.op;
    }
  }

  /** A reachable point of a run: a context with the signs read since, or a filled context. */
  datatype Reading<V> = Waiting(ctx: Context<V>, signs: string) | Have(ctx: Context<V>, e: Expr<V>)

  ghost predicate Reads<V>(num: Numeric<V>, rd: Reading<V>, toks: seq<Token<V>>, cfg: Config<V>) {
    match rd
    case Waiting(ctx, signs) =>
      && Sound(num, ctx) && Signs(signs)
      && toks == Text(ctx) + Symbols(signs)
      && cfg == Config(ValsOf(num, ctx), OpsOf(ctx), AfterSigns(signs, Carry(ctx)), WaitingForNum)
    case Have(ctx, e) =>
      && Filled(num, ctx, e) && !e.Binary?
      && toks == Text(ctx) + Print(e)
      && cfg == Config(FilledVals(num, ctx, e), OpsOf(ctx), 1, WaitingForOp)
  }

  lemma {:induction false} AfterSignsSnoc(signs: string, c: char, sign: int)
    ensures AfterSigns(signs + [c], sign) == if c == '-' then -AfterSigns(signs, sign) else AfterSigns(signs, sign)
    decreases |signs|
  {
    if signs == [] {
      assert AfterSigns(signs + [c], sign) == AfterSigns((signs + [c])[1..], if c == '-' then -sign else sign);
    } else {
      assert (signs + [c])[1..] == signs[1..] + [c];
      AfterSignsSnoc(signs[1..], c, if signs[0] == '-' then -sign else sign);
    }
  }

  ghost predicate Continues<V>(num: Numeric<V>, rd: Reading<V>, toks: seq<Token<V>>, o: Outcome<V>) {
    match o
    case Halt(r) => r == SyntaxError || r == MathError
    case Go(cfg) => Reads(num, rd, toks, cfg)
  }

  lemma {:induction false} StepNumber<V>(num: Numeric<V>, ctx: Context<V>, signs: string, cfg: Config<V>, v: V)
    requires Reads(num, Waiting(ctx, signs), Text(ctx) + Symbols(signs), cfg)
    ensures Continues(num, Have(ctx, Leaf(signs, v)), Text(ctx) + Symbols(signs) + [Num(v)], Step(num, cfg, Num(v)))
  {
    var e := Leaf(signs, v);
    assert Text(ctx) + Symbols(signs) + [Num(v)] == Text(ctx) + Print(e);
    assert Filled(num, ctx, e);
  }

  lemma {:induction false} StepSign<V>(num: Numeric<V>, ctx: Context<V>, signs: string, cfg: Config<V>, c: char)
    requires Reads(num, Waiting(ctx, signs), Text(ctx) + Symbols(signs), cfg) && IsSign(c)
    ensures Continues(num, Waiting(ctx, signs + [c]), Text(ctx) + Symbols(signs) + [Sym(c)], Step(num, cfg, Sym(c)))
  {
    AfterSignsSnoc(signs, c, Carry(ctx));
    assert Symbols<V>(signs + [c]) == Symbols(signs) + [Sym(c)];
  }

  lemma {:induction false} StepOpening<V>(num: Numeric<V>, ctx: Context<V>, signs: string, cfg: Config<V>, c: char)
    requires Reads(num, Waiting(ctx, signs), Text(ctx) + Symbols(signs), cfg) && IsOpen(c)
    ensures Continues(num, Waiting(Opened(signs, c, ctx), []), Text(ctx) + Symbols(signs) + [Sym(c)], Step(num, cfg, Sym(c)))
  {
    assert Text(Opened(signs, c, ctx)) + Symbols([]) == Text(ctx) + Symbols(signs) + [Sym(c)];
  }

  lemma {:induction false} StepRejected<V>(num: Numeric<V>, cfg: Config<V>, t: Token<V>)
    requires cfg.state == WaitingForNum
    requires !t.Num? && (t.Sym? ==> !IsSign(t.c) && !IsOpen(t.c))
    ensures Step(num, cfg, t) == Halt(SyntaxError)
  {
  }

  lemma {:induction false} StepWaiting<V>(num: Numeric<V>, rd: Reading<V>, toks: seq<Token<V>>, cfg: Config<V>, t: Token<V>)
    returns (rd': Reading<V>)
    requires rd.Waiting? && Reads(num, rd, toks, cfg)
    ensures Continues(num, rd', toks + [t], Step(num, cfg, t))
  {
    if t.Num? {
      rd' := Have(rd.ctx, Leaf(rd.signs, t.value));
      StepNumber(num, rd.ctx, rd.signs, cfg, t.value);
    } else if t.Sym? && IsSign(t.c) {
      rd' := Waiting(rd.ctx, rd.signs + [t.c]);
      StepSign(num, rd.ctx, rd.signs, cfg, t.c);
    } else if t.Sym? && IsOpen(t.c) {
      rd' := Waiting(Opened(rd.signs, t.c, rd.ctx), []);
      StepOpening(num, rd.ctx, rd.signs, cfg, t.c);
    } else {
      rd' := rd;
      StepRejected(num, cfg, t);
    }
  }

  lemma {:induction false} StepHaveOperator<V>(num: Numeric<V>, rd: Reading<V>, toks: seq<Token<V>>, cfg: Config<V>, op: char)
    returns (rd': Reading<V>)
    requires rd.Have? && Reads(num, rd, toks, cfg) && IsOperator(op)
    ensures Continues(num, rd', toks + [Sym(op)], Step(num, cfg, Sym(op)))
  {
    StepOperator(num, cfg, op);
    var ctx, e := ReduceSound(num, rd.ctx, rd.e, Threshold(op));
    rd' := Waiting(Pending(e, op, ctx), []);
    if Reduced(num, ctx, e, Threshold(op), toks) {
      PendingSound(num, ctx, e, op);
    }
  }

  lemma {:induction false} PendingSound<V>(num: Numeric<V>, ctx: Context<V>, e: Expr<V>, op: char)
    requires IsOperator(op) && Reduced(num, ctx, e, Threshold(op), Text(ctx) + Print(e))
    ensures Reads(num, Waiting(Pending(e, op, ctx), []), Text(ctx) + Print(e) + [Sym(op)],
                  Config(FilledVals(num, ctx, e), OpsOf(ctx) + [op], 1, WaitingForNum))
  {
    assert Holds(OpsOf(ctx), Precedence(op)) by {
      if !ctx.Outermost? {
        assert Last(OpsOf(ctx)) == if ctx.Opened? then ctx.open else ctx.op;
      }
    }
    assert Text(Pending(e, op, ctx)) + Symbols([]) == Text(ctx) + Print(e) + [Sym(op)];
  }

  lemma {:induction false} StepHaveClosing<V>(num: Numeric<V>, rd: Reading<V>, toks: seq<Token<V>>, cfg: Config<V>, open: char)
    returns (rd': Reading<V>)
    requires rd.Have? && Reads(num, rd, toks, cfg) && IsOpen(open)
    ensures Continues(num, rd', toks + [Sym(Closing(open))], Step(num, cfg, Sym(Closing(open))))
  {
    rd' := rd;
    StepClosing(num, cfg, open);
    var ctx, e := ReduceSound(num, rd.ctx, rd.e, 0);
    if Reduced(num, ctx, e, 0, toks) {
      if ctx.Opened? {
        assert Last(OpsOf(ctx)) == ctx.open && Init(OpsOf(ctx)) == OpsOf(ctx.outer);
        rd' := Have(ctx.outer, Bracket(ctx.signs, ctx.open, e));
        BracketSound(num, ctx, e);
      }
    }
  }

  lemma {:induction false} BracketSound<V>(num: Numeric<V>, ctx: Context<V>, e: Expr<V>)
    requires ctx.Opened? && Filled(num, ctx, e)
    ensures Reads(num, Have(ctx.outer, Bracket(ctx.signs, ctx.open, e)), Text(ctx) + Print(e) + [Sym(Closing(ctx.open))],
                  Config(FilledVals(num, ctx, e), OpsOf(ctx.outer), 1, WaitingForOp))
  {
    var tree := Bracket(ctx.signs, ctx.open, e);
    assert Text(ctx.outer) + Print(tree) == Text(ctx) + Print(e) + [Sym(Closing(ctx.open))];
    assert Value(num, tree, Carry(ctx.outer)) == Value(num, e, Carry(ctx));
  }

  lemma {:induction false} StepHave<V>(num: Numeric<V>, rd: Reading<V>, toks: seq<Token<V>>, cfg: Config<V>, t: Token<V>)
    returns (rd': Reading<V>)
    requires rd.Have? && Reads(num, rd, toks, cfg)
    ensures Continues(num, rd', toks + [t], Step(num, cfg, t))
  {
    if t.Sym? && IsOperator(t.c) {
      rd' := StepHaveOperator(num, rd, toks, cfg, t.c);
    } else if t.Sym? && t.c in ")]}" {
      rd' := StepHaveClosing(num, rd, toks, cfg, if t.c == ')' then '(' else if t.c == ']' then '[' else '{');
    } else {
      rd' := rd;
      StepRefused(num, cfg, t);
    }
  }

  lemma {:induction false} StepRefused<V>(num: Numeric<V>, cfg: Config<V>, t: Token<V>)
    requires cfg.state == WaitingForOp
    requires t.Sym? ==> !IsOperator(t.c) && t.c !in ")]}"
    ensures Step(num, cfg, t) == Halt(SyntaxError)
  {
  }

  /** Along every run the two stacks spell out the tokens read so far. */
  lemma {:induction false} RunReads<V>(num: Numeric<V>, rd: Reading<V>, before: seq<Token<V>>, cfg: Config<V>, toks: seq<Token<V>>)
    returns (rd': Reading<V>)
    requires Reads(num, rd, before, cfg)
    ensures Continues(num, rd', before + toks, RunTo(num, toks, cfg))
    decreases |toks|
  {
    if toks == [] {
      rd' := rd;
      assert before + toks == before;
    } else {
      if rd.Waiting? {
        rd' := StepWaiting(num, rd, before, cfg, toks[0]);
      } else {
        rd' := StepHave(num, rd, before, cfg, toks[0]);
      }
      rd' := RunReadsRest(num, rd', before, toks, Step(num, cfg, toks[0]));
    }
  }

  lemma {:induction false} RunReadsRest<V>(num: Numeric<V>, rd: Reading<V>, before: seq<Token<V>>, toks: seq<Token<V>>, o: Outcome<V>)
    returns (rd': Reading<V>)
    requires toks != [] && Continues(num, rd, before + [toks[0]], o)
    ensures Continues(num, rd', before + toks, Then(num, o, toks[1..]))
    decreases |toks|, 0
  {
    rd' := rd;
    if o.Go? {
      rd' := RunReads(num, rd, before + [toks[0]], o.cfg, toks[1..]);
      assert before + [toks[0]] + toks[1..] == before + toks;
    }
  }

  // ---------- main results ----------

  /** `e` is a reading of the token sequence. */
  ghost predicate Parses<V>(e: Expr<V>, toks: seq<Token<V>>) {
    Grammatical(e) && Print(e) == toks
  }

  /** The tokens spell a grammatical tree with this value ... */
  ghost predicate Means<V(!new)>(num: Numeric<V>, toks: seq<Token<V>>, v: V) {
    exists e :: Parses(e, toks) && Value(num, e, 1) == Some(v)
  }

  /** ... or one in which some operation is a math error. */
  ghost predicate MeansNothing<V(!new)>(num: Numeric<V>, toks: seq<Token<V>>) {
    exists e :: Parses(e, toks) && Value(num, e, 1).None?
  }

  function ResultOf<V>(value: Option<V>): Result<V> {
    if value.Some? then Success(value.value) else MathError
  }

  /** Every text that spells a grammatical tree evaluates to the tree's value, or
      to MATH_ERROR exactly when some operation in it is a math error. */
  lemma {:induction false} GrammaticalComputed<V>(num: Numeric<V>, e: Expr<V>)
    requires Grammatical(e)
    ensures Run(num, Print(e), Start()) == ResultOf(Value(num, e, 1))
  {
    ExprComputes(num, e, Start(), 0);
  }

  /** The end of the text: what is left to apply makes one tree of everything read. */
  lemma {:induction false} FinishReads<V>(num: Numeric<V>, rd: Reading<V>, toks: seq<Token<V>>, cfg: Config<V>) returns (e: Expr<V>)
    requires Reads(num, rd, toks, cfg)
    ensures Finish(num, cfg) != Underflow
    ensures Finish(num, cfg).Success? ==> Parses(e, toks) && Value(num, e, 1) == Some(Finish(num, cfg).value)
  {
    e := Leaf([], ValueAny(num));
    if rd.Have? {
      var ctx, tree := ReduceSound(num, rd.ctx, rd.e, 0);
      e := tree;
      if ctx.Outermost? { assert Text(ctx) + Print(tree) == Print(tree); }
    }
  }

  /** A successful run has read exactly one grammatical tree and returns its value. */
  lemma {:induction false} AcceptedGrammatical<V>(num: Numeric<V>, toks: seq<Token<V>>) returns (e: Expr<V>)
    ensures Run(num, toks, Start()) != Underflow
    ensures Run(num, toks, Start()).Success? ==>
              Parses(e, toks) && Value(num, e, 1) == Some(Run(num, toks, Start()).value)
  {
    var start := Waiting(Outermost, []);
    assert Reads(num, start, [], Start());
    var rd := RunReads(num, start, [], Start(), toks);
    e := Leaf([], ValueAny(num));
    if RunTo(num, toks, Start()).Go? {
      assert [] + toks == toks;
      e := FinishReads(num, rd, toks, RunTo(num, toks, Start()).cfg);
    }
  }

  function ValueAny<V>(num: Numeric<V>): V { num.strtod([]).0 }

  lemma {:induction false} RunIffMeans<V(!new)>(num: Numeric<V>, toks: seq<Token<V>>, v: V)
    ensures Run(num, toks, Start()) == Success(v) <==> Means(num, toks, v)
  {
    var e := AcceptedGrammatical(num, toks);
    if e' :| Parses(e', toks) && Value(num, e', 1) == Some(v) {
      GrammaticalComputed(num, e');
    }
  }

  /** The calculator succeeds with `v` exactly on the texts that spell a grammatical tree of value `v`. */
  lemma {:induction false} EvaluateIffParses<V(!new)>(num: Numeric<V>, text: string, v: V)
    ensures Evaluate(num, text) == Success(v) <==> Means(num, Lex(num, text, 0), v)
  {
    RunIffMeans(num, Lex(num, text, 0), v);
  }
}
