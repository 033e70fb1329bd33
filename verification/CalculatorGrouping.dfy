/** How the calculator groups what it reads, in plain terms: the strata of the usual grammar, and the
    results of short texts written out (projects/calculator/src/calculator.c). No table of the machine
    is used to state them. */
module CalculatorGrouping {

  import opened Wrappers
  import opened Calculator

  // ---------- the usual grammar ----------

  /** sum: product | sum '+' product | sum '-' product */
  predicate IsSum<V>(e: Expr<V>)
    decreases e, 3
  {
    if e.Binary? && (e.op == '+' || e.op == '-') then IsSum(e.left) && IsProduct(e.right) else IsProduct(e)
  }

  /** product: power | product '*' power | product '/' power */
  predicate IsProduct<V>(e: Expr<V>)
    decreases e, 2
  {
    if e.Binary? && (e.op == '*' || e.op == '/') then IsProduct(e.left) && IsPower(e.right) else IsPower(e)
  }

  /** power: atom | atom '^' power */
  predicate IsPower<V>(e: Expr<V>)
    decreases e, 1
  {
    if e.Binary? && e.op == '^' then IsAtom(e.left) && IsPower(e.right) else IsAtom(e)
  }

  /** atom: signs number | signs '(' sum ')' | signs '[' sum ']' | signs '{' sum '}' */
  predicate IsAtom<V>(e: Expr<V>)
    decreases e, 0
  {
    && !e.Binary?
    && (forall i :: 0 <= i < |e.signs| ==> e.signs[i] == '+' || e.signs[i] == '-')
    && (e.Bracket? ==> (e.open == '(' || e.open == '[' || e.open == '{') && IsSum(e.body))
  }

  /** Precedence and associativity are those of the usual grammar. */
  lemma {:induction false} GrammaticalIffSum<V>(e: Expr<V>)
    ensures Grammatical(e) <==> IsSum(e)
    ensures Grammatical(e) && Level(e) >= 2 <==> IsProduct(e)
    ensures Grammatical(e) && Level(e) >= 3 <==> IsPower(e)
    ensures Grammatical(e) && Level(e) >= 4 <==> IsAtom(e)
  {
    match e
    case Leaf(_, _) => AtomStrata(e);
    case Bracket(_, _, body) =>
      GrammaticalIffSum(body);
      AtomStrata(e);
    case Binary(op, l, r) =>
      GrammaticalIffSum(l);
      GrammaticalIffSum(r);
      BinaryStrata(e);
  }

  lemma {:induction false} AtomStrata<V>(e: Expr<V>)
    requires !e.Binary?
    ensures IsSum(e) == IsProduct(e) == IsPower(e) == IsAtom(e)
  {}

  /** The strata of an operation, by its operator. */
  lemma {:induction false} BinaryStrata<V>(e: Expr<V>)
    requires e.Binary?
    ensures !IsAtom(e) && (IsPower(e) <==> e.op == '^' && IsAtom(e.left) && IsPower(e.right))
    ensures IsProduct(e) <==> if e.op == '*' || e.op == '/' then IsProduct(e.left) && IsPower(e.right) else IsPower(e)
    ensures IsSum(e) <==> if e.op == '+' || e.op == '-' then IsSum(e.left) && IsProduct(e.right) else IsProduct(e)
  {}

  // ---------- what it amounts to ----------

  /** One operation; an error of an operand is one of the whole. */
  function Applied<V>(num: Numeric<V>, left: Result<V>, op: char, right: Result<V>): Result<V> {
    if !left.Success? then left
    else if !right.Success? then right
    else
      var x, y := left.value, right.value;
      match op
      case '+' => Success(num.add(x, y))
      case '-' => Success(num.sub(x, y))
      case '*' => Success(num.mul(x, y))
      case '/' => if num.isZero(y) then MathError else Success(num.div(x, y))
      case _ =>
        if (num.isZero(x) && num.isZero(y)) || (num.isNegative(x) && !num.isIntegral(y)) then MathError
        else Success(num.pow(x, y))
  }

  /** How many of the signs are minuses, odd or even. */
  predicate Negates(signs: string)
    decreases |signs|
  {
    signs != [] && (signs[0] == '-') != Negates(signs[1..])
  }

  /** The result of a tree; a pending minus goes to its first literal. */
  function Meaning<V>(num: Numeric<V>, e: Expr<V>, minus: bool): Result<V> {
    match e
    case Leaf(signs, v) => Success(if minus != Negates(signs) then num.negate(v) else v)
    case Bracket(signs, _, body) => Meaning(num, body, minus != Negates(signs))
    case Binary(op, l, r) => Applied(num, Meaning(num, l, minus), op, Meaning(num, r, false))
  }

  lemma {:induction false} SignsNegate(signs: string, sign: int)
    ensures AfterSigns(signs, sign) == if Negates(signs) then -sign else sign
    decreases |signs|
  {
    if signs != [] { SignsNegate(signs[1..], if signs[0] == '-' then -sign else sign); }
  }

  lemma {:induction false} AppliedComputes<V>(num: Numeric<V>, x: V, op: char, y: V)
    requires IsOperator(op)
    ensures Applied(num, Success(x), op, Success(y)) == ResultOf(Compute(num, op, x, y))
  {}

  lemma {:induction false} MeaningIsValue<V>(num: Numeric<V>, e: Expr<V>, minus: bool)
    requires Grammatical(e)
    ensures Meaning(num, e, minus) == ResultOf(Value(num, e, if minus then -1 else 1))
  {
    match e
    case Leaf(signs, _) => SignsNegate(signs, if minus then -1 else 1);
    case Bracket(signs, _, body) =>
      SignsNegate(signs, if minus then -1 else 1);
      MeaningIsValue(num, body, minus != Negates(signs));
    case Binary(op, l, r) =>
      MeaningIsValue(num, l, minus);
      MeaningIsValue(num, r, false);
      var x, y := Value(num, l, if minus then -1 else 1), Value(num, r, 1);
      if x.Some? && y.Some? { AppliedComputes(num, x.value, op, y.value); }
  }

  /** Every tree of the usual grammar, printed, gives its result. */
  lemma {:induction false} SumComputed<V>(num: Numeric<V>, e: Expr<V>)
    requires IsSum(e)
    ensures Run(num, Print(e), Start()) == Meaning(num, e, false)
  {
    GrammaticalIffSum(e);
    MeaningIsValue(num, e, false);
    GrammaticalComputed(num, e);
  }

  /** And a run that succeeds has read such a tree. */
  lemma {:induction false} SumRead<V>(num: Numeric<V>, toks: seq<Token<V>>) returns (e: Expr<V>)
    ensures Run(num, toks, Start()).Success? ==> IsSum(e) && Print(e) == toks && Meaning(num, e, false) == Run(num, toks, Start())
  {
    e := AcceptedGrammatical(num, toks);
    if Run(num, toks, Start()).Success? {
      GrammaticalIffSum(e);
      MeaningIsValue(num, e, false);
    }
  }

  // ---------- short texts ----------

  predicate IsBinary(c: char) { c == '+' || c == '-' || c == '*' || c == '/' || c == '^' }

  function Number<V>(x: V): Expr<V> { Leaf([], x) }

  lemma {:induction false} PrintNumber<V>(x: V)
    ensures Print(Number(x)) == [Num(x)]
  {
    assert Symbols<V>([]) == [];
  }

  /** The five operations, operands in order. */
  lemma {:induction false} TwoNumbers<V>(num: Numeric<V>, x: V, y: V)
    ensures Run(num, [Num(x), Sym('+'), Num(y)], Start()) == Success(num.add(x, y))
    ensures Run(num, [Num(x), Sym('-'), Num(y)], Start()) == Success(num.sub(x, y))
    ensures Run(num, [Num(x), Sym('*'), Num(y)], Start()) == Success(num.mul(x, y))
    ensures Run(num, [Num(x), Sym('/'), Num(y)], Start()) == if num.isZero(y) then MathError else Success(num.div(x, y))
    ensures Run(num, [Num(x), Sym('^'), Num(y)], Start()) ==
            if (num.isZero(x) && num.isZero(y)) || (num.isNegative(x) && !num.isIntegral(y)) then MathError else Success(num.pow(x, y))
  {
    OneOperation(num, x, '+', y);
    OneOperation(num, x, '-', y);
    OneOperation(num, x, '*', y);
    OneOperation(num, x, '/', y);
    OneOperation(num, x, '^', y);
  }

  lemma {:induction false} OneOperation<V>(num: Numeric<V>, x: V, op: char, y: V)
    requires IsBinary(op)
    ensures Run(num, [Num(x), Sym(op), Num(y)], Start()) == Applied(num, Success(x), op, Success(y))
  {
    var e := Binary(op, Number(x), Number(y));
    PrintNumber(x);
    PrintNumber(y);
    assert Print(e) == [Num(x), Sym(op), Num(y)];
    NumberStrata(num, x);
    NumberStrata(num, y);
    BinaryStrata(e);
    SumComputed(num, e);
  }

  /** The second operator takes the middle number: '^' after any operator, '*' and '/' after '+' and '-'. */
  predicate TakesMiddle(first: char, second: char) {
    second == '^' || ((second == '*' || second == '/') && (first == '+' || first == '-'))
  }

  function Grouped<V>(num: Numeric<V>, x: V, a: char, y: V, b: char, z: V): Result<V> {
    if TakesMiddle(a, b) then Applied(num, Success(x), a, Applied(num, Success(y), b, Success(z)))
    else Applied(num, Applied(num, Success(x), a, Success(y)), b, Success(z))
  }

  /** Any two operators between three numbers. */
  lemma {:induction false} ThreeNumbers<V>(num: Numeric<V>, x: V, a: char, y: V, b: char, z: V)
    requires IsBinary(a) && IsBinary(b)
    ensures Run(num, [Num(x), Sym(a), Num(y), Sym(b), Num(z)], Start()) == Grouped(num, x, a, y, b, z)
  {
    PrintNumber(x);
    PrintNumber(y);
    PrintNumber(z);
    if TakesMiddle(a, b) {
      var e := Binary(a, Number(x), Binary(b, Number(y), Number(z)));
      assert Print(e) == [Num(x), Sym(a), Num(y), Sym(b), Num(z)];
      GroupsRight(num, x, a, y, b, z);
      SumComputed(num, e);
    } else {
      var e := Binary(b, Binary(a, Number(x), Number(y)), Number(z));
      assert Print(e) == [Num(x), Sym(a), Num(y), Sym(b), Num(z)];
      GroupsLeft(num, x, a, y, b, z);
      SumComputed(num, e);
    }
  }

  lemma {:induction false} GroupsRight<V>(num: Numeric<V>, x: V, a: char, y: V, b: char, z: V)
    requires IsBinary(a) && IsBinary(b) && TakesMiddle(a, b)
    ensures var e := Binary(a, Number(x), Binary(b, Number(y), Number(z))); IsSum(e) && Meaning(num, e, false) == Grouped(num, x, a, y, b, z)
  {
    var right := Binary(b, Number(y), Number(z));
    NumberStrata(num, x);
    NumberStrata(num, y);
    NumberStrata(num, z);
    BinaryStrata(right);
    BinaryStrata(Binary(a, Number(x), right));
  }

  lemma {:induction false} GroupsLeft<V>(num: Numeric<V>, x: V, a: char, y: V, b: char, z: V)
    requires IsBinary(a) && IsBinary(b) && !TakesMiddle(a, b)
    ensures var e := Binary(b, Binary(a, Number(x), Number(y)), Number(z)); IsSum(e) && Meaning(num, e, false) == Grouped(num, x, a, y, b, z)
  {
    var left := Binary(a, Number(x), Number(y));
    NumberStrata(num, x);
    NumberStrata(num, y);
    NumberStrata(num, z);
    BinaryStrata(left);
    BinaryStrata(Binary(b, left, Number(z)));
  }

  lemma {:induction false} NumberStrata<V>(num: Numeric<V>, x: V)
    ensures IsAtom(Number(x)) && IsPower(Number(x)) && IsProduct(Number(x)) && IsSum(Number(x))
    ensures Meaning(num, Number(x), false) == Success(x)
  {
    AtomStrata(Number(x));
  }

  // ---------- brackets ----------

  predicate Matches(open: char, close: char) {
    (open == '(' && close == ')') || (open == '[' && close == ']') || (open == '{' && close == '}')
  }

  /** Brackets of either kind group first, and only with their own kind. */
  lemma {:induction false} BracketedPair<V>(num: Numeric<V>, open: char, x: V, a: char, y: V, close: char, b: char, z: V)
    requires IsBinary(a) && IsBinary(b) && Matches(open, close)
    ensures Run(num, [Sym(open), Num(x), Sym(a), Num(y), Sym(close), Sym(b), Num(z)], Start())
         == Applied(num, Applied(num, Success(x), a, Success(y)), b, Success(z))
  {
    var pair := Binary(a, Number(x), Number(y));
    var e := Binary(b, Bracket([], open, pair), Number(z));
    PrintNumber(x);
    PrintNumber(y);
    PrintNumber(z);
    assert Print(pair) == [Num(x), Sym(a), Num(y)];
    assert Symbols<V>([]) == [];
    assert Print(Bracket([], open, pair)) == [Sym(open), Num(x), Sym(a), Num(y), Sym(close)];
    assert Print(e) == [Sym(open), Num(x), Sym(a), Num(y), Sym(close), Sym(b), Num(z)];
    NumberStrata(num, x);
    NumberStrata(num, y);
    NumberStrata(num, z);
    BinaryStrata(pair);
    AtomStrata(Bracket([], open, pair));
    BinaryStrata(e);
    assert Meaning(num, pair, false) == Applied(num, Success(x), a, Success(y));
    assert Meaning(num, Bracket([], open, pair), false) == Meaning(num, pair, false);
    SumComputed(num, e);
  }

  lemma {:induction false} MismatchedPair<V>(num: Numeric<V>, open: char, x: V, close: char)
    requires IsOpen(open) && (close == ')' || close == ']' || close == '}') && !Matches(open, close)
    ensures Run(num, [Sym(open), Num(x), Sym(close)], Start()) == SyntaxError
  {
    var c := Config([], [open], 1, WaitingForNum);
    var d := Config([x], [open], 1, WaitingForOp);
    assert Step(num, Start(), Sym(open)) == Go(c);
    assert Step(num, c, Num(x)) == Go(d);
    ClosesOther(num, d, open, close);
    RunStep(num, [Sym(open), Num(x), Sym(close)], Sym(open), [Num(x), Sym(close)], Start());
    RunStep(num, [Num(x), Sym(close)], Num(x), [Sym(close)], c);
    RunStep(num, [Sym(close)], Sym(close), [], d);
  }

  lemma {:induction false} ClosesOther<V>(num: Numeric<V>, cfg: Config<V>, open: char, close: char)
    requires IsOpen(open) && (close == ')' || close == ']' || close == '}') && !Matches(open, close)
    requires cfg.state == WaitingForOp && cfg.ops == [open]
    ensures Step(num, cfg, Sym(close)) == Halt(SyntaxError)
  {}

  lemma {:induction false} RunStep<V>(num: Numeric<V>, toks: seq<Token<V>>, t: Token<V>, rest: seq<Token<V>>, cfg: Config<V>)
    requires toks == [t] + rest
    ensures var o := Step(num, cfg, t); Run(num, toks, cfg) == if o.Halt? then o.result else Run(num, rest, o.cfg)
  {
    assert toks[1..] == rest;
  }

  // ---------- texts ----------

  predicate IsBlank(c: char) { c == ' ' || c == '\t' || c == '\n' || c == '\r' || c == '\U{0b}' || c == '\U{0c}' }

  predicate StartsNumber(c: char) { '0' <= c <= '9' || c == '.' }

  predicate IsMark(c: char) { IsBinary(c) || c == '(' || c == ')' || c == '[' || c == ']' || c == '{' || c == '}' }

  function SkipBlanks(text: string, from: nat): (p: nat)
    requires from <= |text|
    ensures from <= p <= |text|
    decreases |text| - from
  {
    if from < |text| && IsBlank(text[from]) then SkipBlanks(text, from + 1) else from
  }

  /** Where the token that starts at `p` ends; `strtod` says how long a number is. */
  function TokenEnd<V>(num: Numeric<V>, text: string, p: nat): nat
    requires p < |text|
  {
    if StartsNumber(text[p]) then p + num.strtod(text[p..]).1 else p + 1
  }

  /** The token at `p` is this one. */
  ghost predicate TokenAt<V>(num: Numeric<V>, text: string, p: nat, t: Token<V>) {
    && p < |text| && p < TokenEnd(num, text, p) <= |text|
    && match t
       case Num(v) => StartsNumber(text[p]) && num.strtod(text[p..]).0 == v
       case Sym(c) => text[p] == c && IsMark(c)
       case Bad => false
  }

  /** The characters from `from` on are these tokens, with blanks wherever one likes. */
  ghost predicate Spelled<V>(num: Numeric<V>, text: string, from: nat, toks: seq<Token<V>>)
    requires from <= |text|
    decreases |toks|
  {
    var p := SkipBlanks(text, from);
    if toks == [] then p == |text|
    else TokenAt(num, text, p, toks[0]) && Spelled(num, text, TokenEnd(num, text, p), toks[1..])
  }

  lemma {:induction false} LexBlank<V>(num: Numeric<V>, text: string, from: nat)
    requires from < |text| && IsBlank(text[from])
    ensures Lex(num, text, from) == Lex(num, text, from + 1)
  {}

  lemma {:induction false} LexSkips<V>(num: Numeric<V>, text: string, from: nat)
    requires from <= |text|
    ensures Lex(num, text, from) == Lex(num, text, SkipBlanks(text, from))
    ensures SkipBlanks(text, from) < |text| ==> !IsBlank(text[SkipBlanks(text, from)])
    decreases |text| - from
  {
    if from < |text| && IsBlank(text[from]) {
      LexBlank(num, text, from);
      LexSkips(num, text, from + 1);
    }
  }

  lemma {:induction false} LexFirst<V>(num: Numeric<V>, text: string, p: nat, t: Token<V>)
    requires TokenAt(num, text, p, t)
    ensures Lex(num, text, p) == [t] + Lex(num, text, TokenEnd(num, text, p))
  {}

  lemma {:induction false} SpelledLexes<V>(num: Numeric<V>, text: string, from: nat, toks: seq<Token<V>>)
    requires from <= |text| && Spelled(num, text, from, toks)
    ensures Lex(num, text, from) == toks
    decreases |toks|
  {
    LexSkips(num, text, from);
    var p := SkipBlanks(text, from);
    if toks != [] {
      LexFirst(num, text, p, toks[0]);
      SpelledLexes(num, text, TokenEnd(num, text, p), toks[1..]);
      assert toks == [toks[0]] + toks[1..];
    }
  }

  predicate Marks<V>(toks: seq<Token<V>>) { forall i :: 0 <= i < |toks| ==> !toks[i].Bad? && (toks[i].Sym? ==> IsMark(toks[i].c)) }

  lemma {:induction false} FirstLexed<V>(num: Numeric<V>, text: string, p: nat)
    requires p < |text| && !IsBlank(text[p]) && Marks(Lex(num, text, p))
    ensures Lex(num, text, p) != [] && TokenAt(num, text, p, Lex(num, text, p)[0])
    ensures Lex(num, text, p)[1..] == Lex(num, text, TokenEnd(num, text, p))
  {
    assert !Lex(num, text, p)[0].Bad?;
  }

  lemma {:induction false} LexesSpelled<V>(num: Numeric<V>, text: string, from: nat)
    requires from <= |text| && Marks(Lex(num, text, from))
    ensures Spelled(num, text, from, Lex(num, text, from))
    decreases |text| - from
  {
    LexSkips(num, text, from);
    var p, toks := SkipBlanks(text, from), Lex(num, text, from);
    if p < |text| {
      FirstLexed(num, text, p);
      LexesSpelled(num, text, TokenEnd(num, text, p));
    }
  }

  lemma {:induction false} SumMarks<V>(e: Expr<V>)
    requires Grammatical(e)
    ensures Marks(Print(e))
  {
    match e
    case Leaf(_, _) =>
    case Bracket(_, _, body) => SumMarks(body);
    case Binary(_, l, r) =>
      SumMarks(l);
      SumMarks(r);
  }

  /** The text spells this tree of the usual grammar. */
  ghost predicate ReadsAs<V>(num: Numeric<V>, text: string, e: Expr<V>) {
    IsSum(e) && Spelled(num, text, 0, Print(e))
  }

  /** A text that spells a tree gets its result. */
  lemma {:induction false} TextComputed<V>(num: Numeric<V>, text: string, e: Expr<V>)
    requires ReadsAs(num, text, e)
    ensures Evaluate(num, text) == Meaning(num, e, false)
  {
    SpelledLexes(num, text, 0, Print(e));
    SumComputed(num, e);
  }

  /** And a text that gets a value spells such a tree. */
  lemma {:induction false} TextRead<V>(num: Numeric<V>, text: string) returns (e: Expr<V>)
    ensures Evaluate(num, text).Success? ==> ReadsAs(num, text, e) && Meaning(num, e, false) == Evaluate(num, text)
  {
    e := SumRead(num, Lex(num, text, 0));
    if Evaluate(num, text).Success? {
      GrammaticalIffSum(e);
      SumMarks(e);
      LexesSpelled(num, text, 0);
    }
  }

  /** The text is three numbers with two operators between them. */
  ghost predicate SpellsThree<V>(num: Numeric<V>, text: string, x: V, a: char, y: V, b: char, z: V) {
    IsBinary(a) && IsBinary(b) && Spelled(num, text, 0, [Num(x), Sym(a), Num(y), Sym(b), Num(z)])
  }

  lemma {:induction false} ThreeComputed<V>(num: Numeric<V>, text: string, x: V, a: char, y: V, b: char, z: V)
    requires SpellsThree(num, text, x, a, y, b, z)
    ensures Evaluate(num, text) == Grouped(num, x, a, y, b, z)
  {
    SpelledLexes(num, text, 0, [Num(x), Sym(a), Num(y), Sym(b), Num(z)]);
    ThreeNumbers(num, x, a, y, b, z);
  }
}
