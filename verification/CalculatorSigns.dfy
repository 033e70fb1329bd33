/** Where the calculator's treatment of a sign before a bracket is, and is not, the
    usual one (projects/calculator/src/calculator.c, lines 406-440): the sign is
    kept for the first literal inside the bracket instead of applying to the whole. */
module CalculatorSigns {
  import opened Wrappers
  import opened Calculator

  /** The usual reading: a sign run before a bracket applies to the value of the bracket. */
  function Conventional<V>(num: Numeric<V>, e: Expr<V>): Option<V>
    requires Grammatical(e)
  {
    match e
    case Leaf(signs, v) => Some(Signed(num, AfterSigns(signs, 1), v))
    case Bracket(signs, _, body) => SignedResult(num, AfterSigns(signs, 1), Conventional(num, body))
    case Binary(op, l, r) =>
      match (Conventional(num, l), Conventional(num, r))
      case (Some(x), Some(y)) => Compute(num, op, x, y)
      case _ => None
  }

  function SignedResult<V>(num: Numeric<V>, sign: int, r: Option<V>): Option<V> {
    if r.Some? then Some(Signed(num, sign, r.value)) else None
  }

  /** No operation is reached with a minus sign still pending: every minus stands, through
      any number of directly nested brackets, before a single literal or cancels out. */
  predicate NoPendingMinus<V>(e: Expr<V>, sign: int) {
    match e
    case Leaf(_, _) => true
    case Bracket(signs, _, body) => NoPendingMinus(body, AfterSigns(signs, sign))
    case Binary(_, l, r) => sign == 1 && NoPendingMinus(l, 1) && NoPendingMinus(r, 1)
  }

  lemma {:induction false} AfterSignsScales(signs: string, sign: int)
    requires sign == 1 || sign == -1
    ensures AfterSigns(signs, 1) == 1 || AfterSigns(signs, 1) == -1
    ensures AfterSigns(signs, sign) == if sign == 1 then AfterSigns(signs, 1) else -AfterSigns(signs, 1)
    decreases |signs|
  {
    if signs != [] {
      AfterSignsScales(signs[1..], -1);
      AfterSignsScales(signs[1..], 1);
    }
  }

  /** Under this condition the calculator agrees with the usual reading, for every arithmetic
      in which negating twice changes nothing. */
  lemma {:induction false} ConventionalWhenNoPendingMinus<V>(num: Numeric<V>, e: Expr<V>, sign: int)
    requires Grammatical(e) && NoPendingMinus(e, sign) && (sign == 1 || sign == -1)
    requires forall v :: num.negate(num.negate(v)) == v
    ensures Value(num, e, sign) == SignedResult(num, sign, Conventional(num, e))
    decreases e
  {
    match e
    case Leaf(signs, _) => AfterSignsScales(signs, sign);
    case Bracket(signs, _, body) =>
      AfterSignsScales(signs, sign);
      ConventionalWhenNoPendingMinus(num, body, AfterSigns(signs, sign));
    case Binary(_, l, r) =>
      ConventionalWhenNoPendingMinus(num, l, 1);
      ConventionalWhenNoPendingMinus(num, r, 1);
  }

  /** Arithmetic that records what it is asked to do. */
  datatype Term = Literal(negated: bool, n: int) | Operation(negated: bool, op: char, left: Term, right: Term)

  function Negate(t: Term): Term { t.(negated := !t.negated) }

  function Recording(): Numeric<Term> {
    Numeric((x, y) => Operation(false, '+', x, y), (x, y) => Operation(false, '-', x, y),
            (x, y) => Operation(false, '*', x, y), (x, y) => Operation(false, '/', x, y),
            (x, y) => Operation(false, '^', x, y),
            Negate, _ => false, _ => false, _ => true, _ => (Literal(false, 0), 0))
  }

  /** The condition is exact: whenever it fails, the two readings perform different operations. */
  lemma {:induction false} ConventionalOnlyWhenNoPendingMinus(e: Expr<Term>, sign: int)
    requires Grammatical(e) && (sign == 1 || sign == -1)
    ensures Value(Recording(), e, sign).Some? && Conventional(Recording(), e).Some?
    ensures Value(Recording(), e, sign) == SignedResult(Recording(), sign, Conventional(Recording(), e))
            <==> NoPendingMinus(e, sign)
    decreases e
  {
    match e
    case Leaf(signs, _) => AfterSignsScales(signs, sign);
    case Bracket(signs, _, body) =>
      AfterSignsScales(signs, sign);
      ConventionalOnlyWhenNoPendingMinus(body, AfterSigns(signs, sign));
    case Binary(_, l, r) =>
      ConventionalOnlyWhenNoPendingMinus(l, 1);
      ConventionalOnlyWhenNoPendingMinus(r, 1);
      ConventionalOnlyWhenNoPendingMinus(l, sign);
  }

  function Integers(): Numeric<int> {
    Numeric((x, y) => x + y, (x, y) => x - y, (x, y) => x * y, (x, y) => if y == 0 then 0 else x / y, (x, y) => 0,
            x => -x, x => x == 0, x => x < 0, x => true, _ => (0, 0))
  }

  /** -(2+3) comes out as 1, because it is computed as (-2+3). */
  lemma SignBeforeBracketExample()
    ensures Run(Integers(), [Sym('-'), Sym('('), Num(2), Sym('+'), Num(3), Sym(')')], Start()) == Success(1)
  {
    var sum: Expr<int> := Binary('+', Leaf([], 2), Leaf([], 3));
    var e := Bracket("-", '(', sum);
    assert Print(sum) == [Num(2), Sym('+'), Num(3)];
    assert Print(e) == [Sym('-'), Sym('('), Num(2), Sym('+'), Num(3), Sym(')')];
    assert AfterSigns("-", 1) == AfterSigns("-"[1..], -1) == -1;
    GrammaticalComputed(Integers(), e);
  }
}
