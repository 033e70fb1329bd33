/** The calculator as the program runs it: a cursor into the text, a value stack
    and an operator stack, one transition per loop iteration
    (projects/calculator/src/calculator.c). */
module CalculatorProgram {
  import opened Wrappers
  import opened Calculator
  import opened CalculatorErrors
  import opened CalculatorGrouping
  import opened Stacks

  datatype Status = SUCCESS | MATH_ERROR | SYNTAX_ERROR

  function StatusOf<V>(r: Result<V>): Status {
    match r
    case Success(_) => SUCCESS
    case MathError => MATH_ERROR
    case _ => SYNTAX_ERROR
  }

  predicate OnStack(ops: string) { forall i :: 0 <= i < |ops| ==> IsOperator(ops[i]) || IsOpen(ops[i]) }

  /** strtod never reads past the end of its argument. */
  ghost predicate WithinText<V>(num: Numeric<V>) { forall s: string :: num.strtod(s).1 <= |s| }

  lemma {:induction false} StepAtOperator<V>(num: Numeric<V>, text: string, pos: nat, cfg: Config<V>, op: char)
    requires pos < |text| && text[pos] == op && IsOperator(op) && cfg.state == WaitingForOp
    ensures StepAt(num, text, pos, cfg) ==
            match Reduce(num, cfg.vals, cfg.ops, Threshold(op))
            case Stop(r) => Ended(r)
            case Stacks(vals, ops) => Moved(Config(vals, ops + [op], cfg.sign, WaitingForNum), pos + 1)
  {
    StepOperator(num, cfg, op);
  }

  lemma {:induction false} StepAtClosing<V>(num: Numeric<V>, text: string, pos: nat, cfg: Config<V>, open: char)
    requires pos < |text| && IsOpen(open) && text[pos] == Closing(open) && cfg.state == WaitingForOp
    ensures StepAt(num, text, pos, cfg) ==
            match CloseBracket(num, cfg.vals, cfg.ops, open)
            case Stop(r) => Ended(r)
            case Stacks(vals, ops) => Moved(cfg.(vals := vals, ops := ops), pos + 1)
  {
    StepClosing(num, cfg, open);
  }

  lemma {:induction false} StepAtError<V>(num: Numeric<V>, text: string, pos: nat, cfg: Config<V>)
    requires pos <= |text| && '\0' !in text
    requires Transition(cfg.state, EventOf(if pos < |text| then text[pos] else '\0')).1 == ActError
    ensures StepAt(num, text, pos, cfg) == Ended(SyntaxError)
  {
  }

  /** ApplyTopOperator's choice of the operation, with its errors. */
  method ComputeOp<V(0)>(num: Numeric<V>, op: char, lhs: V, rhs: V) returns (status: Status, value: V)
    ensures if !IsOperator(op) then status == SYNTAX_ERROR
            else match Compute(num, op, lhs, rhs)
              case None => status == MATH_ERROR
              case Some(v) => status == SUCCESS && value == v
  {
    value := lhs;
    if op == '/' && num.isZero(rhs) {
      return MATH_ERROR, value;
    }
    if op == '^' && ((num.isZero(rhs) && num.isZero(lhs)) || (num.isNegative(lhs) && !num.isIntegral(rhs))) {
      return MATH_ERROR, value;
    }
    match op {
      case '+' => value := num.add(lhs, rhs);
      case '-' => value := num.sub(lhs, rhs);
      case '*' => value := num.mul(lhs, rhs);
      case '/' => value := num.div(lhs, rhs);
      case '^' => value := num.pow(lhs, rhs);
      case _ => return SYNTAX_ERROR, value;
    }
    return SUCCESS, value;
  }

  lemma {:induction false} ReduceDone<V>(num: Numeric<V>, vals0: seq<V>, ops0: seq<char>, vals: seq<V>, ops: seq<char>, threshold: nat)
    requires ops == [] || Precedence(Last(ops)) == 0 || Precedence(Last(ops)) < threshold
    requires Reduce(num, vals0, ops0, threshold) == Reduce(num, vals, ops, threshold)
    ensures Reduce(num, vals0, ops0, threshold) == Stacks(vals, ops)
  {}

  /** Where the reduction has come to a bracket, that bracket decides. */
  lemma {:induction false} CloseAtOpen<V>(num: Numeric<V>, vals0: seq<V>, ops0: seq<char>, vals: seq<V>, ops: seq<char>, open: char)
    requires ops != [] && IsOpen(Last(ops)) && Reduce(num, vals0, ops0, 0) == Reduce(num, vals, ops, 0)
    ensures CloseBracket(num, vals0, ops0, open) == if Last(ops) == open then Stacks(vals, Init(ops)) else Stop(SyntaxError)
  {}

  lemma {:induction false} CloseFails<V>(num: Numeric<V>, vals: seq<V>, ops: seq<char>, open: char, status: Status)
    requires Reduce(num, vals, ops, 0).Stop? && status == StatusOf(Reduce(num, vals, ops, 0).error)
    ensures CloseBracket(num, vals, ops, open).Stop? && status == StatusOf(CloseBracket(num, vals, ops, open).error)
  {}

  /** One turn of a reducing loop leaves what it leads to, or ends with its error. */
  ghost predicate Continued<V>(before: Calculator.Stacks<V>, status: Status, after: Calculator.Stacks<V>) {
    if status == SUCCESS then after == before else before.Stop? && status == StatusOf(before.error)
  }

  class CalcData<V(0)> {
    const num: Numeric<V>
    const text: string
    const valuesStack: Stack<V>
    const opsStack: Stack<char>
    ghost const Repr: set<object>
    var cursor: nat
    var unarySign: int
    var finish: bool
    var out: V

    ghost predicate Valid()
      reads this, Repr
    {
      && Repr == {this, valuesStack, opsStack, valuesStack.elements, opsStack.elements}
      && valuesStack.Valid() && opsStack.Valid()
      && valuesStack.elements as object != opsStack.elements
      && valuesStack as object != opsStack
      && valuesStack as object != this && opsStack as object != this
      && valuesStack.capacity == |text| + 1 && opsStack.capacity == |text| + 1
      && cursor <= |text|
      && OnStack(Ops())
    }

    ghost function Values(): seq<V>
      requires valuesStack.Valid()
      reads valuesStack, valuesStack.elements
    {
      valuesStack.Contents()
    }

    ghost function Ops(): string
      requires opsStack.Valid()
      reads opsStack, opsStack.elements
    {
      opsStack.Contents()
    }

    /** No stack holds more than one element per character read. */
    ghost predicate Fits()
      requires Valid()
      reads Repr
    {
      |Values()| <= cursor && |Ops()| <= cursor
    }

    ghost function Config(state: State): Config<V>
      requires Valid()
      reads Repr
    {
      Calculator.Config(Values(), Ops(), unarySign, state)
    }

    /** InitStacks and the assignments before the loop. */
    constructor (num: Numeric<V>, text: string)
      ensures Valid() && fresh(Repr)
      ensures this.num == num && this.text == text
      ensures cursor == 0 && !finish && Config(WaitingForNum) == Start()
    {
      this.num, this.text := num, text;
      cursor := 0;
      unarySign := 1;
      finish := false;
      out := *;
      var values := new Stack<V>(|text| + 1);
      var ops := new Stack<char>(|text| + 1);
      valuesStack := values;
      opsStack := ops;
      Repr := {this, values, ops, values.elements, ops.elements};
    }

    method ValueStackPush(value: V)
      requires Valid() && |Values()| <= |text|
      modifies valuesStack`top, valuesStack.elements
      ensures Valid() && Values() == old(Values()) + [value] && Ops() == old(Ops())
    {
      valuesStack.Push(value);
    }

    method ValueStackPop() returns (value: V)
      requires Valid() && |Values()| > 0
      modifies valuesStack`top
      ensures Valid() && value == Last(old(Values())) && Values() == Init(old(Values())) && Ops() == old(Ops())
    {
      value := valuesStack.Peek();
      valuesStack.Pop();
    }

    method OpStackPush(op: char)
      requires Valid() && |Ops()| <= |text| && (IsOperator(op) || IsOpen(op))
      modifies opsStack`top, opsStack.elements
      ensures Valid() && Ops() == old(Ops()) + [op] && Values() == old(Values())
    {
      opsStack.Push(op);
    }

    method OpStackPop() returns (op: char)
      requires Valid() && |Ops()| > 0
      modifies opsStack`top
      ensures Valid() && op == Last(old(Ops())) && Ops() == Init(old(Ops())) && Values() == old(Values())
    {
      op := opsStack.Peek();
      opsStack.Pop();
    }

    method ApplyTopOperator() returns (status: Status)
      requires Valid() && |Ops()| > 0 && |Values()| > 1
      modifies valuesStack`top, valuesStack.elements, opsStack`top
      ensures Valid()
      ensures |Values()| < old(|Values()|) && |Ops()| == old(|Ops()|) - 1
      ensures match ApplyTop(num, old(Values()), old(Ops()))
              case Stacks(vals, ops) => status == SUCCESS && Values() == vals && Ops() == ops
              case Stop(r) => status != SUCCESS && status == StatusOf(r)
    {
      ghost var vals, ops := Values(), Ops();
      var op := OpStackPop();
      var rhs := ValueStackPop();
      var lhs := ValueStackPop();
      var value;
      status, value := ComputeOp(num, op, lhs, rhs);
      if status == SUCCESS {
        ValueStackPush(value);
      }
    }

    /** Applies the operator on top, which the reduction is not done with. */
    method ApplyNext(ghost threshold: nat) returns (status: Status)
      requires Valid() && |Ops()| > 0 && Precedence(Last(Ops())) > 0 && Precedence(Last(Ops())) >= threshold
      requires Reduce(num, Values(), Ops(), threshold) != Stop(Underflow)
      modifies valuesStack`top, valuesStack.elements, opsStack`top
      ensures Valid() && |Values()| < old(|Values()|) && |Ops()| == old(|Ops()|) - 1
      ensures Continued(Reduce(num, old(Values()), old(Ops()), threshold), status, Reduce(num, Values(), Ops(), threshold))
    {
      status := ApplyTopOperator();
    }

    method ReduceOperators(op: char) returns (status: Status)
      requires Valid() && Reduce(num, Values(), Ops(), Threshold(op)) != Stop(Underflow)
      requires op == '\0' || IsOperator(op)
      modifies valuesStack`top, valuesStack.elements, opsStack`top
      ensures Valid()
      ensures |Values()| <= old(|Values()|) && |Ops()| <= old(|Ops()|)
      ensures match Reduce(num, old(Values()), old(Ops()), Threshold(op))
              case Stacks(vals, ops) =>
                && Values() == vals && Ops() == ops
                && status == if op == '\0' && ops != [] then SYNTAX_ERROR else SUCCESS
              case Stop(r) => status != SUCCESS && status == StatusOf(r)
    {
      ghost var vals0, ops0 := Values(), Ops();
      while true
        invariant Valid()
        invariant |Values()| <= |vals0| && |Ops()| <= |ops0|
        invariant Reduce(num, vals0, ops0, Threshold(op)) == Reduce(num, Values(), Ops(), Threshold(op)) != Stop(Underflow)
        decreases opsStack.top
      {
        var empty := opsStack.IsEmpty();
        if empty { break; }
        var topOp := opsStack.Peek();
        var topPrec := Precedence(topOp);
        var inputPrec := Precedence(op);
        if topPrec == 0 { break; }
        if topPrec < inputPrec || (topPrec == inputPrec && RightAssociative(op)) { break; }
        status := ApplyNext(Threshold(op));
        if status != SUCCESS {
          return status;
        }
      }
      ReduceDone(num, vals0, ops0, Values(), Ops(), Threshold(op));
      var empty := opsStack.IsEmpty();
      if op == '\0' && !empty {
        return SYNTAX_ERROR;
      }
      return SUCCESS;
    }

    method ReduceUntilOpen(open: char) returns (status: Status)
      requires Valid() && IsOpen(open) && Reduce(num, Values(), Ops(), 0) != Stop(Underflow)
      modifies valuesStack`top, valuesStack.elements, opsStack`top
      ensures Valid()
      ensures |Values()| <= old(|Values()|) && |Ops()| <= old(|Ops()|)
      ensures match CloseBracket(num, old(Values()), old(Ops()), open)
              case Stacks(vals, ops) => status == SUCCESS && Values() == vals && Ops() == ops
              case Stop(r) => status != SUCCESS && status == StatusOf(r)
    {
      ghost var vals0, ops0 := Values(), Ops();
      while true
        invariant Valid()
        invariant |Values()| <= |vals0| && |Ops()| <= |ops0|
        invariant Reduce(num, vals0, ops0, 0) == Reduce(num, Values(), Ops(), 0) != Stop(Underflow)
        decreases opsStack.top
      {
        var empty := opsStack.IsEmpty();
        if empty {
          ReduceDone(num, vals0, ops0, Values(), Ops(), 0);
          status := SYNTAX_ERROR;
          break;
        }
        var topOp := opsStack.Peek();
        ghost var vals1, ops1 := Values(), Ops();
        if topOp == open {
          CloseAtOpen(num, vals0, ops0, vals1, ops1, open);
          topOp := OpStackPop();
          status := SUCCESS;
          break;
        }
        if topOp == '(' || topOp == '[' || topOp == '{' {
          CloseAtOpen(num, vals0, ops0, vals1, ops1, open);
          status := SYNTAX_ERROR;
          break;
        }
        status := ApplyNext(0);
        if status != SUCCESS {
          CloseFails(num, vals0, ops0, open, status);
          break;
        }
      }
    }

    /** The program has made the move: it is in the next configuration, or it has
        stored the result and finished, or it returns the error. */
    ghost predicate Made(move: Move<V>, status: Status, next: State)
      requires Valid()
      reads Repr
    {
      match move
      case Moved(cfg, pos) => status == SUCCESS && !finish && cursor == pos && Config(next) == cfg && Fits()
      case Ended(Success(v)) => status == SUCCESS && finish && out == v
      case Ended(r) => status != SUCCESS && status == StatusOf(r)
    }

    /** A transition can be taken: no stack has to give more than it holds. */
    ghost predicate Ready(state: State)
      reads this, Repr
    {
      Valid() && Fits() && !finish && StepAt(num, text, cursor, Config(state)) != Ended(Underflow)
    }

    method ActSkip(state: State) returns (status: Status)
      requires Ready(state) && cursor < |text| && EventOf(text[cursor]) == EvSpace
      modifies this`cursor
      ensures Valid() && Made(StepAt(num, text, old(cursor), old(Config(state))), status, state)
    {
      cursor := cursor + 1;
      return SUCCESS;
    }

    method ActUnary(minus: bool) returns (status: Status)
      requires Ready(WaitingForNum) && cursor < |text| && text[cursor] == if minus then '-' else '+'
      modifies this`cursor, this`unarySign
      ensures Valid() && Made(StepAt(num, text, old(cursor), old(Config(WaitingForNum))), status, WaitingForNum)
    {
      unarySign := if minus then -unarySign else unarySign;
      cursor := cursor + 1;
      return SUCCESS;
    }

    method ActPushNumber() returns (status: Status)
      requires Ready(WaitingForNum) && cursor < |text| && EventOf(text[cursor]) == EvNum && WithinText(num)
      modifies this`cursor, this`unarySign, valuesStack`top, valuesStack.elements
      ensures Valid() && Made(StepAt(num, text, old(cursor), old(Config(WaitingForNum))), status, WaitingForOp)
    {
      var (value, used) := num.strtod(text[cursor..]);
      if used == 0 {
        return SYNTAX_ERROR;
      }
      value := Signed(num, unarySign, value);
      ValueStackPush(value);
      unarySign := 1;
      cursor := cursor + used;
      return SUCCESS;
    }

    method ActPushBinaryOp(op: char) returns (status: Status)
      requires Ready(WaitingForOp) && cursor < |text| && text[cursor] == op && IsOperator(op)
      modifies this`cursor, valuesStack`top, valuesStack.elements, opsStack`top, opsStack.elements
      ensures Valid() && Made(StepAt(num, text, old(cursor), old(Config(WaitingForOp))), status, WaitingForNum)
    {
      StepAtOperator(num, text, cursor, Config(WaitingForOp), op);
      status := ReduceOperators(op);
      OpStackPush(op);
      cursor := cursor + 1;
    }

    method ActOpenBracket(open: char) returns (status: Status)
      requires Ready(WaitingForNum) && cursor < |text| && text[cursor] == open && IsOpen(open)
      modifies this`cursor, opsStack`top, opsStack.elements
      ensures Valid() && Made(StepAt(num, text, old(cursor), old(Config(WaitingForNum))), status, WaitingForNum)
    {
      OpStackPush(open);
      cursor := cursor + 1;
      return SUCCESS;
    }

    method ActCloseBracket(open: char) returns (status: Status)
      requires Ready(WaitingForOp) && cursor < |text| && IsOpen(open) && text[cursor] == Closing(open)
      modifies this`cursor, valuesStack`top, valuesStack.elements, opsStack`top
      ensures Valid() && Made(StepAt(num, text, old(cursor), old(Config(WaitingForOp))), status, WaitingForOp)
    {
      StepAtClosing(num, text, cursor, Config(WaitingForOp), open);
      status := ReduceUntilOpen(open);
      if status != SUCCESS {
        return;
      }
      cursor := cursor + 1;
    }

    method ActEnd() returns (status: Status)
      requires Ready(WaitingForOp) && cursor == |text|
      modifies this`out, this`finish, valuesStack`top, valuesStack.elements, opsStack`top
      ensures Valid() && Made(StepAt(num, text, old(cursor), old(Config(WaitingForOp))), status, WaitingForOp)
    {
      status := ReduceOperators('\0');
      if status != SUCCESS {
        return;
      }
      var size := valuesStack.Size();
      var empty := opsStack.IsEmpty();
      if size != 1 || !empty {
        return SYNTAX_ERROR;
      }
      out := valuesStack.Peek();
      finish := true;
      return SUCCESS;
    }

    /** The row of the table for a number to come ... */
    method ActForNumber(c: char) returns (status: Status)
      requires Ready(WaitingForNum) && WithinText(num) && '\0' !in text && c == At(text, cursor)
      modifies Repr
      ensures Valid() && Made(StepAt(num, text, old(cursor), old(Config(WaitingForNum))), status, Transition(WaitingForNum, EventOf(c)).0)
    {
      var action := Transition(WaitingForNum, EventOf(c)).1;
      if action == ActSpace {
        status := ActSkip(WaitingForNum);
      } else if action == ActUnaryPlus || action == ActUnaryMinus {
        status := ActUnary(action == ActUnaryMinus);
      } else if action == Action.ActPushNumber {
        status := ActPushNumber();
      } else if action.ActOpen? {
        status := ActOpenBracket(action.open);
      } else {
        StepAtError(num, text, cursor, Config(WaitingForNum));
        status := SYNTAX_ERROR;
      }
    }

    /** ... and the row for an operator to come. */
    method ActForOperator(c: char) returns (status: Status)
      requires Ready(WaitingForOp) && '\0' !in text && c == At(text, cursor)
      modifies Repr
      ensures Valid() && Made(StepAt(num, text, old(cursor), old(Config(WaitingForOp))), status, Transition(WaitingForOp, EventOf(c)).0)
    {
      var action := Transition(WaitingForOp, EventOf(c)).1;
      if action == ActSpace {
        status := ActSkip(WaitingForOp);
      } else if action.ActBinary? {
        status := ActPushBinaryOp(action.op);
      } else if action.ActClose? {
        status := ActCloseBracket(action.matching);
      } else if action == Action.ActEnd {
        status := ActEnd();
      } else {
        StepAtError(num, text, cursor, Config(WaitingForOp));
        status := SYNTAX_ERROR;
      }
    }

    method FsmStep(state: State) returns (status: Status, next: State)
      requires Ready(state) && WithinText(num) && '\0' !in text
      modifies Repr
      ensures Valid() && Made(StepAt(num, text, old(cursor), old(Config(state))), status, next)
    {
      var c := At(text, cursor);
      next := Transition(state, EventOf(c)).0;
      if state == WaitingForNum {
        status := ActForNumber(c);
      } else {
        status := ActForOperator(c);
      }
    }
  }

  /** The character at the cursor, the terminating '\0' at the end. */
  function At(text: string, cursor: nat): char { if cursor < |text| then text[cursor] else '\0' }

  /** The whole program: SUCCESS exactly on the texts that spell a grammatical tree with a value,
      which is the result; MATH_ERROR exactly when a failing operation is forced; else SYNTAX_ERROR.
      Verifying it shows that no assertion of the stacks can fail. */
  method Calculate<V(0, !new)>(num: Numeric<V>, expression: string) returns (status: Status, res: V)
    requires WithinText(num) && '\0' !in expression
    ensures status == SUCCESS <==> exists v :: Means(num, Lex(num, expression, 0), v)
    ensures status == SUCCESS ==> Means(num, Lex(num, expression, 0), res)
    ensures status == MATH_ERROR <==> SomeFails(num, Lex(num, expression, 0))
    ensures MeansNothing(num, Lex(num, expression, 0)) ==> status == MATH_ERROR
    ensures forall e :: ReadsAs(num, expression, e) ==> Tells(status, res, Meaning(num, e, false))
    ensures status == SUCCESS ==> exists e :: ReadsAs(num, expression, e) && Meaning(num, e, false) == Success(res)
    ensures forall x, a, y, b, z :: SpellsThree(num, expression, x, a, y, b, z) ==> Tells(status, res, Grouped(num, x, a, y, b, z))
  {
    var ctx := new CalcData<V>(num, expression);
    var state := WaitingForNum;
    status := SUCCESS;
    ghost var result := Evaluate(num, expression);
    ErrorsOf(num, expression);
    while !ctx.finish && status == SUCCESS
      invariant ctx.Valid() && fresh(ctx.Repr) && ctx.num == num && ctx.text == expression
      invariant if status != SUCCESS then !result.Success? && StatusOf(result) == status
                else if ctx.finish then result == Success(ctx.out)
                else ctx.Fits() && Run(num, Lex(num, expression, ctx.cursor), ctx.Config(state)) == result
      decreases !ctx.finish && status == SUCCESS, |expression| - ctx.cursor
    {
      NotUnderflow(num, expression);
      RunAt(num, expression, ctx.cursor, ctx.Config(state));
      StepAtAdvances(num, expression, ctx.cursor, ctx.Config(state));
      status, state := ctx.FsmStep(state);
    }
    res := ctx.out;
    assert Tells(status, res, result);
    var _ := TextRead(num, expression);
    forall e | ReadsAs(num, expression, e) ensures Meaning(num, e, false) == result { TextComputed(num, expression, e); }
    forall x, a, y, b, z | SpellsThree(num, expression, x, a, y, b, z) ensures Grouped(num, x, a, y, b, z) == result {
      ThreeComputed(num, expression, x, a, y, b, z);
    }
  }

  /** The status and the number delivered tell this result. */
  ghost predicate Tells<V>(status: Status, res: V, result: Result<V>) {
    match result
    case Success(v) => status == SUCCESS && res == v
    case MathError => status == MATH_ERROR
    case _ => status == SYNTAX_ERROR
  }

  lemma {:induction false} NotUnderflow<V>(num: Numeric<V>, expression: string)
    ensures Evaluate(num, expression) != Underflow
  {
    ThreeResults(num, Lex(num, expression, 0));
  }
}
