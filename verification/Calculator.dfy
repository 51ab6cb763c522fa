/** The two-stack expression evaluator of calculate.c. Number values and their arithmetic are
    parameters, so nothing depends on floating point. */
module Calculator {
  datatype Arithmetic<!V> = Arithmetic(number: string -> V, add: (V, V) -> V, sub: (V, V) -> V,
                                       mul: (V, V) -> V, div: (V, V) -> V)

  // What the program prints, or the ways the C code runs off its stacks or its cases.
  datatype Outcome<V> = Prints(value: V) | PrintsUnsetSlot | PopsEmptyStack | ComparesUnknown

  predicate IsDigit(c: char) {
    '0' <= c <= '9' || c == '.'
  }

  datatype Order = Less | Equal | Greater | Undefined

  // How the operator on the stack ranks against the character read.
  function Compare(top: char, c: char): Order {
    if top == '+' || top == '-' then
      if c == '+' || c == '-' || c == ')' || c == '=' then Greater else Less
    else if top == '*' || top == '/' then
      if c == '*' || c == '/' || c == '+' || c == '-' || c == ')' || c == '=' then Greater else Less
    else if top == '(' || top == '#' then
      if (top == '(' && c == ')') || (top == '#' && c == '=') then Equal else Less
    else Undefined
  }

  function Compute<V>(A: Arithmetic<V>, x: V, c: char, y: V): V {
    if c == '+' then A.add(x, y)
    else if c == '-' then A.sub(x, y)
    else if c == '*' then A.mul(x, y)
    else A.div(x, y)
  }

  // ---- The machine, one character or one reduction at a time ----

  // The stacks grow at the end; digits is the number being read (val[..end], loop being end > 0).
  datatype Machine<V> = Machine(ops: string, vals: seq<V>, digits: string)

  datatype Move<V> = Consume(next: Machine<V>) | Reduce(next: Machine<V>) | Halt(outcome: Outcome<V>)

  function Top<V>(vals: seq<V>): Outcome<V> {
    if vals == [] then PrintsUnsetSlot else Prints(vals[|vals| - 1])
  }

  // Pushes a pending number.
  function Flush<V>(A: Arithmetic<V>, m: Machine<V>): Machine<V> {
    if m.digits == [] then m else Machine(m.ops, m.vals + [A.number(m.digits)], [])
  }

  // One turn of the scanning loop on the character c.
  function Turn<V>(A: Arithmetic<V>, m: Machine<V>, c: char): (r: Move<V>)
    ensures r.Reduce? ==> |r.next.ops| < |m.ops|
  {
    if m.ops == [] then Halt(PopsEmptyStack)
    else if c == '=' && m.ops[|m.ops| - 1] == '#' then Halt(Top(m.vals))
    else if IsDigit(c) then Consume(m.(digits := m.digits + [c]))
    else
      var n := Flush(A, m);
      var h := |n.ops| - 1;
      match Compare(n.ops[h], c)
      case Less => Consume(n.(ops := n.ops + [c]))
      case Equal => Consume(n.(ops := n.ops[..h]))
      case Greater =>
        var k := |n.vals|;
        if k < 2 then Halt(PopsEmptyStack)
        else
          var value := Compute(A, n.vals[k - 2], n.ops[h], n.vals[k - 1]);
          Reduce(n.(ops := n.ops[..h], vals := n.vals[..k - 2] + [value]))
      case Undefined => Halt(ComparesUnknown)
  }

  function Run<V>(A: Arithmetic<V>, m: Machine<V>, input: string): Outcome<V>
    decreases |input|, |m.ops|
  {
    if input == [] then Top(m.vals)
    else
      match Turn(A, m, input[0])
      case Consume(n) => Run(A, n, input[1..])
      case Reduce(n) => Run(A, n, input)
      case Halt(o) => o
  }

  function Start<V>(): Machine<V> {
    Machine("#", [], [])
  }

  // ---- Expressions ----

  datatype Expr = Number(digits: string) | Binary(op: char, left: Expr, right: Expr) | Paren(inner: Expr)

  // What atof reads as a number here: digits and points.
  predicate IsNumber(d: string) {
    d != [] && forall i | 0 <= i < |d| :: d[i] in "0123456789."
  }

  predicate IsSum(op: char) { op == '+' || op == '-' }

  predicate IsProduct(op: char) { op == '*' || op == '/' }

  // Factors are numbers and parentheses; terms join factors with * and /; expressions join terms
  // with + and -. Both levels associate to the left.
  predicate IsFactor(e: Expr)
    decreases e, 0
  {
    match e
    case Number(d) => IsNumber(d)
    case Binary(_, _, _) => false
    case Paren(inner) => IsExpression(inner)
  }

  predicate IsTerm(e: Expr)
    decreases e, 1
  {
    IsFactor(e) || (e.Binary? && IsProduct(e.op) && IsTerm(e.left) && IsFactor(e.right))
  }

  predicate IsExpression(e: Expr)
    decreases e, 2
  {
    IsTerm(e) || (e.Binary? && IsSum(e.op) && IsExpression(e.left) && IsTerm(e.right))
  }

  function Show(e: Expr): string {
    match e
    case Number(d) => d
    case Binary(op, l, r) => Show(l) + [op] + Show(r)
    case Paren(inner) => "(" + Show(inner) + ")"
  }

  function Meaning<V>(A: Arithmetic<V>, e: Expr): V {
    match e
    case Number(d) => A.number(d)
    case Binary('+', l, r) => A.add(Meaning(A, l), Meaning(A, r))
    case Binary('-', l, r) => A.sub(Meaning(A, l), Meaning(A, r))
    case Binary('*', l, r) => A.mul(Meaning(A, l), Meaning(A, r))
    case Binary(_, l, r) => A.div(Meaning(A, l), Meaning(A, r))
    case Paren(inner) => Meaning(A, inner)
  }

  // ---- The machine computes the meaning ----

  // Operators on the stack below an expression, a term and a factor, and characters that may follow one.
  predicate OpensExpression(top: char) { top == '#' || top == '(' }
  predicate OpensTerm(top: char) { OpensExpression(top) || IsSum(top) }
  predicate OpensFactor(top: char) { OpensTerm(top) || IsProduct(top) }
  predicate EndsExpression(c: char) { IsSum(c) || c == ')' || c == '=' }
  predicate EndsTerm(c: char) { EndsExpression(c) || IsProduct(c) }

  // Reading e pushes its meaning; only a number right before '=' on an empty stack is never pushed.
  ghost predicate Pushes<V>(A: Arithmetic<V>, ops: string, vals: seq<V>, e: Expr, rest: string) {
    Run(A, Machine(ops, vals, []), Show(e) + rest) == Run(A, Machine(ops, vals + [Meaning(A, e)], []), rest)
  }

  ghost predicate Abandoned(ops: string, e: Expr, rest: string) {
    e.Number? && rest != [] && rest[0] == '=' && ops != [] && ops[|ops| - 1] == '#'
  }

  // A turn on the first character, in terms of the whole run.
  lemma RunTurn<V>(A: Arithmetic<V>, m: Machine<V>, c: char, rest: string)
    ensures var move := Turn(A, m, c);
      Run(A, m, [c] + rest) == if move.Halt? then move.outcome
                               else Run(A, move.next, if move.Consume? then rest else [c] + rest)
  {
    assert ([c] + rest)[1..] == rest;
  }

  // A pending number may as well be pushed before the character that ends it.
  lemma FlushFirst<V>(A: Arithmetic<V>, m: Machine<V>, c: char, rest: string)
    requires m.ops != [] && !IsDigit(c) && !(c == '=' && m.ops[|m.ops| - 1] == '#')
    ensures Run(A, m, [c] + rest) == Run(A, Flush(A, m), [c] + rest)
  {
    hide Run;
    RunTurn(A, m, c, rest);
    RunTurn(A, Flush(A, m), c, rest);
  }

  lemma {:induction false} ReadDigits<V>(A: Arithmetic<V>, m: Machine<V>, d: string, rest: string)
    requires m.ops != [] && forall i | 0 <= i < |d| :: IsDigit(d[i])
    ensures Run(A, m, d + rest) == Run(A, m.(digits := m.digits + d), rest)
    decreases |d|
  {
    if d == [] {
      assert d + rest == rest && m.digits + d == m.digits;
    } else {
      assert (d + rest)[1..] == d[1..] + rest;
      ReadDigits(A, m.(digits := m.digits + [d[0]]), d[1..], rest);
      assert m.digits + d == m.digits + [d[0]] + d[1..];
    }
  }

  lemma {:induction false} PushFactor<V>(A: Arithmetic<V>, ops: string, vals: seq<V>, e: Expr, rest: string)
    requires IsFactor(e) && ops != [] && OpensFactor(ops[|ops| - 1])
    requires rest != [] && EndsTerm(rest[0]) && !Abandoned(ops, e, rest)
    ensures Pushes(A, ops, vals, e, rest)
    decreases e, 0
  {
    hide Run, Compare;
    match e
    case Number(d) =>
      var m := Machine(ops, vals, d);
      ReadDigits(A, Machine(ops, vals, []), d, rest);
      assert [] + d == d && [rest[0]] + rest[1..] == rest;
      FlushFirst(A, m, rest[0], rest[1..]);
    case Paren(inner) =>
      PushExpression(A, ops + ['('], vals, inner, [')'] + rest);
      PushParen(A, ops, vals, inner, rest);
  }

  lemma PushParen<V>(A: Arithmetic<V>, ops: string, vals: seq<V>, inner: Expr, rest: string)
    requires ops != [] && OpensFactor(ops[|ops| - 1])
    requires Pushes(A, ops + ['('], vals, inner, [')'] + rest)
    ensures Pushes(A, ops, vals, Paren(inner), rest)
  {
    hide Run, Meaning;
    var open, tail := ops + ['('], [')'] + rest;
    assert Show(Paren(inner)) + rest == ['('] + (Show(inner) + tail);
    assert Meaning(A, Paren(inner)) == Meaning(A, inner) by {
      MeaningOfParen(A, inner);
    }
    RunTurn(A, Machine(ops, vals, []), '(', Show(inner) + tail);
    RunTurn(A, Machine(open, vals + [Meaning(A, inner)], []), ')', rest);
    assert open[..|open| - 1] == ops;
  }

  lemma MeaningOfParen<V>(A: Arithmetic<V>, inner: Expr)
    ensures Meaning(A, Paren(inner)) == Meaning(A, inner)
  {
  }

  lemma {:induction false} PushTerm<V>(A: Arithmetic<V>, ops: string, vals: seq<V>, e: Expr, rest: string)
    requires IsTerm(e) && ops != [] && OpensTerm(ops[|ops| - 1])
    requires rest != [] && EndsTerm(rest[0]) && !Abandoned(ops, e, rest)
    ensures Pushes(A, ops, vals, e, rest)
    decreases e, 1
  {
    if IsFactor(e) {
      PushFactor(A, ops, vals, e, rest);
    } else {
      PushTerm(A, ops, vals, e.left, [e.op] + (Show(e.right) + rest));
      PushFactor(A, ops + [e.op], vals + [Meaning(A, e.left)], e.right, rest);
      PushBinary(A, ops, vals, e, rest);
    }
  }

  lemma {:induction false} PushExpression<V>(A: Arithmetic<V>, ops: string, vals: seq<V>, e: Expr, rest: string)
    requires IsExpression(e) && ops != [] && OpensExpression(ops[|ops| - 1])
    requires rest != [] && EndsExpression(rest[0]) && !Abandoned(ops, e, rest)
    ensures Pushes(A, ops, vals, e, rest)
    decreases e, 2
  {
    if IsTerm(e) {
      PushTerm(A, ops, vals, e, rest);
    } else {
      PushExpression(A, ops, vals, e.left, [e.op] + (Show(e.right) + rest));
      PushTerm(A, ops + [e.op], vals + [Meaning(A, e.left)], e.right, rest);
      PushBinary(A, ops, vals, e, rest);
    }
  }

  // Once both operands are on the stack the next character triggers the operator.
  lemma {:induction false} PushBinary<V>(A: Arithmetic<V>, ops: string, vals: seq<V>, e: Expr, rest: string)
    requires e.Binary? && ops != [] && rest != []
    requires Compare(ops[|ops| - 1], e.op) == Less && Compare(e.op, rest[0]) == Greater
    requires !IsDigit(e.op) && !IsDigit(rest[0]) && e.op != '='  && e.op != '#'
    requires Pushes(A, ops, vals, e.left, [e.op] + (Show(e.right) + rest))
    requires Pushes(A, ops + [e.op], vals + [Meaning(A, e.left)], e.right, rest)
    ensures Pushes(A, ops, vals, e, rest)
  {
    hide Run, Meaning;
    var x, y := Meaning(A, e.left), Meaning(A, e.right);
    var tail := Show(e.right) + rest;
    MeaningOfBinary(A, e);
    assert Show(e) + rest == Show(e.left) + ([e.op] + tail);
    assert [rest[0]] + rest[1..] == rest;
    var ops', vals' := ops + [e.op], vals + [x] + [y];
    RunTurn(A, Machine(ops, vals + [x], []), e.op, tail);
    RunTurn(A, Machine(ops', vals', []), rest[0], rest[1..]);
    assert ops'[..|ops'| - 1] == ops;
    assert vals'[..|vals'| - 2] == vals && vals'[|vals'| - 2] == x;
  }

  lemma MeaningOfBinary<V>(A: Arithmetic<V>, e: Expr)
    requires e.Binary?
    ensures Meaning(A, e) == Compute(A, Meaning(A, e.left), e.op, Meaning(A, e.right))
  {
  }

  // The value of a well-formed expression is printed, unless it is a bare number: then nothing was
  // pushed and an unset slot is printed. In particular no empty stack is popped.
  lemma ComputesMeaning<V>(A: Arithmetic<V>, e: Expr)
    requires IsExpression(e)
    ensures Run(A, Start(), Show(e) + "=") == if e.Number? then PrintsUnsetSlot else Prints(Meaning(A, e))
  {
    if e.Number? {
      assert IsTerm(e) && IsFactor(e);
      ReadDigits(A, Start(), e.digits, "=");
    } else {
      PushExpression(A, "#", [], e, "=");
    }
  }

  lemma RunEnd<V>(A: Arithmetic<V>, m: Machine<V>)
    ensures Run(A, m, []) == Top(m.vals)
  {
  }

  lemma AnyReading<V>(A: Arithmetic<V>, str: string)
    ensures forall e | IsExpression(e) && Show(e) + "=" == str ::
              Run(A, Start(), str) == if e.Number? then PrintsUnsetSlot else Prints(Meaning(A, e))
  {
    forall e | IsExpression(e) && Show(e) + "=" == str
      ensures Run(A, Start(), str) == if e.Number? then PrintsUnsetSlot else Prints(Meaning(A, e))
    {
      ComputesMeaning(A, e);
    }
  }

  // The program's loop over the stacks and the buffer.
  method Evaluate<V>(A: Arithmetic<V>, str: string) returns (r: Outcome<V>)
    ensures r == Run(A, Start(), str)
    ensures forall e | IsExpression(e) && Show(e) + "=" == str ::
              r == if e.Number? then PrintsUnsetSlot else Prints(Meaning(A, e))
  {
    hide Run, Compute, Meaning, Show, IsExpression;
    AnyReading(A, str);
    var ops, vals, val := "#", [], "";
    var i := 0;
    while i < |str|
      invariant 0 <= i <= |str|
      invariant Run(A, Start(), str) == Run(A, Machine(ops, vals, val), str[i..])
      decreases |str| - i, |ops|
    {
      var c := str[i];
      assert str[i..] == [c] + str[i + 1..];
      RunTurn(A, Machine(ops, vals, val), c, str[i + 1..]);
      if ops == [] {
        return PopsEmptyStack;
      }
      if c == '=' && ops[|ops| - 1] == '#' {
        break;
      }
      if IsDigit(c) {
        val := val + [c];
        i := i + 1;
        continue;
      }
      if val != [] {
        vals := vals + [A.number(val)];
        val := [];
      }
      match Compare(ops[|ops| - 1], c)
      case Less =>
        ops := ops + [c];
        i := i + 1;
      case Equal =>
        ops := ops[..|ops| - 1];
        i := i + 1;
      case Greater =>
        if |vals| < 2 {
          return PopsEmptyStack;
        }
        var y := vals[|vals| - 1];
        var x := vals[|vals| - 2];
        var op := ops[|ops| - 1];
        ops := ops[..|ops| - 1];
        vals := vals[..|vals| - 2] + [Compute(A, x, op, y)];
      case Undefined =>
        return ComparesUnknown;
    }
    assert i == |str| ==> str[i..] == [];
    RunEnd(A, Machine(ops, vals, val));
    r := Top(vals);
  }

  // The text fixes the meaning: precedence and associativity leave no second reading.
  lemma OneReading<V>(A: Arithmetic<V>, e1: Expr, e2: Expr)
    requires IsExpression(e1) && IsExpression(e2) && Show(e1) == Show(e2)
    ensures Meaning(A, e1) == Meaning(A, e2)
  {
    ComputesMeaning(A, e1);
    ComputesMeaning(A, e2);
  }

  // ---- Writing any tree so that the machine reads it back ----

  datatype Tree = Leaf(digits: string) | Node(op: char, left: Tree, right: Tree)

  predicate IsTree(t: Tree) {
    match t
    case Leaf(d) => IsNumber(d)
    case Node(op, l, r) => op in "+-*/" && IsTree(l) && IsTree(r)
  }

  function Value<V>(A: Arithmetic<V>, t: Tree): V {
    match t
    case Leaf(d) => A.number(d)
    case Node('+', l, r) => A.add(Value(A, l), Value(A, r))
    case Node('-', l, r) => A.sub(Value(A, l), Value(A, r))
    case Node('*', l, r) => A.mul(Value(A, l), Value(A, r))
    case Node(_, l, r) => A.div(Value(A, l), Value(A, r))
  }

  function Wrap(e: Expr, needed: bool): Expr {
    if needed then Paren(e) else e
  }

  // Parentheses only where precedence or left associativity would read the text differently.
  function Write(t: Tree): (e: Expr)
    requires IsTree(t)
    ensures IsExpression(e) && e.Number? == t.Leaf?
    ensures IsTerm(e) <==> t.Leaf? || IsProduct(t.op)
    ensures IsFactor(e) <==> t.Leaf?
  {
    match t
    case Leaf(d) => Number(d)
    case Node(op, l, r) =>
      var x, y := Write(l), Write(r);
      if IsSum(op) then Binary(op, x, Wrap(y, !IsTerm(y)))
      else
        var a, b := Wrap(x, !IsTerm(x)), Wrap(y, !IsFactor(y));
        assert IsFactor(Paren(x)) && IsFactor(b);
        assert IsTerm(a) && IsTerm(Binary(op, a, b));
        Binary(op, a, b)
  }

  lemma {:induction false} WriteMeans<V>(A: Arithmetic<V>, t: Tree)
    requires IsTree(t)
    ensures Meaning(A, Write(t)) == Value(A, t)
  {
    if t.Node? {
      WriteMeans(A, t.left);
      WriteMeans(A, t.right);
    }
  }

  // Every tree with an operator, written out, is evaluated to its own value.
  lemma ReadsBack<V>(A: Arithmetic<V>, t: Tree)
    requires IsTree(t) && t.Node?
    ensures Run(A, Start(), Show(Write(t)) + "=") == Prints(Value(A, t))
  {
    ComputesMeaning(A, Write(t));
    WriteMeans(A, t);
  }
}
