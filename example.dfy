/*
 * The example program: four binary operations on C++ `int`, registered under
 * their own names in a DynamicCaller<string, int(int, int)>.
 *
 * `int` is 32 bits wide. Signed overflow and division by zero are undefined
 * behaviour in C++, so the operations require their absence.
 */
module Example {
  import opened FunctionRegistry

  /** The range of C++ `int`. */
  predicate InInt32(x: int)
  {
    -0x8000_0000 <= x < 0x8000_0000
  }

  newtype int32 = x: int | InInt32(x)

  function Abs(x: int): nat
  {
    if x < 0 then -x else x
  }

  /*
   * Integer division as C++ defines it: the quotient is truncated toward zero,
   * so that `q * b` has the sign of `a` (or is zero) and is less than one
   * divisor away from `a`. Dafny's own `/` is Euclidean and differs when `a` is
   * negative.
   */
  function TruncDiv(a: int, b: int): (q: int)
    requires b != 0
    ensures Abs(q * b) <= Abs(a) < Abs(q * b) + Abs(b)
    ensures q * b == 0 || (q * b < 0 <==> a < 0)
  {
    var n := Abs(a) / Abs(b);
    var q := if (a < 0) == (b < 0) then n else -n;
    QuotientFacts(a, b, n, q);
    q
  }

  /** The quotient of the magnitudes, given the sign of the exact quotient, truncates toward zero. */
  lemma QuotientFacts(a: int, b: int, n: int, q: int)
    requires b != 0 && n == Abs(a) / Abs(b)
    requires q == if (a < 0) == (b < 0) then n else -n
    ensures Abs(q * b) <= Abs(a) < Abs(q * b) + Abs(b)
    ensures q * b == 0 || (q * b < 0 <==> a < 0)
  {
    DivisionBounds(Abs(a), Abs(b));
    AbsMul(q, b);
    assert Abs(q) == n;
    if n == 0 {
      assert q == 0;
    } else {
      MulSign(q, b);
    }
  }

  /** Dafny's quotient of natural numbers is the largest multiple not above the dividend. */
  lemma DivisionBounds(m: nat, d: nat)
    requires d > 0
    ensures (m / d) * d <= m < (m / d) * d + d
  {
    assert m == (m / d) * d + m % d;
  }

  lemma AbsMul(x: int, y: int)
    ensures Abs(x * y) == Abs(x) * Abs(y)
  {
    if x < 0 && y < 0 {
      assert x * y == (-x) * (-y);
    } else if x < 0 {
      assert -(x * y) == (-x) * y;
    } else if y < 0 {
      assert -(x * y) == x * (-y);
    }
  }

  lemma MulSign(x: int, y: int)
    requires x != 0 && y != 0
    ensures x * y != 0 && (x * y < 0 <==> (x < 0) != (y < 0))
  {
    AbsMul(x, y);
    if x < 0 && y < 0 {
      assert x * y == (-x) * (-y);
    } else if x < 0 {
      assert -(x * y) == (-x) * y;
    } else if y < 0 {
      assert -(x * y) == x * (-y);
    }
  }

  /** Two multiples of m that both lie in (c - m, c] are the same multiple. */
  lemma MultiplesInWindow(i: nat, j: nat, m: nat, c: nat)
    requires m > 0
    requires i * m <= c < i * m + m
    requires j * m <= c < j * m + m
    ensures i == j
  {
    if i < j {
      assert (i + 1) * m == i * m + m;
      MulMonotone(i + 1, j, m);
    } else if j < i {
      assert (j + 1) * m == j * m + m;
      MulMonotone(j + 1, i, m);
    }
  }

  lemma MulMonotone(x: nat, y: nat, m: nat)
    requires x <= y
    ensures x * m <= y * m
  {
    assert y * m == x * m + (y - x) * m;
  }

  /** The truncating quotient is the only value with those two properties. */
  lemma TruncDivUnique(a: int, b: int, q: int)
    requires b != 0
    requires Abs(q * b) <= Abs(a) < Abs(q * b) + Abs(b)
    requires q * b == 0 || (q * b < 0 <==> a < 0)
    ensures q == TruncDiv(a, b)
  {
    var p := TruncDiv(a, b);
    AbsMul(q, b);
    AbsMul(p, b);
    MultiplesInWindow(Abs(q), Abs(p), Abs(b), Abs(a));
    if q != 0 && p != 0 {
      MulSign(q, b);
      MulSign(p, b);
    }
  }

  /** The quotient is no larger than the dividend, and as large only when dividing by 1 or -1. */
  lemma TruncDivBound(a: int, b: int)
    requires b != 0
    ensures Abs(TruncDiv(a, b)) <= Abs(a)
    ensures a != 0 && Abs(TruncDiv(a, b)) == Abs(a) ==> Abs(b) == 1
  {
    var q := TruncDiv(a, b);
    AbsMul(q, b);
    MulMonotone(1, Abs(b), Abs(q));
    if Abs(b) >= 2 && Abs(q) >= 1 {
      MulStrict(Abs(q), Abs(b));
    }
  }

  lemma MulStrict(x: nat, m: nat)
    requires x >= 1 && m >= 2
    ensures x < x * m
  {
    MulMonotone(2, m, x);
  }

  /** example.cpp `plus`: the exact sum, as long as it fits in 32 bits. */
  function Plus(a: int32, b: int32): (r: int32)
    requires InInt32(a as int + b as int)
    ensures r as int == a as int + b as int
  {
    a + b
  }

  /** example.cpp `minus`: the exact difference, as long as it fits in 32 bits. */
  function Minus(a: int32, b: int32): (r: int32)
    requires InInt32(a as int - b as int)
    ensures r as int == a as int - b as int
  {
    a - b
  }

  /** example.cpp `multiply`: the exact product, as long as it fits in 32 bits. */
  function Multiply(a: int32, b: int32): (r: int32)
    requires InInt32(a as int * b as int)
    ensures r as int == a as int * b as int
  {
    a * b
  }

  /** example.cpp `divide`: C++ truncating division; not by zero, and not INT_MIN / -1. */
  function Divide(a: int32, b: int32): (r: int32)
    requires b != 0 && !(a == -0x8000_0000 && b == -1)
    ensures r as int == TruncDiv(a as int, b as int)
  {
    var q := TruncDiv(a as int, b as int);
    assert InInt32(q) by {
      assert InInt32(a as int);
      TruncDivBound(a as int, b as int);
      if q == 0x8000_0000 {
        MulSign(q, b as int);
      }
    }
    q as int32
  }

  /** Subtracting what was added gives back the first operand, and adding what was subtracted does too. */
  lemma MinusUndoesPlus(a: int32, b: int32)
    requires InInt32(a as int + b as int)
    ensures Minus(Plus(a, b), b) == a
    ensures InInt32(a as int - b as int) ==> Plus(Minus(a, b), b) == a
  {
  }

  /** Dividing an exact product by one factor gives back the other. */
  lemma DivideUndoesMultiply(a: int32, b: int32)
    requires b != 0 && InInt32(a as int * b as int)
    ensures !(Multiply(a, b) == -0x8000_0000 && b == -1)
    ensures Divide(Multiply(a, b), b) == a
  {
    var m := a as int * b as int;
    assert InInt32(a as int);
    TruncDivUnique(m, b as int, a as int);
  }

  /** Truncation differs from Dafny's Euclidean `/` on a negative dividend. */
  lemma TruncDivIsNotEuclidean()
    ensures TruncDiv(-7, 2) == -3 && -7 / 2 == -4
    ensures Divide(-7, 2) == -3
  {
    TruncDivUnique(-7, 2, -3);
  }

  /*
   * The registration done by main.
   */

  /** The argument pack of int(int, int). */
  type Args = (int32, int32)

  /** The registry's callable type, std::function<int(int, int)>. */
  type Callable = Args --> int32

  /** The conversion of a two-argument function into the registry's callable type. */
  function AsCallable(f: (int32, int32) --> int32): (g: Callable)
    ensures forall a: int32, b: int32 :: f.requires(a, b) ==> g.requires((a, b)) && g((a, b)) == f(a, b)
  {
    (args: Args) requires f.requires(args.0, args.1) => f(args.0, args.1)
  }

  /** The four functions example.cpp defines. */
  datatype Operation = PlusOp | MinusOp | MultiplyOp | DivideOp

  /** The key AddDynFunc registers a function under: its own name, as the macro stringifies it. */
  function Name(op: Operation): (name: string)
    ensures Named(name) == Some(op)
  {
    match op
    case PlusOp => "plus"
    case MinusOp => "minus"
    case MultiplyOp => "multiply"
    case DivideOp => "divide"
  }

  /** Where C++ defines the operation on `int`: no overflow, and no division by zero. */
  predicate Defined(op: Operation, a: int32, b: int32)
  {
    match op
    case PlusOp => InInt32(a as int + b as int)
    case MinusOp => InInt32(a as int - b as int)
    case MultiplyOp => InInt32(a as int * b as int)
    case DivideOp => b != 0 && !(a == -0x8000_0000 && b == -1)
  }

  /** The value an operation denotes on unbounded integers. */
  function Exact(op: Operation, a: int, b: int): int
    requires op == DivideOp ==> b != 0
  {
    match op
    case PlusOp => a + b
    case MinusOp => a - b
    case MultiplyOp => a * b
    case DivideOp => TruncDiv(a, b)
  }

  /** The function passed to AddDynFunc for an operation, as the registry's callable. */
  function Implementation(op: Operation): (f: Callable)
    ensures forall a: int32, b: int32 :: Defined(op, a, b) ==>
              f.requires((a, b)) && f((a, b)) as int == Exact(op, a as int, b as int)
  {
    match op
    case PlusOp => AsCallable(Plus)
    case MinusOp => AsCallable(Minus)
    case MultiplyOp => AsCallable(Multiply)
    case DivideOp => AsCallable(Divide)
  }

  /** The operation whose name is `s`, if there is one. */
  function Named(s: string): Option<Operation>
  {
    if s == "plus" then Some(PlusOp)
    else if s == "minus" then Some(MinusOp)
    else if s == "multiply" then Some(MultiplyOp)
    else if s == "divide" then Some(DivideOp)
    else None
  }

  /** A name resolves only to the operation that carries it. */
  lemma NameOfNamed(s: string)
    ensures Named(s).Some? ==> Name(Named(s).value) == s
    ensures Named(s).None? ==> s !in {"plus", "minus", "multiply", "divide"}
  {
  }

  /** The four stores main makes, in order. */
  function Registrations(): seq<(string, Callable)>
  {
    [ (Name(PlusOp), Implementation(PlusOp)),
      (Name(MinusOp), Implementation(MinusOp)),
      (Name(MultiplyOp), Implementation(MultiplyOp)),
      (Name(DivideOp), Implementation(DivideOp)) ]
  }

  /** AddDynFunc(DC, function): PutFunction(function, #function). */
  method AddDynFunc(dc: DynamicCaller<string, Args, int32>, op: Operation)
    requires dc.Valid()
    modifies dc.storage
    ensures dc.Valid()
    ensures dc.storage.table == old(dc.storage.table)[Name(op) := Implementation(op)]
    ensures dc.storage.puts == old(dc.storage.puts) + [(Name(op), Implementation(op))]
  {
    dc.PutFunction(Implementation(op), Name(op));
  }

  /** The start of main: a fresh registry with the four operations registered under their names. */
  method RegisterExampleFunctions() returns (dc: DynamicCaller<string, Args, int32>)
    ensures fresh(dc) && fresh(dc.storage) && dc.Valid()
    ensures dc.storage.puts == Registrations()
    ensures dc.storage.table == ExampleTable()
  {
    var storage := new Storage<string, Args, int32>();
    dc := new DynamicCaller(storage);
    AddDynFunc(dc, PlusOp);
    AddDynFunc(dc, MinusOp);
    AddDynFunc(dc, MultiplyOp);
    AddDynFunc(dc, DivideOp);
  }

  /** The table main ends up with: each name mapped to the function of that name. */
  function ExampleTable(): map<string, Callable>
  {
    map[Name(PlusOp) := Implementation(PlusOp),
        Name(MinusOp) := Implementation(MinusOp),
        Name(MultiplyOp) := Implementation(MultiplyOp),
        Name(DivideOp) := Implementation(DivideOp)]
  }

  /** After the four registrations the keys are exactly the four names. */
  lemma ExampleKeys()
    ensures ExampleTable().Keys == {"plus", "minus", "multiply", "divide"}
  {
  }

  /** Looking up any name finds the function of that name, and any other name fails with NotFound. */
  lemma ExampleLookup(s: string)
    ensures Lookup(ExampleTable(), s) == match Named(s)
                                         case Some(op) => Ok(Implementation(op))
                                         case None => Err(NotFound(s))
  {
  }

  /** Calling an operation by its name gives the operation's exact value wherever C++ defines it. */
  lemma ExampleCall(op: Operation, a: int32, b: int32)
    requires Defined(op, a, b)
    ensures CanCall(ExampleTable(), Name(op), (a, b))
    ensures var r := Apply(ExampleTable(), Name(op), (a, b));
            r.Ok? && r.value as int == Exact(op, a as int, b as int)
  {
    assert ExampleTable()[Name(op)] == Implementation(op) by {
      match op
      case PlusOp =>
      case MinusOp =>
      case MultiplyOp =>
      case DivideOp =>
    }
  }

  /** Calls by name through the example table. */
  lemma ExampleCalls()
    ensures CanCall(ExampleTable(), "plus", (3, 4)) && Apply(ExampleTable(), "plus", (3, 4)) == Ok(7)
    ensures CanCall(ExampleTable(), "minus", (10, 4)) && Apply(ExampleTable(), "minus", (10, 4)) == Ok(6)
    ensures CanCall(ExampleTable(), "multiply", (5, 6)) && Apply(ExampleTable(), "multiply", (5, 6)) == Ok(30)
    ensures CanCall(ExampleTable(), "divide", (20, 4)) && Apply(ExampleTable(), "divide", (20, 4)) == Ok(5)
    ensures CanCall(ExampleTable(), "divide", (-7, 2)) && Apply(ExampleTable(), "divide", (-7, 2)) == Ok(-3)
  {
    assert InInt32(7) && InInt32(6) && InInt32(30);
    ExampleCall(PlusOp, 3, 4);
    ExampleCall(MinusOp, 10, 4);
    ExampleCall(MultiplyOp, 5, 6);
    TruncDivUnique(20, 4, 5);
    ExampleCall(DivideOp, 20, 4);
    TruncDivUnique(-7, 2, -3);
    ExampleCall(DivideOp, -7, 2);
  }

  /** An unregistered name gives the lookup failure, whose message names it. */
  lemma ExampleMissing()
    ensures Apply(ExampleTable(), "modulo", (10, 3)) == Err(NotFound("modulo"))
    ensures Message(NotFound("modulo")) == "Lookup failed: no function modulo"
  {
  }
}
