/**
 What the operators of the shell mean: laws of arithmetic that hold between their results, and the
 equations between expressions that a C programmer relies on.
 */
module FinshLaws {
  import opened Widths
  import opened Bits
  import opened FinshLang
  import opened FinshCorrect

  // ---------- addition, subtraction, multiplication ----------

  /** Adding zero does nothing, and adding one more gives one more, all around the circle of 2^32 values. */
  lemma AddCounts(a: Cell, b: Cell)
    ensures Alu(Add, a, 0) == Some(a)
    ensures Alu(Add, a, b).Some?
    ensures Alu(Add, a, Next(b)) == Some(Next(Alu(Add, a, b).value))
  {
  }

  /** The value after v, with 0 after the last. */
  function Next(v: Cell): Cell { if v == 0xffff_ffff then 0 else v + 1 }

  lemma SubUndoesAdd(a: Cell, b: Cell)
    ensures Alu(Add, a, b).Some? && Alu(Sub, Alu(Add, a, b).value, b) == Some(a)
    ensures Alu(Sub, a, b).Some? && Alu(Add, Alu(Sub, a, b).value, b) == Some(a)
  {
  }

  lemma MulUnits(a: Cell)
    ensures Alu(Mul, a, 0) == Some(0) && Alu(Mul, a, 1) == Some(a)
  {
  }

  lemma MulOverAdd(a: Cell, b: Cell, c: Cell)
    ensures Alu(Mul, a, b).Some? && Alu(Mul, a, c).Some? && Alu(Add, b, c).Some?
    ensures Alu(Mul, a, Alu(Add, b, c).value) == Alu(Add, Alu(Mul, a, b).value, Alu(Mul, a, c).value)
  {
    var k := (b + c) / MOD32;
    assert b + c == Wrap(b + c) + k * MOD32;
    MulAdd(a, b, c);
    assert a * b + a * c == a * Wrap(b + c) + a * k * MOD32 by {
      MulAdd(a, Wrap(b + c), k * MOD32);
      MulThree(a, k, MOD32);
    }
    var x, y := a * b, a * c;
    WrapBy(a * Wrap(b + c), a * k);
    WrapSum(x, y);
  }

  lemma MulAdd(a: int, b: int, c: int)
    ensures a * (b + c) == a * b + a * c
  {
  }

  lemma MulThree(a: int, b: int, c: int)
    ensures a * (b * c) == a * b * c
  {
  }

  lemma WrapBy(x: int, k: int)
    ensures Wrap(x + k * MOD32) == Wrap(x)
  {
  }

  lemma WrapSum(x: int, y: int)
    ensures Wrap(Wrap(x) + Wrap(y)) == Wrap(x + y)
  {
  }

  predicate IsLong(x: int) { -0x8000_0000 <= x < 0x8000_0000 }

  /** On signed values: the exact sum, difference and product wherever a long can hold it. */
  lemma SignedArithmetic(a: Cell, b: Cell)
    ensures Alu(Add, a, b).Some? && Alu(Sub, a, b).Some? && Alu(Mul, a, b).Some?
    ensures IsLong(Signed(a) + Signed(b)) ==> Signed(Alu(Add, a, b).value) == Signed(a) + Signed(b)
    ensures IsLong(Signed(a) - Signed(b)) ==> Signed(Alu(Sub, a, b).value) == Signed(a) - Signed(b)
    ensures IsLong(Signed(a) * Signed(b)) ==> Signed(Alu(Mul, a, b).value) == Signed(a) * Signed(b)
  {
    hide Signed, Wrap, IsLong;
    SignedSum(a, b);
    SignedProduct(a, b);
    SignedWraps(Signed(a) + Signed(b));
    SignedWraps(Signed(a) - Signed(b));
    SignedWraps(Signed(a) * Signed(b));
  }

  lemma SignedSum(a: Cell, b: Cell)
    ensures Wrap(a + b) == Wrap(Signed(a) + Signed(b)) && Wrap(a - b) == Wrap(Signed(a) - Signed(b))
  {
  }

  lemma SignedProduct(a: Cell, b: Cell)
    ensures Wrap(a * b) == Wrap(Signed(a) * Signed(b))
  {
    var x, y := Signed(a), Signed(b);
    var i, j := if a == x then 0 else 1, if b == y then 0 else 1;
    var k := x * j + i * y + i * j * MOD32;
    Spread(x, y, i, j);
    WrapBy(x * y, k);
  }

  lemma Spread(x: int, y: int, i: int, j: int)
    requires 0 <= i <= 1 && 0 <= j <= 1
    ensures (x + i * MOD32) * (y + j * MOD32) == x * y + (x * j + i * y + i * j * MOD32) * MOD32
  {
  }

  lemma SignedWraps(x: int)
    ensures IsLong(x) ==> Signed(Wrap(x)) == x
  {
  }

  // ---------- division ----------

  /** C's division: the remainder is shorter than the divisor and is zero or on the dividend's side. */
  ghost predicate Divides(a: int, b: int, q: int, r: int) {
    && a == q * b + r
    && Abs(r) < Abs(b)
    && (r == 0 || (r < 0) == (a < 0))
  }

  /** Undefined for a zero divisor and for the one quotient that is too large, and nowhere else. */
  lemma DivAndMod(a: Cell, b: Cell)
    ensures Alu(Div, a, b).Some? <==> b != 0 && !(a == 0x8000_0000 && b == 0xffff_ffff)
    ensures Alu(Mod, a, b).Some? <==> Alu(Div, a, b).Some?
    ensures Alu(Div, a, b).Some? ==>
              Divides(Signed(a), Signed(b), Signed(Alu(Div, a, b).value), Signed(Alu(Mod, a, b).value))
  {
    var x, y := Signed(a), Signed(b);
    if Alu(Div, a, b).Some? {
      var q := Quotient(x, y);
      QuotientDivides(x, y);
      QuotientSmall(x, y);
      hide Quotient;
      var r := x - y * q;
      SignedWraps(q);
      SignedWraps(r);
    }
  }

  lemma QuotientDivides(a: int, b: int)
    requires b != 0
    ensures Divides(a, b, Quotient(a, b), a - b * Quotient(a, b))
  {
    var q := Abs(a) / Abs(b);
    var r := Abs(a) % Abs(b);
    assert Abs(a) == Abs(b) * q + r;
  }

  lemma QuotientSmall(a: int, b: int)
    requires b != 0 && IsLong(a) && IsLong(b) && !(a == -0x8000_0000 && b == -1)
    ensures IsLong(Quotient(a, b))
  {
  }

  /** Only one quotient and one remainder are as C demands. */
  lemma DividesUnique(a: int, b: int, q: int, r: int, q': int, r': int)
    requires Divides(a, b, q, r) && Divides(a, b, q', r')
    ensures q == q' && r == r'
  {
    assert (q - q') * b == r' - r;
    if q != q' {
      FarApart(q - q', b);
    }
  }

  lemma FarApart(k: int, b: int)
    requires k != 0
    ensures Abs(k * b) >= Abs(b)
  {
    if k > 0 {
      MulOrder(1, k, b);
    } else {
      MulOrder(1, -k, b);
    }
  }

  lemma MulOrder(i: int, k: int, b: int)
    requires 0 <= i <= k
    ensures Abs(k * b) >= Abs(i * b)
  {
  }

  // ---------- shifts ----------

  /** A shift is defined for counts below 32. To the left it multiplies by a power of two. */
  lemma ShlMultiplies(a: Cell, n: Cell)
    ensures Alu(FinshLang.Shl, a, n).Some? <==> n < 32
    ensures n < 32 ==> Pow2(n) < MOD32 && Alu(FinshLang.Shl, a, n) == Alu(Mul, a, Pow2(n))
  {
    if n < 32 {
      Pow2Mono(n, 31);
      Pow2Values();
    }
  }

  /** To the right it divides by one, rounding down: the sign stays. */
  lemma ShrFloors(a: Cell, n: Cell)
    ensures Alu(FinshLang.Shr, a, n).Some? <==> n < 32
    ensures n < 32 ==>
              var r := Signed(Alu(FinshLang.Shr, a, n).value);
              r * Pow2(n) <= Signed(a) < (r + 1) * Pow2(n)
  {
    if n < 32 {
      hide Signed, Pow2, Wrap, IsLong;
      SignedLong(a);
      FloorLong(Signed(a), Pow2(n));
      SignedWraps(Signed(a) / Pow2(n));
    }
  }

  lemma SignedLong(a: Cell)
    ensures IsLong(Signed(a))
  {
  }

  lemma FloorLong(x: int, p: nat)
    requires IsLong(x) && p > 0
    ensures IsLong(x / p) && x / p * p <= x < (x / p + 1) * p
  {
    var r := x / p;
    assert x == p * r + x % p;
    assert (r + 1) * p == p * r + p;
  }

  // ---------- bitwise operators ----------

  /** Digit i of a value written in base two. */
  predicate Digit(v: nat, i: nat) { v / Pow2(i) % 2 == 1 }

  lemma HalfOfPower(v: nat, i: nat)
    ensures v / Pow2(i + 1) == v / 2 / Pow2(i)
  {
    var p := Pow2(i);
    var h := v / 2;
    var q, r := h / p, h % p;
    assert v == 2 * h + v % 2 && h == p * q + r;
    assert 2 * (p * q) == 2 * p * q;
    DivUnique(v, 2 * p, q, 2 * r + v % 2);
  }

  lemma {:induction false} OfNatDigit(v: nat, width: nat, i: nat)
    requires i < width
    ensures OfNat(v, width)[i] == Digit(v, i)
    decreases i
  {
    if i > 0 {
      HalfOfPower(v, i - 1);
      OfNatDigit(v / 2, width - 1, i - 1);
    }
  }

  lemma BitwiseDigit(f: (bool, bool) -> bool, a: Cell, b: Cell, i: nat)
    requires i < 32
    ensures Digit(Bitwise(f, a, b), i) == f(Digit(a, i), Digit(b, i))
  {
    hide OfNat, Digit, Val;
    var s := seq(32, i requires 0 <= i < 32 => f(OfNat(a, 32)[i], OfNat(b, 32)[i]));
    OfNatVal(s);
    OfNatDigit(Bitwise(f, a, b), 32, i);
    OfNatDigit(a, 32, i);
    OfNatDigit(b, 32, i);
  }

  lemma AndOrXor(a: Cell, b: Cell, i: nat)
    requires i < 32
    ensures Alu(And, a, b).Some? && Alu(Or, a, b).Some? && Alu(FinshLang.Xor, a, b).Some?
    ensures Digit(Alu(And, a, b).value, i) <==> Digit(a, i) && Digit(b, i)
    ensures Digit(Alu(Or, a, b).value, i) <==> Digit(a, i) || Digit(b, i)
    ensures Digit(Alu(FinshLang.Xor, a, b).value, i) <==> Digit(a, i) != Digit(b, i)
  {
    hide Bitwise, Digit;
    BitwiseDigit((x, y) => x && y, a, b, i);
    BitwiseDigit((x, y) => x || y, a, b, i);
    BitwiseDigit((x, y) => x != y, a, b, i);
  }

  lemma ComplementDigit(a: Cell, i: nat)
    requires i < 32
    ensures Digit(Complement(a), i) <==> !Digit(a, i)
  {
    Pow2Values();
    LeftToOnes(a, 32, i);
  }

  lemma {:induction false} LeftToOnes(v: nat, width: nat, i: nat)
    requires v < Pow2(width) && i < width
    ensures Digit(Pow2(width) - 1 - v, i) <==> !Digit(v, i)
    decreases i
  {
    var w := Pow2(width) - 1 - v;
    if i > 0 {
      HalfOfPower(v, i - 1);
      HalfOfPower(w, i - 1);
      assert w / 2 == Pow2(width - 1) - 1 - v / 2;
      LeftToOnes(v / 2, width - 1, i - 1);
    }
  }

  /** The digits make the value. */
  lemma DigitsDetermine(v: Cell, w: Cell)
    requires forall i: nat :: i < 32 ==> Digit(v, i) == Digit(w, i)
    ensures v == w
  {
    hide Digit, OfNat, Val;
    forall i | 0 <= i < 32
      ensures OfNat(v, 32)[i] == OfNat(w, 32)[i]
    {
      OfNatDigit(v, 32, i);
      OfNatDigit(w, 32, i);
    }
    assert OfNat(v, 32) == OfNat(w, 32);
    Pow2Values();
    ValOfNat(v, 32);
    ValOfNat(w, 32);
  }

  // ---------- memory ----------

  /** A long lies in four bytes, the least significant at its own address; the rest of memory stays. */
  lemma StoreBytes(m: Memory, a: Cell, v: Cell, x: Cell)
    ensures var i := (x - a) % MOD32;
            Store(m, a, v)(x) == if i < 4 then v / Pow2(8 * i) % 0x100 else m(x)
  {
    var i := (x - a) % MOD32;
    BytePlaces(a, x, 0);
    BytePlaces(a, x, 1);
    BytePlaces(a, x, 2);
    BytePlaces(a, x, 3);
    hide At, Pow2, ByteOf;
    if i < 4 {
      ByteDigits(v, i);
    }
  }

  lemma BytePlaces(a: Cell, x: Cell, i: nat)
    requires i < 4
    ensures x == At(a, i) <==> (x - a) % MOD32 == i
  {
  }

  lemma ByteDigits(v: Cell, i: nat)
    requires i < 4
    ensures ByteOf(v, i) == v / Pow2(8 * i) % 0x100
  {
    Pow2Values();
    Pow2Add(16, 8);
    assert i == 0 || i == 1 || i == 2 || i == 3;
  }

  // ---------- equations between expressions ----------

  /** Operands that have a value of their own. */
  lemma OnLiterals(op: BinOp, a: Cell, b: Cell, m: Memory, sys: System)
    ensures Eval(Binary(op, Literal(a), Literal(b)), m, sys)
         == match Alu(op, a, b) case None => None case Some(v) => Some((v, m))
    ensures Eval(Invert(Literal(a)), m, sys) == Some((Complement(a), m))
  {
  }

  /** The left operand comes first: the right one sees what it assigned. */
  lemma LeftFirst(op: BinOp, id: Ident, e: Expr, m: Memory, sys: System)
    requires !id.SysCall? && Eval(e, m, sys).Some?
    ensures var v := Eval(e, m, sys).value.0;
            var r := Eval(Binary(op, Assign(Named(id), e), Name(id)), m, sys);
            (r.Some? <==> Alu(op, v, v).Some?) && (r.Some? ==> Some(r.value.0) == Alu(op, v, v))
  {
    hide Alu, Store, Load;
    AssignReads(id, e, m, sys);
    var assign := Assign(Named(id), e);
    assert Eval(assign, m, sys).Some?;
  }

  function Literals(vs: seq<Cell>): Args { if vs == [] then NoArgs else Arg(Literal(vs[0]), Literals(vs[1..])) }

  /** A call hands over its arguments in their order, and a single zero if it has none. */
  lemma CallHandsOver(a: Cell, vs: seq<Cell>, m: Memory, sys: System)
    ensures Eval(Call(Literal(a), Literals(vs)), m, sys) == Some(sys(a, if |vs| > 0 then vs else [0], m))
  {
    LiteralArgs(vs, m, sys);
    assert Eval(Literal(a), m, sys) == Some((a, m));
  }

  lemma {:induction false} LiteralArgs(vs: seq<Cell>, m: Memory, sys: System)
    ensures EvalArgs(Literals(vs), m, sys) == Some((vs, m))
  {
    if vs != [] {
      LiteralArgs(vs[1..], m, sys);
      assert Eval(Literal(vs[0]), m, sys) == Some((vs[0], m));
      assert vs == [vs[0]] + vs[1..];
    }
  }

  /** An assignment has the value assigned, and what it wrote to has it from then on. */
  lemma AssignReads(id: Ident, e: Expr, m: Memory, sys: System)
    requires !id.SysCall?
    ensures Eval(e, m, sys).Some? <==> Eval(Assign(Named(id), e), m, sys).Some?
    ensures Eval(e, m, sys).Some? ==>
              var (v, after) := Eval(Assign(Named(id), e), m, sys).value;
              v == Eval(e, m, sys).value.0 && Eval(Name(id), after, sys) == Some((v, after))
  {
    if Eval(e, m, sys).Some? {
      var (v, m1) := Eval(e, m, sys).value;
      hide Load, Store;
      LoadStore(m1, AddressOf(id), v);
    }
  }

  /** ++x and --x are x = x + 1 and x = x - 1. */
  lemma PreStepAssigns(down: bool, id: Ident, m: Memory, sys: System)
    requires !id.SysCall?
    ensures Eval(PreStep(down, id), m, sys)
         == Eval(Assign(Named(id), Binary(if down then Sub else Add, Name(id), Literal(1))), m, sys)
  {
    hide Load, Store;
    var x := Load(m, AddressOf(id));
    var sum := Binary(if down then Sub else Add, Name(id), Literal(1));
    AddOne(x);
    assert Eval(Name(id), m, sys) == Some((x, m)) && Eval(Literal(1), m, sys) == Some((1, m));
    assert Eval(sum, m, sys) == Some((Stepped(down, x), m));
    assert Locate(Named(id), m, sys) == Some((AddressOf(id), m));
  }

  /** x++ and x-- have the value x had, and leave behind what ++x and --x do. */
  lemma PostStepLags(down: bool, id: Ident, m: Memory, sys: System)
    requires !id.SysCall?
    ensures Eval(PostStep(down, id), m, sys)
         == Some((Eval(Name(id), m, sys).value.0, Eval(PreStep(down, id), m, sys).value.1))
  {
    hide Load, Store;
  }

  /** *&x is x, and &*e is e. */
  lemma DerefOfAddress(id: Ident, e: Expr, m: Memory, sys: System)
    requires !id.SysCall?
    ensures Eval(Deref(AddrOf(Named(id))), m, sys) == Eval(Name(id), m, sys)
    ensures Eval(AddrOf(Pointee(e)), m, sys) == Eval(e, m, sys)
  {
    hide Load;
    assert Eval(AddrOf(Named(id)), m, sys) == Some((AddressOf(id), m));
  }

  /** What is assigned through a pointer is read back through it. */
  lemma AssignThrough(a: Cell, x: Expr, m: Memory, sys: System)
    requires Eval(x, m, sys).Some?
    ensures var r := Eval(Assign(Pointee(Literal(a)), x), m, sys);
            && r.Some? && r.value.0 == Eval(x, m, sys).value.0
            && Eval(Deref(Literal(a)), r.value.1, sys) == r
  {
    var (v, m1) := Eval(x, m, sys).value;
    hide Load, Store;
    assert Eval(Literal(a), m, sys) == Some((a, m)) && Locate(Pointee(Literal(a)), m, sys) == Some((a, m));
    LoadStore(m1, a, v);
    var after := Store(m1, a, v);
    assert Eval(Literal(a), after, sys) == Some((a, after));
  }

  /** The statements of a line take effect in their order; the last one gives the line its value. */
  lemma {:induction false} StatementsInOrder(p: seq<Expr>, q: seq<Expr>, m: Memory, sys: System)
    requires p != [] && q != []
    ensures EvalProgram(p + q, m, sys)
         == match EvalProgram(p, m, sys) case None => None case Some(r) => EvalProgram(q, r.1, sys)
  {
    hide Eval;
    assert (p + q)[1..] == p[1..] + q;
    if |p| == 1 {
      assert p[1..] + q == q;
    } else if Eval(p[0], m, sys).Some? {
      StatementsInOrder(p[1..], q, Eval(p[0], m, sys).value.1, sys);
    }
  }
}
