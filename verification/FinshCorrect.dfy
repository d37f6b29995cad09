/**
 Compiler correctness for the finsh shell: running the bytecode of a statement list leaves the
 memory and the last value that the expressions mean, and every expression nets one push.
 */
module FinshCorrect {
  import opened Widths
  import opened Bits
  import opened FinshLang
  import opened FinshVm

  // ---------- which expressions the compiler handles ----------

  /** The type finsh_type_check gives an expression: that of its leftmost leaf. */
  function Type(e: Expr): nat {
    match e
    case Literal(_) => DWORD
    case Name(id) => IdentType(id)
    case Binary(_, l, _) => Type(l)
    case Invert(x) => Type(x)
    case Call(f, _) => Type(f)
    case Assign(lv, _) => LType(lv)
    case PreStep(_, id) => IdentType(id)
    case PostStep(_, id) => IdentType(id)
    case Deref(x) => Type(x)
    case AddrOf(lv) => LType(lv)
  }

  function LType(lv: LValue): nat {
    match lv
    case Named(id) => IdentType(id)
    case Pointee(e) => Type(e)
  }

  /**
   * The condition under which the code is right: wherever an opcode depends on the type, the
   * leftmost leaf has a type; ++ and -- apply to shell variables; no void * or void variable is used;
   * at most 16 parameters.
   */
  predicate Typed(e: Expr) {
    match e
    case Literal(_) => true
    case Name(id) => !id.Silent?
    case Binary(_, l, r) => Type(l) == DWORD && Typed(l) && Typed(r)
    case Invert(x) => Type(x) == DWORD && Typed(x)
    case Call(f, args) => Typed(f) && TypedArgs(args) && Count(args) <= 16
    case Assign(lv, x) => LType(lv) == DWORD && TypedL(lv) && Typed(x)
    case PreStep(_, id) => id.Variable?
    case PostStep(_, id) => id.Variable?
    case Deref(x) => Type(x) == DWORD && Typed(x)
    case AddrOf(lv) => TypedL(lv)
  }

  predicate TypedL(lv: LValue) { if lv.Pointee? then Typed(lv.e) else !lv.id.Silent? }

  predicate TypedArgs(args: Args) { args.Arg? ==> Typed(args.e) && TypedArgs(args.rest) }

  /** Stack cells an expression needs above the ones in use. */
  function Depth(e: Expr): nat {
    match e
    case Literal(_) => 1
    case Name(_) => 1
    case Binary(_, l, r) => Max(Depth(l), 1 + Depth(r))
    case Invert(x) => Depth(x)
    case Call(f, args) => Max(Depth(f), 1 + DepthArgs(args))
    case Assign(lv, x) => Max(DepthL(lv), 1 + Depth(x))
    case PreStep(_, _) => 3
    case PostStep(_, _) => 4
    case Deref(x) => Depth(x)
    case AddrOf(lv) => DepthL(lv)
  }

  function DepthL(lv: LValue): nat {
    match lv
    case Named(_) => 1
    case Pointee(e) => Depth(e)
  }

  function DepthArgs(args: Args): nat {
    match args
    case NoArgs => 0
    case Arg(e, rest) => Max(Depth(e), 1 + DepthArgs(rest))
  }

  function Max(a: nat, b: nat): nat { if a < b then b else a }

  // ---------- the code of an expression, compositionally ----------

  /** The bytecode of an expression used for its value. */
  function ExprCode(e: Expr): seq<Byte> { Code(TreeOf(e, Nil), false) }

  /** The bytecode of an lvalue used for its address. */
  function LCode(lv: LValue): seq<Byte> { Code(TreeOfLValue(lv, Nil), true) }

  function ArgsCode(args: Args): seq<Byte> { Code(TreeOfArgs(args), false) }

  lemma {:induction false} TypeAgrees(e: Expr, sibling: Tree)
    ensures DataType(TreeOf(e, sibling)) == Type(e)
  {
    match e
    case Literal(_) =>
    case Name(_) =>
    case Binary(_, l, r) => TypeAgrees(l, TreeOf(r, Nil));
    case Invert(x) => TypeAgrees(x, Nil);
    case Call(f, args) => TypeAgrees(f, TreeOfArgs(args));
    case Assign(lv, x) => LTypeAgrees(lv, TreeOf(x, Nil));
    case PreStep(_, _) =>
    case PostStep(_, _) =>
    case Deref(x) => TypeAgrees(x, Nil);
    case AddrOf(lv) => LTypeAgrees(lv, Nil);
  }

  lemma {:induction false} LTypeAgrees(lv: LValue, sibling: Tree)
    ensures DataType(TreeOfLValue(lv, sibling)) == LType(lv)
  {
    match lv
    case Named(_) =>
    case Pointee(e) => TypeAgrees(e, Nil);
  }

  /** A node's own code does not depend on its siblings, which are compiled after it. */
  lemma CodeThenSiblings(kind: Kind, child: Tree, sibling: Tree, isAddr: bool)
    ensures Code(Node(kind, child, sibling), isAddr) == Code(Node(kind, child, Nil), isAddr) + Code(sibling, false)
  {
    assert Code(Node(kind, child, Nil), isAddr) == Code(child, ChildIsAddress(kind, isAddr))
        + Emit(kind, isAddr, child);
  }

  /** The sibling is only linked to an expression's root node. */
  lemma RootAlone(e: Expr, sibling: Tree)
    ensures TreeOf(e, Nil) == Node(TreeOf(e, sibling).kind, TreeOf(e, sibling).child, Nil)
  {
  }

  lemma ExprThenSiblings(e: Expr, sibling: Tree)
    ensures Code(TreeOf(e, sibling), false) == ExprCode(e) + Code(sibling, false)
  {
    var t := TreeOf(e, sibling);
    assert TreeOf(e, Nil) == Node(t.kind, t.child, Nil);
    CodeThenSiblings(t.kind, t.child, sibling, false);
  }

  lemma LValueThenSiblings(lv: LValue, sibling: Tree)
    ensures Code(TreeOfLValue(lv, sibling), true) == LCode(lv) + Code(sibling, false)
  {
    var t := TreeOfLValue(lv, sibling);
    assert TreeOfLValue(lv, Nil) == Node(t.kind, t.child, Nil);
    CodeThenSiblings(t.kind, t.child, sibling, true);
  }

  lemma {:induction false} ArgsAreSiblings(args: Args)
    ensures Siblings(TreeOfArgs(args)) == Count(args)
  {
    if args.Arg? {
      ArgsAreSiblings(args.rest);
      assert TreeOf(args.e, TreeOfArgs(args.rest)).sibling == TreeOfArgs(args.rest);
    }
  }

  function StepCode(down: bool): Byte { Opcode(if down then Sub else Add) }

  lemma NodeCode(kind: Kind, child: Tree, isAddr: bool)
    ensures Code(Node(kind, child, Nil), isAddr) == Code(child, ChildIsAddress(kind, isAddr))
        + Emit(kind, isAddr, child)
  {
    assert Code(Nil, false) == [];
  }

  /** The code of an identifier used for its value, and for its address. */
  function ValueCode(id: Ident): seq<Byte> {
    if id.Silent? then [] else (if id.SysCall? then [OP_LD] else [OP_LD_VALUE]) + Dword(AddressOf(id))
  }

  function AddressCode(id: Ident): seq<Byte> { if id.Silent? then [] else [OP_LD] + Dword(AddressOf(id)) }

  lemma LeafForms(w: Cell, id: Ident)
    ensures ExprCode(Literal(w)) == [OP_LD] + Dword(w)
    ensures ExprCode(Name(id)) == ValueCode(id)
  {
    hide Dword;
    NodeCode(KValue(w), Nil, false);
    NodeCode(KId(id), Nil, false);
  }

  lemma BinaryForm(op: BinOp, l: Expr, r: Expr)
    ensures ExprCode(Binary(op, l, r)) == ExprCode(l) + (ExprCode(r) + (if Type(l) == DWORD then [Opcode(op)] else []))
  {
    var child := TreeOf(l, TreeOf(r, Nil));
    ExprThenSiblings(l, TreeOf(r, Nil));
    TypeAgrees(l, TreeOf(r, Nil));
    NodeCode(KBinary(op), child, false);
  }

  lemma UnaryForms(x: Expr)
    ensures ExprCode(Invert(x)) == ExprCode(x) + (if Type(x) == DWORD then [OP_BITWISE] else [])
    ensures ExprCode(Deref(x)) == ExprCode(x) + (if Type(x) == DWORD then [OP_LD_STACK] else [])
  {
    TypeAgrees(x, Nil);
    NodeCode(KBitwise, TreeOf(x, Nil), false);
    NodeCode(KGetValue, TreeOf(x, Nil), false);
  }

  lemma CallForm(f: Expr, args: Args)
    ensures ExprCode(Call(f, args)) == ExprCode(f) + (ArgsCode(args) + [OP_SYSCALL, Count(args) % 0x100])
  {
    ExprThenSiblings(f, TreeOfArgs(args));
    ArgsAreSiblings(args);
    NodeCode(KFunc, TreeOf(f, TreeOfArgs(args)), false);
  }

  lemma AssignForm(lv: LValue, x: Expr)
    ensures ExprCode(Assign(lv, x)) == LCode(lv) + (ExprCode(x)
        + (if LType(lv) == DWORD then [OP_ST, OP_LD_STACK] else []))
  {
    LValueThenSiblings(lv, TreeOf(x, Nil));
    LTypeAgrees(lv, TreeOf(x, Nil));
    NodeCode(KAssign, TreeOfLValue(lv, TreeOf(x, Nil)), false);
  }

  lemma StepForms(down: bool, id: Ident)
    ensures ExprCode(PreStep(down, id))
         == AddressCode(id)
            + (if IdentType(id) == DWORD
               then [OP_LD_VALUE] + Dword(StepAddress(id)) + [OP_LD] + Dword(1) + [StepCode(down), OP_ST, OP_LD_STACK]
               else [])
    ensures ExprCode(PostStep(down, id))
         == ValueCode(id)
            + (if IdentType(id) == DWORD
               then [OP_LD] + Dword(StepAddress(id)) + [OP_LD_VALUE] + Dword(StepAddress(id))
                    + [OP_LD] + Dword(1) + [StepCode(down), OP_ST, OP_POP]
               else [])
  {
    hide Dword;
    var leaf := Node(KId(id), Nil, Nil);
    NodeCode(KId(id), Nil, true);
    NodeCode(KId(id), Nil, false);
    var load, value := AddressCode(id), ValueCode(id);
    assert Code(leaf, true) == load && Code(leaf, false) == value;
    hide Code;
    NodeCode(KPreStep(down), leaf, false);
    NodeCode(KStep(down), leaf, false);
    assert DataType(leaf) == IdentType(id);
    assert load + [] == load && value + [] == value;
  }

  lemma StoredForms(id: Ident)
    requires id.Variable? || id.SysVariable?
    ensures ValueCode(id) == [OP_LD_VALUE] + Dword(id.addr) && AddressCode(id) == [OP_LD] + Dword(id.addr)
    ensures IdentType(id) == DWORD && StepAddress(id) == if id.Variable? then id.addr else At(id.descriptor, 20)
  {
  }

  lemma NamedForm(id: Ident)
    ensures LCode(Named(id)) == AddressCode(id)
  {
    NodeCode(KId(id), Nil, true);
  }

  lemma PointeeForm(e: Expr)
    ensures LCode(Pointee(e)) == ExprCode(e)
  {
    assert TreeOfLValue(Pointee(e), Nil) == Node(KGetValue, TreeOf(e, Nil), Nil);
    NodeCode(KGetValue, TreeOf(e, Nil), true);
    assert Emit(KGetValue, true, TreeOf(e, Nil)) == [];
    assert ExprCode(e) + [] == ExprCode(e);
  }

  lemma AddrForm(lv: LValue)
    ensures ExprCode(AddrOf(lv)) == LCode(lv)
  {
    assert TreeOf(AddrOf(lv), Nil) == Node(KGetAddr, TreeOfLValue(lv, Nil), Nil);
    NodeCode(KGetAddr, TreeOfLValue(lv, Nil), false);
    assert Emit(KGetAddr, false, TreeOfLValue(lv, Nil)) == [];
  }

  lemma ArgsForms(e: Expr, rest: Args)
    ensures ArgsCode(NoArgs) == []
    ensures ArgsCode(Arg(e, rest)) == ExprCode(e) + ArgsCode(rest)
  {
    ExprThenSiblings(e, TreeOfArgs(rest));
  }

  // ---------- single instructions ----------

  lemma GetDword(v: Cell)
    ensures Get32(Dword(v)) == v
  {
    BytesOf(v);
  }

  lemma ExecLd(v: Cell, rest: seq<Byte>, st: VmState, sys: System)
    requires |st.stack| < STACK_MAX
    ensures Exec([OP_LD] + Dword(v) + rest, st, sys) == Exec(rest, VmState(st.stack + [v], st.mem), sys)
    ensures Exec([OP_LD_VALUE] + Dword(v) + rest, st, sys)
        == Exec(rest, VmState(st.stack + [Load(st.mem, v)], st.mem), sys)
  {
    hide Dword, Load, Exec, Get32;
    GetDword(v);
    ExecOne(OP_LD, Dword(v), rest, st, sys);
    ExecOne(OP_LD_VALUE, Dword(v), rest, st, sys);
  }

  /** An opcode without operands. */
  lemma ExecPlain(op: Byte, rest: seq<Byte>, st: VmState, sys: System)
    requires Operands(op) == 0
    ensures Exec([op] + rest, st, sys)
         == match Do(op, [], st, sys) case None => None case Some(st') => Exec(rest, st', sys)
  {
    hide Exec, Do;
    assert [op] + rest == [op] + [] + rest;
    ExecOne(op, [], rest, st, sys);
  }

  lemma ExecBinary(op: BinOp, rest: seq<Byte>, s: seq<Cell>, a: Cell, b: Cell, m: Memory, sys: System)
    requires Alu(op, a, b).Some?
    ensures Exec([Opcode(op)] + rest, VmState(s + [a] + [b], m), sys)
        == Exec(rest, VmState(s + [Alu(op, a, b).value], m), sys)
  {
    hide Exec, Alu;
    ExecPlain(Opcode(op), rest, VmState(s + [a] + [b], m), sys);
    assert (s + [a] + [b])[..|s|] == s;
  }

  lemma ExecUnary(rest: seq<Byte>, s: seq<Cell>, a: Cell, m: Memory, sys: System)
    ensures Exec([OP_BITWISE] + rest, VmState(s + [a], m), sys) == Exec(rest, VmState(s + [Complement(a)], m), sys)
    ensures Exec([OP_LD_STACK] + rest, VmState(s + [a], m), sys) == Exec(rest, VmState(s + [Load(m, a)], m), sys)
    ensures Exec([OP_POP] + rest, VmState(s + [a], m), sys) == Exec(rest, VmState(s, m), sys)
  {
    hide Exec, Load;
    ExecPlain(OP_BITWISE, rest, VmState(s + [a], m), sys);
    ExecPlain(OP_LD_STACK, rest, VmState(s + [a], m), sys);
    ExecPlain(OP_POP, rest, VmState(s + [a], m), sys);
    assert (s + [a])[..|s|] == s;
  }

  lemma ExecStore(rest: seq<Byte>, s: seq<Cell>, a: Cell, v: Cell, m: Memory, sys: System)
    ensures Exec([OP_ST] + rest, VmState(s + [a] + [v], m), sys) == Exec(rest, VmState(s + [a], Store(m, a, v)), sys)
  {
    hide Exec, Store;
    ExecPlain(OP_ST, rest, VmState(s + [a] + [v], m), sys);
    assert (s + [a] + [v])[..|s| + 1] == s + [a];
  }

  /** st; ld_value_stack: the stored value is read back. */
  lemma ExecStoreReload(rest: seq<Byte>, s: seq<Cell>, a: Cell, v: Cell, m: Memory, sys: System)
    ensures Exec([OP_ST, OP_LD_STACK] + rest, VmState(s + [a] + [v], m), sys)
        == Exec(rest, VmState(s + [v], Store(m, a, v)), sys)
  {
    hide Exec, Store, Load;
    assert [OP_ST, OP_LD_STACK] + rest == [OP_ST] + ([OP_LD_STACK] + rest);
    ExecStore([OP_LD_STACK] + rest, s, a, v, m, sys);
    ExecUnary(rest, s, a, Store(m, a, v), sys);
    LoadStore(m, a, v);
  }

  lemma ExecCall(rest: seq<Byte>, s: seq<Cell>, f: Cell, vs: seq<Cell>, m: Memory, sys: System)
    requires |vs| <= 16
    ensures Exec([OP_SYSCALL, |vs| % 0x100] + rest, VmState(s + [f] + vs, m), sys)
         == (var r := sys(f, Passed(vs), m); Exec(rest, VmState(s + [r.0], r.1), sys))
  {
    hide Exec, Passed;
    var st := VmState(s + [f] + vs, m);
    assert [OP_SYSCALL, |vs| % 0x100] + rest == [OP_SYSCALL] + [|vs|] + rest;
    ExecOne(OP_SYSCALL, [|vs|], rest, st, sys);
    var k := |st.stack|;
    assert st.stack[k - |vs|..] == vs && st.stack[..k - |vs| - 1] == s && st.stack[k - |vs| - 1] == f;
  }

  /** ld 1; add or sub */
  lemma ExecStep(down: bool, rest: seq<Byte>, s: seq<Cell>, v: Cell, m: Memory, sys: System)
    requires |s| + 1 < STACK_MAX
    ensures Exec([OP_LD] + Dword(1) + [StepCode(down)] + rest, VmState(s + [v], m), sys)
         == Exec(rest, VmState(s + [Stepped(down, v)], m), sys)
  {
    hide Exec, Dword, Alu, Opcode;
    AddOne(v);
    assert [OP_LD] + Dword(1) + [StepCode(down)] + rest == [OP_LD] + Dword(1) + ([StepCode(down)] + rest);
    ExecLd(1, [StepCode(down)] + rest, VmState(s + [v], m), sys);
    ExecBinary(if down then Sub else Add, rest, s, v, 1, m, sys);
  }

  // ---------- the main induction ----------

  /** The code of a typed expression pushes its value and has its effect on memory, and goes on. */
  ghost predicate Runs(code: seq<Byte>, rest: seq<Byte>, st: VmState, r: (Cell, Memory), sys: System) {
    Exec(code + rest, st, sys) == Exec(rest, VmState(st.stack + [r.0], r.1), sys)
  }

  lemma {:induction false} ExprCorrect(e: Expr, rest: seq<Byte>, st: VmState, sys: System)
    requires Typed(e) && Eval(e, st.mem, sys).Some? && |st.stack| + Depth(e) <= STACK_MAX
    ensures Runs(ExprCode(e), rest, st, Eval(e, st.mem, sys).value, sys)
    decreases e, 1
  {
    hide Exec, Dword, Alu, Load, Store, ExprCode, LCode, ArgsCode, Opcode;
    var s := st.stack;
    match e
    case Literal(w) =>
      LeafForms(w, SysCall(0, 0));
      ExecLd(w, rest, st, sys);
    case Name(id) =>
      LeafForms(0, id);
      ExecLd(AddressOf(id), rest, st, sys);
    case Binary(op, l, r) =>
      BinaryForm(op, l, r);
      var (a, m1) := Eval(l, st.mem, sys).value;
      var (b, m2) := Eval(r, m1, sys).value;
      ExprCorrect(l, ExprCode(r) + ([Opcode(op)] + rest), st, sys);
      ExprCorrect(r, [Opcode(op)] + rest, VmState(s + [a], m1), sys);
      ExecBinary(op, rest, s, a, b, m2, sys);
      assert ExprCode(e) + rest == ExprCode(l) + (ExprCode(r) + ([Opcode(op)] + rest));
    case Invert(x) =>
      UnaryForms(x);
      var (a, m1) := Eval(x, st.mem, sys).value;
      ExprCorrect(x, [OP_BITWISE] + rest, st, sys);
      ExecUnary(rest, s, a, m1, sys);
      assert ExprCode(e) + rest == ExprCode(x) + ([OP_BITWISE] + rest);
    case Call(f, args) =>
      CallCorrect(e, rest, st, sys);
    case Assign(lv, x) =>
      AssignForm(lv, x);
      var (a, m1) := Locate(lv, st.mem, sys).value;
      var (v, m2) := Eval(x, m1, sys).value;
      LValueCorrect(lv, ExprCode(x) + ([OP_ST, OP_LD_STACK] + rest), st, sys);
      ExprCorrect(x, [OP_ST, OP_LD_STACK] + rest, VmState(s + [a], m1), sys);
      ExecStoreReload(rest, s, a, v, m2, sys);
      assert ExprCode(e) + rest == LCode(lv) + (ExprCode(x) + ([OP_ST, OP_LD_STACK] + rest));
    case PreStep(down, id) =>
      PreStepCorrect(down, id, rest, st, sys);
    case PostStep(down, id) =>
      PostStepCorrect(down, id, rest, st, sys);
    case Deref(x) =>
      UnaryForms(x);
      var (a, m1) := Eval(x, st.mem, sys).value;
      ExprCorrect(x, [OP_LD_STACK] + rest, st, sys);
      ExecUnary(rest, s, a, m1, sys);
      assert ExprCode(e) + rest == ExprCode(x) + ([OP_LD_STACK] + rest);
    case AddrOf(lv) =>
      AddrForm(lv);
      LValueCorrect(lv, rest, st, sys);
  }

  lemma {:induction false} LValueCorrect(lv: LValue, rest: seq<Byte>, st: VmState, sys: System)
    requires TypedL(lv) && Locate(lv, st.mem, sys).Some? && |st.stack| + DepthL(lv) <= STACK_MAX
    ensures Runs(LCode(lv), rest, st, Locate(lv, st.mem, sys).value, sys)
    decreases lv, 1
  {
    hide Exec, Dword, Load, ExprCode, LCode;
    match lv
    case Named(id) => NamedForm(id); ExecLd(AddressOf(id), rest, st, sys);
    case Pointee(e) => PointeeForm(e); ExprCorrect(e, rest, st, sys);
  }

  lemma {:induction false} CallCorrect(e: Expr, rest: seq<Byte>, st: VmState, sys: System)
    requires e.Call? && Typed(e) && Eval(e, st.mem, sys).Some? && |st.stack| + Depth(e) <= STACK_MAX
    ensures Runs(ExprCode(e), rest, st, Eval(e, st.mem, sys).value, sys)
    decreases e, 0
  {
    hide Exec, ExprCode, ArgsCode, Passed;
    var s, f, args := st.stack, e.f, e.args;
    CallForm(f, args);
    var (a, m1) := Eval(f, st.mem, sys).value;
    var (vs, m2) := EvalArgs(args, m1, sys).value;
    var call := [OP_SYSCALL, Count(args) % 0x100];
    ExprCorrect(f, ArgsCode(args) + (call + rest), st, sys);
    ArgsCorrect(args, call + rest, VmState(s + [a], m1), sys);
    ExecCall(rest, s, a, vs, m2, sys);
    assert ExprCode(e) + rest == ExprCode(f) + (ArgsCode(args) + (call + rest));
  }

  lemma {:induction false} ArgsCorrect(args: Args, rest: seq<Byte>, st: VmState, sys: System)
    requires TypedArgs(args) && EvalArgs(args, st.mem, sys).Some? && |st.stack| + DepthArgs(args) <= STACK_MAX
    ensures var (vs, m) := EvalArgs(args, st.mem, sys).value;
            && |vs| == Count(args)
            && Exec(ArgsCode(args) + rest, st, sys) == Exec(rest, VmState(st.stack + vs, m), sys)
    decreases args, 1
  {
    hide Exec, ExprCode, ArgsCode;
    match args
    case NoArgs =>
      ArgsForms(Literal(0), NoArgs);
      assert [] + rest == rest && st.stack + [] == st.stack;
    case Arg(e, more) =>
      ArgsForms(e, more);
      var (v, m1) := Eval(e, st.mem, sys).value;
      var (vs, m2) := EvalArgs(more, m1, sys).value;
      ExprCorrect(e, ArgsCode(more) + rest, st, sys);
      ArgsCorrect(more, rest, VmState(st.stack + [v], m1), sys);
      assert ArgsCode(args) + rest == ExprCode(e) + (ArgsCode(more) + rest);
      assert st.stack + [v] + vs == st.stack + ([v] + vs);
  }

  lemma PreStepCorrect(down: bool, id: Ident, rest: seq<Byte>, st: VmState, sys: System)
    requires id.Variable? && |st.stack| + 3 <= STACK_MAX
    ensures Runs(ExprCode(PreStep(down, id)), rest, st, Eval(PreStep(down, id), st.mem, sys).value, sys)
  {
    hide Exec, Dword, Load, Store, ExprCode, Opcode, ValueCode, AddressCode, StepAddress, IdentType;
    var s, m, a := st.stack, st.mem, id.addr;
    var v := Load(m, a);
    StepForms(down, id);
    StoredForms(id);
    var r3 := [OP_ST, OP_LD_STACK] + rest;
    var r2 := [OP_LD] + Dword(1) + [StepCode(down)] + r3;
    var r1 := [OP_LD_VALUE] + Dword(a) + r2;
    assert ExprCode(PreStep(down, id)) + rest == [OP_LD] + Dword(a) + r1;
    ExecLd(a, r1, st, sys);
    ExecLd(a, r2, VmState(s + [a], m), sys);
    ExecStep(down, r3, s + [a], v, m, sys);
    ExecStoreReload(rest, s, a, Stepped(down, v), m, sys);
  }

  lemma PostStepCorrect(down: bool, id: Ident, rest: seq<Byte>, st: VmState, sys: System)
    requires id.Variable? && |st.stack| + 4 <= STACK_MAX
    ensures Runs(ExprCode(PostStep(down, id)), rest, st, Eval(PostStep(down, id), st.mem, sys).value, sys)
  {
    hide Exec, Dword, Load, Store, ExprCode, Opcode, ValueCode, AddressCode, StepAddress, IdentType;
    var s, m, a := st.stack, st.mem, id.addr;
    var v := Load(m, a);
    StepForms(down, id);
    StoredForms(id);
    var r5 := [OP_POP] + rest;
    var r4 := [OP_ST] + r5;
    var r3 := [OP_LD] + Dword(1) + [StepCode(down)] + r4;
    var r2 := [OP_LD_VALUE] + Dword(a) + r3;
    var r1 := [OP_LD] + Dword(a) + r2;
    assert ExprCode(PostStep(down, id)) + rest == [OP_LD_VALUE] + Dword(a) + r1;
    ExecLd(a, r1, st, sys);
    ExecLd(a, r2, VmState(s + [v], m), sys);
    ExecLd(a, r3, VmState(s + [v] + [a], m), sys);
    ExecStep(down, r4, s + [v] + [a], v, m, sys);
    ExecStore(r5, s + [v], a, Stepped(down, v), m, sys);
    ExecUnary(rest, s + [v], a, Store(m, a, Stepped(down, v)), sys);
  }

  // ---------- statement lists ----------

  predicate TypedProgram(p: seq<Expr>) { forall i :: 0 <= i < |p| ==> Typed(p[i]) && Depth(p[i]) <= STACK_MAX }

  /** The value of the last statement and the memory after all of them. */
  function EvalProgram(p: seq<Expr>, m: Memory, sys: System): Option<(Cell, Memory)>
    requires p != []
  {
    match Eval(p[0], m, sys)
    case None => None
    case Some(r) => if |p| == 1 then Some(r) else EvalProgram(p[1..], r.1, sys)
  }

  lemma {:induction false} ProgramCorrect(p: seq<Expr>, rest: seq<Byte>, m: Memory, sys: System)
    requires p != [] && TypedProgram(p) && EvalProgram(p, m, sys).Some?
    ensures var (v, m') := EvalProgram(p, m, sys).value;
            Exec(ProgramCode(TreeOfProgram(p)) + rest, VmState([], m), sys) == Exec(rest, VmState([v], m'), sys)
  {
    hide Exec, ExprCode, ProgramCode, TreeOfProgram, Eval;
    var first, more := p[0], p[1..];
    var (v, m1) := Eval(first, m, sys).value;
    ProgramForm(p);
    assert [] + [v] == [v];
    if |p| == 1 {
      assert ExprCode(first) + [] == ExprCode(first);
      ExprCorrect(first, rest, VmState([], m), sys);
    } else {
      var code := ProgramCode(TreeOfProgram(more));
      ExprCorrect(first, [OP_POP] + (code + rest), VmState([], m), sys);
      ExecUnary(code + rest, [], v, m1, sys);
      ProgramCorrect(more, rest, m1, sys);
      assert ProgramCode(TreeOfProgram(p)) + rest == ExprCode(first) + ([OP_POP] + (code + rest));
    }
  }

  lemma ProgramForm(p: seq<Expr>)
    requires p != []
    ensures ProgramCode(TreeOfProgram(p))
         == ExprCode(p[0]) + (if |p| == 1 then [] else [OP_POP] + ProgramCode(TreeOfProgram(p[1..])))
  {
    hide Code, TreeOf;
    var t := TreeOf(p[0], TreeOfProgram(p[1..]));
    RootAlone(p[0], TreeOfProgram(p[1..]));
    assert TreeOfProgram(p[1..]) == Nil <==> |p| == 1;
  }

  /** The text segment after compilation: the code, then the zeros memset left behind. */
  function Text(code: seq<Byte>): (t: seq<Byte>)
    requires |code| <= TEXT_MAX
    ensures |t| == TEXT_MAX
  {
    code + seq(TEXT_MAX - |code|, _ => 0 as Byte)
  }

  /**
   * Semantic preservation: for every statement list that is typed, fits the text and the stack and
   * means something, the machine runs through the whole text and ends with exactly one value, the
   * last statement's, at the bottom of the stack, and with the memory the statements leave.
   */
  lemma CompilerCorrect(p: seq<Expr>, m: Memory, sys: System)
    requires p != [] && TypedProgram(p) && EvalProgram(p, m, sys).Some?
    requires |ProgramCode(TreeOfProgram(p))| <= TEXT_MAX
    ensures Exec(Text(ProgramCode(TreeOfProgram(p))), VmState([], m), sys)
         == Some(VmState([EvalProgram(p, m, sys).value.0], EvalProgram(p, m, sys).value.1))
  {
    var n := TEXT_MAX - |ProgramCode(TreeOfProgram(p))|;
    ProgramCorrect(p, seq(n, _ => 0 as Byte), m, sys);
    var r := EvalProgram(p, m, sys).value;
    ExecNoops(n, VmState([r.0], r.1), sys);
  }

  // ---------- exactly when an expression nets one push ----------

  /** What an opcode adds to the number of cells on the stack. */
  function OpEffect(op: Byte, arg: seq<Byte>): int
    requires |arg| == Operands(op)
  {
    if op == OP_LD || op == OP_LD_VALUE then 1
    else if op == OP_SYSCALL then -(arg[0] as int)
    else if op == OP_POP || op == OP_ST || Decode(op).Some? then -1
    else 0
  }

  function Effect(code: seq<Byte>): int {
    if code == [] then 0
    else
      var n := Operands(code[0]);
      if |code| < 1 + n then 0 else OpEffect(code[0], code[1..1 + n]) + Effect(code[1 + n..])
  }

  lemma DoEffect(op: Byte, arg: seq<Byte>, st: VmState, sys: System)
    requires |arg| == Operands(op) && Do(op, arg, st, sys).Some?
    ensures |Do(op, arg, st, sys).value.stack| == |st.stack| + OpEffect(op, arg)
  {
    hide Alu, Load, Store, Passed, FromBytes, Complement;
  }

  /** Whatever runs through changes the stack height by the effect of its code. */
  lemma {:induction false} EffectIsHeight(code: seq<Byte>, st: VmState, sys: System)
    requires Exec(code, st, sys).Some?
    ensures |Exec(code, st, sys).value.stack| == |st.stack| + Effect(code)
    decreases |code|
  {
    hide Do, OpEffect;
    if code != [] {
      var n := Operands(code[0]);
      var st' := Do(code[0], code[1..1 + n], st, sys).value;
      DoEffect(code[0], code[1..1 + n], st, sys);
      EffectIsHeight(code[1 + n..], st', sys);
    }
  }

  lemma EffectOne(op: Byte, arg: seq<Byte>, rest: seq<Byte>)
    requires |arg| == Operands(op)
    ensures Effect([op] + arg + rest) == OpEffect(op, arg) + Effect(rest)
  {
    var code := [op] + arg + rest;
    assert code[1..1 + |arg|] == arg && code[1 + |arg|..] == rest;
  }

  lemma EffectPlain(op: Byte, rest: seq<Byte>)
    requires Operands(op) == 0
    ensures Effect([op] + rest) == OpEffect(op, []) + Effect(rest)
  {
    EffectOne(op, [], rest);
    assert [op] + [] + rest == [op] + rest;
  }

  lemma EffectBinary(op: BinOp, rest: seq<Byte>)
    ensures Effect([Opcode(op)] + rest) == Effect(rest) - 1
  {
    hide Effect;
    EffectPlain(Opcode(op), rest);
  }

  lemma EffectStore(rest: seq<Byte>)
    ensures Effect([OP_ST, OP_LD_STACK] + rest) == Effect(rest) - 1
    ensures Effect([OP_ST, OP_POP] + rest) == Effect(rest) - 2
  {
    hide Effect;
    EffectPlain(OP_ST, [OP_LD_STACK] + rest);
    EffectPlain(OP_ST, [OP_POP] + rest);
    EffectPlain(OP_LD_STACK, rest);
    EffectPlain(OP_POP, rest);
    assert [OP_ST, OP_LD_STACK] + rest == [OP_ST] + ([OP_LD_STACK] + rest);
    assert [OP_ST, OP_POP] + rest == [OP_ST] + ([OP_POP] + rest);
  }

  /** Places where the type from the leftmost leaf makes the compiler leave out an opcode that pops. */
  function Misfits(e: Expr): nat {
    match e
    case Literal(_) => 0
    case Name(_) => 0
    case Binary(_, l, r) => Misfits(l) + Misfits(r) + (if Type(l) == DWORD then 0 else 1)
    case Invert(x) => Misfits(x)
    case Call(f, args) => Misfits(f) + MisfitsArgs(args) + (Count(args) - Count(args) % 0x100)
    case Assign(lv, x) => MisfitsL(lv) + Misfits(x) + (if LType(lv) == DWORD then 0 else 1)
    case PreStep(_, _) => 0
    case PostStep(_, _) => 0
    case Deref(x) => Misfits(x)
    case AddrOf(lv) => MisfitsL(lv)
  }

  function MisfitsL(lv: LValue): nat { if lv.Pointee? then Misfits(lv.e) else 0 }

  function MisfitsArgs(args: Args): nat { if args.Arg? then Misfits(args.e) + MisfitsArgs(args.rest) else 0 }

  /** Leaves for which the compiler emits nothing: void * and void variables. */
  function Silents(e: Expr): nat {
    match e
    case Literal(_) => 0
    case Name(id) => SilentIdent(id)
    case Binary(_, l, r) => Silents(l) + Silents(r)
    case Invert(x) => Silents(x)
    case Call(f, args) => Silents(f) + SilentsArgs(args)
    case Assign(lv, x) => SilentsL(lv) + Silents(x)
    case PreStep(_, id) => SilentIdent(id)
    case PostStep(_, id) => SilentIdent(id)
    case Deref(x) => Silents(x)
    case AddrOf(lv) => SilentsL(lv)
  }

  function SilentIdent(id: Ident): nat { if id.Silent? then 1 else 0 }

  function SilentsL(lv: LValue): nat { if lv.Pointee? then Silents(lv.e) else SilentIdent(lv.id) }

  function SilentsArgs(args: Args): nat { if args.Arg? then Silents(args.e) + SilentsArgs(args.rest) else 0 }

  lemma {:induction false} ExprEffect(e: Expr, rest: seq<Byte>)
    ensures Effect(ExprCode(e) + rest) == 1 + Misfits(e) - Silents(e) + Effect(rest)
    decreases e, 1
  {
    hide Effect, Dword, ExprCode, LCode, ArgsCode, Opcode, Type, LType;
    match e
    case Literal(w) =>
      LeafForms(w, SysCall(0, 0));
      EffectOne(OP_LD, Dword(w), rest);
    case Name(id) =>
      LeafForms(0, id);
      LeafEffect(id, rest);
    case Binary(op, l, r) =>
      BinaryForm(op, l, r);
      var tail := if Type(l) == DWORD then [Opcode(op)] else [];
      ExprEffect(l, ExprCode(r) + (tail + rest));
      ExprEffect(r, tail + rest);
      EffectBinary(op, rest);
      assert [] + rest == rest;
      assert ExprCode(e) + rest == ExprCode(l) + (ExprCode(r) + (tail + rest));
    case Invert(x) =>
      UnaryForms(x);
      UnaryEffect(x, if Type(x) == DWORD then [OP_BITWISE] else [], rest);
    case Call(f, args) =>
      CallEffect(e, rest);
    case Assign(lv, x) =>
      AssignEffect(e, rest);
    case PreStep(down, id) =>
      StepEffects(down, id, rest);
    case PostStep(down, id) =>
      StepEffects(down, id, rest);
    case Deref(x) =>
      UnaryForms(x);
      UnaryEffect(x, if Type(x) == DWORD then [OP_LD_STACK] else [], rest);
    case AddrOf(lv) =>
      AddrForm(lv);
      LValueEffect(lv, rest);
  }

  lemma {:induction false} CallEffect(e: Expr, rest: seq<Byte>)
    requires e.Call?
    ensures Effect(ExprCode(e) + rest) == 1 + Misfits(e) - Silents(e) + Effect(rest)
    decreases e, 0
  {
    hide Effect, ExprCode, ArgsCode;
    var f, args := e.f, e.args;
    CallForm(f, args);
    var call := [OP_SYSCALL, Count(args) % 0x100];
    ExprEffect(f, ArgsCode(args) + (call + rest));
    ArgsEffect(args, call + rest);
    EffectOne(OP_SYSCALL, [Count(args) % 0x100], rest);
    assert call + rest == [OP_SYSCALL] + [Count(args) % 0x100] + rest;
    assert ExprCode(e) + rest == ExprCode(f) + (ArgsCode(args) + (call + rest));
  }

  lemma {:induction false} AssignEffect(e: Expr, rest: seq<Byte>)
    requires e.Assign?
    ensures Effect(ExprCode(e) + rest) == 1 + Misfits(e) - Silents(e) + Effect(rest)
    decreases e, 0
  {
    hide Effect, ExprCode, LCode, LType;
    var lv, x := e.lv, e.e;
    AssignForm(lv, x);
    var tail := if LType(lv) == DWORD then [OP_ST, OP_LD_STACK] else [];
    LValueEffect(lv, ExprCode(x) + (tail + rest));
    ExprEffect(x, tail + rest);
    EffectStore(rest);
    assert [] + rest == rest;
    assert ExprCode(e) + rest == LCode(lv) + (ExprCode(x) + (tail + rest));
  }

  lemma {:induction false} UnaryEffect(x: Expr, tail: seq<Byte>, rest: seq<Byte>)
    requires tail == [] || tail == [OP_BITWISE] || tail == [OP_LD_STACK]
    ensures Effect(ExprCode(x) + tail + rest) == 1 + Misfits(x) - Silents(x) + Effect(rest)
    decreases x, 2
  {
    hide Effect, ExprCode;
    ExprEffect(x, tail + rest);
    assert ExprCode(x) + tail + rest == ExprCode(x) + (tail + rest);
    assert [] + rest == rest;
    EffectPlain(OP_BITWISE, rest);
    EffectPlain(OP_LD_STACK, rest);
  }

  lemma {:induction false} LValueEffect(lv: LValue, rest: seq<Byte>)
    ensures Effect(LCode(lv) + rest) == 1 + MisfitsL(lv) - SilentsL(lv) + Effect(rest)
    decreases lv, 1
  {
    hide Effect, Dword, ExprCode, LCode;
    match lv
    case Named(id) => NamedForm(id); LeafEffect(id, rest);
    case Pointee(e) => PointeeForm(e); ExprEffect(e, rest);
  }

  lemma {:induction false} ArgsEffect(args: Args, rest: seq<Byte>)
    ensures Effect(ArgsCode(args) + rest) == Count(args) + MisfitsArgs(args) - SilentsArgs(args) + Effect(rest)
    decreases args, 1
  {
    hide Effect, ExprCode, ArgsCode;
    match args
    case NoArgs =>
      ArgsForms(Literal(0), NoArgs);
      assert [] + rest == rest;
    case Arg(e, more) =>
      ArgsForms(e, more);
      ExprEffect(e, ArgsCode(more) + rest);
      ArgsEffect(more, rest);
      assert ArgsCode(args) + rest == ExprCode(e) + (ArgsCode(more) + rest);
  }

  /** ld 1; add or sub; and what follows */
  lemma EffectStep(down: bool, rest: seq<Byte>)
    ensures Effect([OP_LD] + Dword(1) + [StepCode(down)] + rest) == Effect(rest)
  {
    hide Effect, Dword, Opcode;
    EffectBinary(if down then Sub else Add, rest);
    EffectOne(OP_LD, Dword(1), [StepCode(down)] + rest);
    assert [OP_LD] + Dword(1) + [StepCode(down)] + rest == [OP_LD] + Dword(1) + ([StepCode(down)] + rest);
  }

  lemma LeafEffect(id: Ident, rest: seq<Byte>)
    ensures Effect(ValueCode(id) + rest) == 1 - SilentIdent(id) + Effect(rest)
    ensures Effect(AddressCode(id) + rest) == 1 - SilentIdent(id) + Effect(rest)
  {
    hide Effect, Dword;
    assert [] + rest == rest;
    EffectOne(OP_LD, Dword(AddressOf(id)), rest);
    EffectOne(OP_LD_VALUE, Dword(AddressOf(id)), rest);
  }

  lemma StepEffects(down: bool, id: Ident, rest: seq<Byte>)
    ensures Effect(ExprCode(PreStep(down, id)) + rest) == 1 - SilentIdent(id) + Effect(rest)
    ensures Effect(ExprCode(PostStep(down, id)) + rest) == 1 - SilentIdent(id) + Effect(rest)
  {
    hide Effect, Dword, ExprCode, Opcode, ValueCode, AddressCode;
    StepForms(down, id);
    var b := Dword(StepAddress(id));
    if IdentType(id) == VOID {
      LeafEffect(id, rest);
      assert AddressCode(id) + [] == AddressCode(id) && ValueCode(id) + [] == ValueCode(id);
    } else {
      EffectStore(rest);
      EffectStep(down, [OP_ST, OP_LD_STACK] + rest);
      EffectStep(down, [OP_ST, OP_POP] + rest);
      var p, q := [OP_LD] + Dword(1) + [StepCode(down)] + ([OP_ST, OP_LD_STACK] + rest),
                  [OP_LD] + Dword(1) + [StepCode(down)] + ([OP_ST, OP_POP] + rest);
      EffectOne(OP_LD_VALUE, b, p);
      LeafEffect(id, [OP_LD_VALUE] + b + p);
      EffectOne(OP_LD_VALUE, b, q);
      EffectOne(OP_LD, b, [OP_LD_VALUE] + b + q);
      LeafEffect(id, [OP_LD] + b + ([OP_LD_VALUE] + b + q));
      assert ExprCode(PreStep(down, id)) + rest == AddressCode(id) + ([OP_LD_VALUE] + b + p);
      assert ExprCode(PostStep(down, id)) + rest == ValueCode(id) + ([OP_LD] + b + ([OP_LD_VALUE] + b + q));
    }
  }

  /** A run that gets through pushes one cell if and only if there are as many silent leaves as misfits. */
  lemma OnePushIff(e: Expr, st: VmState, sys: System)
    requires Exec(ExprCode(e), st, sys).Some?
    ensures |Exec(ExprCode(e), st, sys).value.stack| == |st.stack| + 1 + Misfits(e) - Silents(e)
    ensures |Exec(ExprCode(e), st, sys).value.stack| == |st.stack| + 1 <==> Misfits(e) == Silents(e)
  {
    EffectIsHeight(ExprCode(e), st, sys);
    ExprEffect(e, []);
    assert ExprCode(e) + [] == ExprCode(e);
  }

  // ---------- what goes wrong outside the condition ----------

  /** `~f()`: the type of a call is that of the function's name, so the operator is dropped and
      the value is always wrong. */
  lemma InvertOfVoid(x: Expr, rest: seq<Byte>, st: VmState, sys: System)
    requires Type(x) != DWORD && Typed(x) && Eval(x, st.mem, sys).Some? && |st.stack| + Depth(x) <= STACK_MAX
    ensures var (w, m) := Eval(x, st.mem, sys).value;
            && Exec(ExprCode(Invert(x)) + rest, st, sys) == Exec(rest, VmState(st.stack + [w], m), sys)
            && w != Eval(Invert(x), st.mem, sys).value.0
  {
    hide Exec, ExprCode;
    var (w, m) := Eval(x, st.mem, sys).value;
    UnaryForms(x);
    assert ExprCode(Invert(x)) == ExprCode(x) + [] == ExprCode(x);
    ExprCorrect(x, rest, st, sys);
    assert Runs(ExprCode(x), rest, st, (w, m), sys);
    assert Eval(Invert(x), st.mem, sys).value.0 == Complement(w) != w;
  }

  /** ++ and -- on a system variable work with the wrong operand: the compiler takes the table entry
      for a shell variable. The result is right if and only if the two happen to hold the same value. */
  lemma PreStepOfSysVariable(down: bool, a: Cell, d: Cell, rest: seq<Byte>, st: VmState, sys: System)
    requires |st.stack| + 3 <= STACK_MAX
    ensures var e := PreStep(down, SysVariable(a, d));
            var w := Stepped(down, Load(st.mem, At(d, 20)));
            && Exec(ExprCode(e) + rest, st, sys) == Exec(rest, VmState(st.stack + [w], Store(st.mem, a, w)), sys)
            && (w == Eval(e, st.mem, sys).value.0 <==> Load(st.mem, At(d, 20)) == Load(st.mem, a))
  {
    hide Exec, Dword, Load, Store, ExprCode, Opcode, ValueCode, AddressCode, StepAddress, IdentType;
    var id := SysVariable(a, d);
    var s, m := st.stack, st.mem;
    var v := Load(m, At(d, 20));
    StepForms(down, id);
    StoredForms(id);
    var r3 := [OP_ST, OP_LD_STACK] + rest;
    var r2 := [OP_LD] + Dword(1) + [StepCode(down)] + r3;
    var r1 := [OP_LD_VALUE] + Dword(At(d, 20)) + r2;
    assert ExprCode(PreStep(down, id)) + rest == [OP_LD] + Dword(a) + r1;
    ExecLd(a, r1, st, sys);
    ExecLd(At(d, 20), r2, VmState(s + [a], m), sys);
    ExecStep(down, r3, s + [a], v, m, sys);
    ExecStoreReload(rest, s, a, Stepped(down, v), m, sys);
    StepInjective(down, v, Load(m, a));
  }

  lemma StepInjective(down: bool, v: Cell, w: Cell)
    ensures Stepped(down, v) == Stepped(down, w) <==> v == w
  {
  }

  /**
   * A post-step of a system variable pushes its value but counts in the table entry. The memory is
   * right if and only if the entry's value field is where the variable itself is.
   */
  lemma PostStepOfSysVariable(down: bool, a: Cell, d: Cell, rest: seq<Byte>, st: VmState, sys: System)
    requires |st.stack| + 4 <= STACK_MAX
    ensures var e := PostStep(down, SysVariable(a, d));
            var w := Stepped(down, Load(st.mem, At(d, 20)));
            && Exec(ExprCode(e) + rest, st, sys)
               == Exec(rest, VmState(st.stack + [Load(st.mem, a)], Store(st.mem, At(d, 20), w)), sys)
            && Load(st.mem, a) == Eval(e, st.mem, sys).value.0
            && (Store(st.mem, At(d, 20), w) == Eval(e, st.mem, sys).value.1 <==> At(d, 20) == a)
  {
    hide Exec, Dword, Load, Store, ExprCode, Opcode, ValueCode, AddressCode, StepAddress, IdentType, At;
    var id, b := SysVariable(a, d), At(d, 20);
    var s, m := st.stack, st.mem;
    var v, w := Load(m, a), Load(m, b);
    StepForms(down, id);
    StoredForms(id);
    var r5 := [OP_POP] + rest;
    var r4 := [OP_ST] + r5;
    var r3 := [OP_LD] + Dword(1) + [StepCode(down)] + r4;
    var r2 := [OP_LD_VALUE] + Dword(b) + r3;
    var r1 := [OP_LD] + Dword(b) + r2;
    assert ExprCode(PostStep(down, id)) + rest == [OP_LD_VALUE] + Dword(a) + r1;
    ExecLd(a, r1, st, sys);
    ExecLd(b, r2, VmState(s + [v], m), sys);
    ExecLd(b, r3, VmState(s + [v] + [b], m), sys);
    ExecStep(down, r4, s + [v] + [b], w, m, sys);
    ExecStore(r5, s + [v], b, Stepped(down, w), m, sys);
    ExecUnary(rest, s + [v], b, Store(m, b, Stepped(down, w)), sys);
    CountedApart(down, m, a, b);
  }

  /** Counting at different addresses leaves different memories. */
  lemma CountedApart(down: bool, m: Memory, a: Cell, b: Cell)
    ensures Store(m, b, Stepped(down, Load(m, b))) == Store(m, a, Stepped(down, Load(m, a))) <==> a == b
  {
    hide Store, Load, Stepped;
    var x, y := Store(m, a, Stepped(down, Load(m, a))), Store(m, b, Stepped(down, Load(m, b)));
    LowByteMoves(down, m, a);
    LowByteMoves(down, m, b);
    if x == y {
      StoredWhere(m, b, Stepped(down, Load(m, b)), a);
      StoredWhere(m, a, Stepped(down, Load(m, a)), b);
      NearBoth(a, b);
    }
  }

  lemma NearBoth(a: Cell, b: Cell)
    requires (a - b) % MOD32 <= 3 && (b - a) % MOD32 <= 3
    ensures a == b
  {
  }

  lemma LowByteMoves(down: bool, m: Memory, a: Cell)
    ensures Store(m, a, Stepped(down, Load(m, a)))(a) != m(a)
  {
    hide Stepped, FromBytes;
    assert At(a, 0) == a;
    LowByte(m(At(a, 0)), m(At(a, 1)), m(At(a, 2)), m(At(a, 3)));
    SteppedByte(down, Load(m, a));
  }

  lemma LowByte(b0: Byte, b1: Byte, b2: Byte, b3: Byte)
    ensures FromBytes(b0, b1, b2, b3) % 0x100 == b0
  {
  }

  lemma SteppedByte(down: bool, v: Cell)
    ensures Stepped(down, v) % 0x100 != v % 0x100
  {
    var q := v / 0x100;
    assert down && v == 0 ==> Stepped(down, v) == 0xffff_ffff;
    assert !down && v == 0xffff_ffff ==> Stepped(down, v) == 0;
    assert v % 0x100 == v - 0x100 * q;
  }

  lemma StoredWhere(m: Memory, a: Cell, v: Cell, x: Cell)
    requires Store(m, a, v)(x) != m(x)
    ensures 0 <= (x - a) % MOD32 <= 3
  {
    hide ByteOf;
    assert x == At(a, 0) || x == At(a, 1) || x == At(a, 2) || x == At(a, 3);
  }

  /**
   `*f()`: the load is dropped as the complement is, so the value is right only where memory holds the address
   itself.
   */
  lemma DerefOfVoid(x: Expr, rest: seq<Byte>, st: VmState, sys: System)
    requires Type(x) != DWORD && Typed(x) && Eval(x, st.mem, sys).Some? && |st.stack| + Depth(x) <= STACK_MAX
    ensures var (w, m) := Eval(x, st.mem, sys).value;
            && Exec(ExprCode(Deref(x)) + rest, st, sys) == Exec(rest, VmState(st.stack + [w], m), sys)
            && (Eval(Deref(x), st.mem, sys) == Some((w, m)) <==> Load(m, w) == w)
  {
    hide Exec, ExprCode, Load;
    UnaryForms(x);
    assert ExprCode(Deref(x)) == ExprCode(x) + [] == ExprCode(x);
    ExprCorrect(x, rest, st, sys);
    assert Runs(ExprCode(x), rest, st, Eval(x, st.mem, sys).value, sys);
  }

  /** A binary operator whose left side has no type is not emitted: both operands stay on the stack. */
  lemma BinaryOfVoid(op: BinOp, l: Expr, r: Expr, rest: seq<Byte>, st: VmState, sys: System)
    requires Type(l) != DWORD && Typed(l) && Typed(r) && |st.stack| + Depth(Binary(op, l, r)) <= STACK_MAX
    requires Eval(l, st.mem, sys).Some? && Eval(r, Eval(l, st.mem, sys).value.1, sys).Some?
    ensures var (a, m1) := Eval(l, st.mem, sys).value;
            var (b, m2) := Eval(r, m1, sys).value;
            Exec(ExprCode(Binary(op, l, r)) + rest, st, sys) == Exec(rest, VmState(st.stack + [a] + [b], m2), sys)
  {
    hide Exec, ExprCode;
    BinaryForm(op, l, r);
    var (a, m1) := Eval(l, st.mem, sys).value;
    assert ExprCode(Binary(op, l, r)) + rest == ExprCode(l) + (ExprCode(r) + rest);
    ExprCorrect(l, ExprCode(r) + rest, st, sys);
    ExprCorrect(r, rest, VmState(st.stack + [a], m1), sys);
  }

  /** An assignment to what has no type stores nothing: address and value stay on the stack. */
  lemma AssignOfVoid(lv: LValue, x: Expr, rest: seq<Byte>, st: VmState, sys: System)
    requires LType(lv) != DWORD && TypedL(lv) && Typed(x) && |st.stack| + Depth(Assign(lv, x)) <= STACK_MAX
    requires Locate(lv, st.mem, sys).Some? && Eval(x, Locate(lv, st.mem, sys).value.1, sys).Some?
    ensures var (a, m1) := Locate(lv, st.mem, sys).value;
            var (v, m2) := Eval(x, m1, sys).value;
            Exec(ExprCode(Assign(lv, x)) + rest, st, sys) == Exec(rest, VmState(st.stack + [a] + [v], m2), sys)
  {
    hide Exec, ExprCode, LCode, LType, Typed, TypedL, Type, Load, Store, Alu, Eval, Locate;
    AssignForm(lv, x);
    var (a, m1) := Locate(lv, st.mem, sys).value;
    assert ExprCode(Assign(lv, x)) + rest == LCode(lv) + (ExprCode(x) + rest);
    LValueCorrect(lv, ExprCode(x) + rest, st, sys);
    ExprCorrect(x, rest, VmState(st.stack + [a], m1), sys);
  }

  /** A void * or void variable pushes nothing, whether used for its value or for its address. */
  lemma SilentPushesNothing(id: Ident, rest: seq<Byte>, st: VmState, sys: System)
    ensures Exec(ExprCode(Name(id)) + rest, st, sys) == Exec(rest, st, sys) <== id.Silent?
    ensures ExprCode(Name(id)) == [] <==> id.Silent?
    ensures LCode(Named(id)) == [] <==> id.Silent?
  {
    LeafForms(0, id);
    NamedForm(id);
    assert id.Silent? ==> ExprCode(Name(id)) + rest == rest;
  }

  /**
   * `p = x` for a void * p: the store takes its address from whatever lies below on the stack, and with
   * nothing below the machine underflows.
   */
  lemma AssignOfVoidPointer(id: Ident, x: Expr, rest: seq<Byte>, s: seq<Cell>, c: Cell, m: Memory, sys: System)
    requires id.Silent? && id.pointer && Typed(x) && Eval(x, m, sys).Some? && |s| + 1 + Depth(x) <= STACK_MAX
    ensures var (v, m') := Eval(x, m, sys).value;
            && Exec(ExprCode(Assign(Named(id), x)) + rest, VmState(s + [c], m), sys)
               == Exec(rest, VmState(s + [v], Store(m', c, v)), sys)
            && Exec(ExprCode(Assign(Named(id), x)) + rest, VmState([], m), sys) == None
  {
    hide Exec, ExprCode, LCode, Store, Load;
    AssignForm(Named(id), x);
    NamedForm(id);
    var (v, m') := Eval(x, m, sys).value;
    var tail := [OP_ST, OP_LD_STACK] + rest;
    assert ExprCode(Assign(Named(id), x)) + rest == ExprCode(x) + tail;
    ExprCorrect(x, tail, VmState(s + [c], m), sys);
    ExecStoreReload(rest, s, c, v, m', sys);
    ExprCorrect(x, tail, VmState([], m), sys);
    assert [] + [v] == [v];
    ExecPlain(OP_ST, [OP_LD_STACK] + rest, VmState([v], m'), sys);
    assert tail == [OP_ST] + ([OP_LD_STACK] + rest);
  }

  /** `f() + 2` leaves both operands on the stack: the addition is not emitted. */
  lemma CallPlusTwo(f: Cell, d: Cell, st: VmState, sys: System)
    requires |st.stack| + 2 <= STACK_MAX
    ensures var e := Binary(Add, Call(Name(SysCall(f, d)), NoArgs), Literal(2));
            var r := sys(f, [0], st.mem);
            Exec(ExprCode(e), st, sys) == Some(VmState(st.stack + [r.0] + [2], r.1))
  {
    hide ExprCode;
    var call, two := Call(Name(SysCall(f, d)), NoArgs), Literal(2);
    BinaryForm(Add, call, two);
    var r := sys(f, [0], st.mem);
    assert Eval(call, st.mem, sys) == Some(r);
    ExprCorrect(call, ExprCode(two), st, sys);
    ExprCorrect(two, [], VmState(st.stack + [r.0], r.1), sys);
    assert ExprCode(two) + [] == ExprCode(two);
  }

  lemma {:induction false} TypedHasNoMisfit(e: Expr)
    requires Typed(e)
    ensures Misfits(e) == 0 && Silents(e) == 0
    decreases e, 1
  {
    match e
    case Literal(_) =>
    case Name(_) =>
    case Binary(_, l, r) => TypedHasNoMisfit(l); TypedHasNoMisfit(r);
    case Invert(x) => TypedHasNoMisfit(x);
    case Call(f, args) => TypedHasNoMisfit(f); TypedArgsNoMisfit(args);
    case Assign(lv, x) => TypedHasNoMisfit(x); if lv.Pointee? { TypedHasNoMisfit(lv.e); }
    case PreStep(_, _) =>
    case PostStep(_, _) =>
    case Deref(x) => TypedHasNoMisfit(x);
    case AddrOf(lv) => if lv.Pointee? { TypedHasNoMisfit(lv.e); }
  }

  lemma {:induction false} TypedArgsNoMisfit(args: Args)
    requires TypedArgs(args)
    ensures MisfitsArgs(args) == 0 && SilentsArgs(args) == 0
    decreases args, 1
  {
    if args.Arg? {
      TypedHasNoMisfit(args.e);
      TypedArgsNoMisfit(args.rest);
    }
  }
}
