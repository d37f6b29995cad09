/** The finsh virtual machine: what each opcode of finsh_ops.c does to the stack and the memory. */
module FinshVm {
  import opened Widths
  import opened Bits
  import opened FinshLang

  const STACK_MAX: nat := 64
  const TEXT_MAX: nat := 128

  datatype VmState = VmState(stack: seq<Cell>, mem: Memory)

  function Decode(op: Byte): Option<BinOp> {
    if op == 0x03 then Some(Add) else if op == 0x06 then Some(Sub) else if op == 0x09 then Some(Div)
    else if op == 0x0C then Some(Mod) else if op == 0x0F then Some(Mul) else if op == 0x12 then Some(And)
    else if op == 0x15 then Some(Or) else if op == 0x18 then Some(Xor) else if op == 0x1E then Some(Shl)
    else if op == 0x21 then Some(Shr) else None
  }

  function Push(st: VmState, v: Cell): Option<VmState> {
    if |st.stack| >= STACK_MAX then None else Some(st.(stack := st.stack + [v]))
  }

  /** The operand bytes an opcode takes from the text. */
  function Operands(op: Byte): nat {
    if op == OP_LD || op == OP_LD_VALUE then 4 else if op == OP_SYSCALL then 1 else 0
  }

  /** FINSH_GET32 */
  function Get32(b: seq<Byte>): Cell
    requires |b| == 4
  {
    FromBytes(b[0], b[1], b[2], b[3])
  }

  /** OP_call: parameters off the stack, last one first, then the function under them. */
  function DoCall(n: nat, st: VmState, sys: System): Option<VmState> {
    var k := |st.stack|;
    if n > 16 || k < n + 1 then None
    else
      var (r, m) := sys(st.stack[k - n - 1], Passed(st.stack[k - n..]), st.mem);
      Some(VmState(st.stack[..k - n - 1] + [r], m))
  }

  /**
   * One opcode with its operands. None is where the C code runs into undefined behaviour:
   * stack under- or overflow, more than 16 parameters, an undefined operator, no such opcode.
   */
  function Do(op: Byte, arg: seq<Byte>, st: VmState, sys: System): Option<VmState>
    requires |arg| == Operands(op)
  {
    var k := |st.stack|;
    if op == 0 then Some(st)
    else if op == OP_LD then Push(st, Get32(arg))
    else if op == OP_LD_VALUE then Push(st, Load(st.mem, Get32(arg)))
    else if op == OP_SYSCALL then DoCall(arg[0], st, sys)
    else if k < 1 then None
    else if op == OP_POP then Some(st.(stack := st.stack[..k - 1]))
    else if op == OP_LD_STACK then Some(st.(stack := st.stack[..k - 1] + [Load(st.mem, st.stack[k - 1])]))
    else if op == OP_BITWISE then Some(st.(stack := st.stack[..k - 1] + [Complement(st.stack[k - 1])]))
    else if k < 2 then None
    else if op == OP_ST then Some(VmState(st.stack[..k - 1], Store(st.mem, st.stack[k - 2], st.stack[k - 1])))
    else
      match Decode(op)
      case None => None
      case Some(bop) =>
        match Alu(bop, st.stack[k - 2], st.stack[k - 1])
        case None => None
        case Some(v) => Some(st.(stack := st.stack[..k - 2] + [v]))
  }

  /** Straight-line execution of a piece of text; there are no jumps. */
  function Exec(code: seq<Byte>, st: VmState, sys: System): Option<VmState> {
    if code == [] then Some(st)
    else
      var n := Operands(code[0]);
      if |code| < 1 + n then None
      else
        match Do(code[0], code[1..1 + n], st, sys)
        case None => None
        case Some(st') => Exec(code[1 + n..], st', sys)
  }

  /** Executing one instruction and going on. */
  lemma ExecOne(op: Byte, arg: seq<Byte>, rest: seq<Byte>, st: VmState, sys: System)
    requires |arg| == Operands(op)
    ensures Exec([op] + arg + rest, st, sys)
         == match Do(op, arg, st, sys) case None => None case Some(st') => Exec(rest, st', sys)
  {
    var code := [op] + arg + rest;
    assert code[1..1 + |arg|] == arg && code[1 + |arg|..] == rest;
  }

  /** The same at a place of the text: what runs through has room for the operands and goes on behind them. */
  lemma ExecAt(s: seq<Byte>, pc: nat, st: VmState, sys: System)
    requires pc < |s| && Exec(s[pc..], st, sys).Some?
    ensures var n := Operands(s[pc]);
            && pc + 1 + n <= |s| && Do(s[pc], s[pc + 1..pc + 1 + n], st, sys).Some?
            && Exec(s[pc + 1 + n..], Do(s[pc], s[pc + 1..pc + 1 + n], st, sys).value, sys) == Exec(s[pc..], st, sys)
  {
    hide Do;
    var code, n := s[pc..], Operands(s[pc]);
    assert code[0] == s[pc] && |code| == |s| - pc;
    if |code| >= 1 + n {
      assert code[1..1 + n] == s[pc + 1..pc + 1 + n] && code[1 + n..] == s[pc + 1 + n..];
    }
  }

  lemma {:induction false} ExecNoops(n: nat, st: VmState, sys: System)
    ensures Exec(seq(n, _ => 0 as Byte), st, sys) == Some(st)
  {
    if n > 0 {
      var z := seq(n, _ => 0 as Byte);
      assert z == [0] + [] + seq(n - 1, _ => 0 as Byte);
      ExecOne(0, [], seq(n - 1, _ => 0 as Byte), st, sys);
      ExecNoops(n - 1, st, sys);
    }
  }
}
