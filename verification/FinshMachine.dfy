/**
 finsh_vm.c and finsh_ops.c on their own state: a stack array, a text array, the globals
 finsh_sp and finsh_pc, and the fetch loop over the whole text segment.
 */
module FinshMachine {
  import opened Widths
  import opened Bits
  import opened FinshLang
  import opened FinshVm
  import opened FinshCorrect
  import opened FinshCompiler

  class Machine {
    const text: array<Byte>
    const stack: array<Cell>
    var sp: nat
    var pc: nat
    var mem: Memory

    constructor (text: array<Byte>, stack: array<Cell>, mem: Memory)
      ensures this.text == text && this.stack == stack && this.mem == mem && sp == pc == 0
    {
      this.text, this.stack, this.mem, sp, pc := text, stack, mem, 0, 0;
    }

    /** The machine's stack and memory are those of the abstract state. */
    ghost predicate Holds(st: VmState)
      reads this`sp, this`mem, stack
    {
      && stack.Length == STACK_MAX && |st.stack| == sp <= STACK_MAX
      && stack[..sp] == st.stack && mem == st.mem
    }

    /** FINSH_GET32 at the pc */
    method Fetch32() returns (v: Cell)
      requires pc + 4 <= text.Length
      modifies this`pc
      ensures v == Get32(text[old(pc)..old(pc) + 4]) && pc == old(pc) + 4
    {
      v := FromBytes(text[pc], text[pc + 1], text[pc + 2], text[pc + 3]);
      pc := pc + 4;
    }

    method OpLdDword(ghost st: VmState)
      requires Holds(st) && sp < STACK_MAX && pc + 4 <= text.Length
      modifies this`sp, this`pc, stack
      ensures pc == old(pc) + 4 && Holds(VmState(st.stack + [Get32(text[old(pc)..old(pc) + 4])], st.mem))
    {
      var v := Fetch32();
      stack[sp] := v;
      sp := sp + 1;
    }

    method OpLdValueDword(ghost st: VmState)
      requires Holds(st) && sp < STACK_MAX && pc + 4 <= text.Length
      modifies this`sp, this`pc, stack
      ensures pc == old(pc) + 4 && Holds(VmState(st.stack + [Load(st.mem, Get32(text[old(pc)..old(pc) + 4]))], st.mem))
    {
      var l := Fetch32();
      stack[sp] := Load(mem, l);
      sp := sp + 1;
    }

    method OpBinDword(bop: BinOp, ghost st: VmState)
      requires Holds(st) && sp >= 2 && Alu(bop, st.stack[sp - 2], st.stack[sp - 1]).Some?
      modifies this`sp, stack
      ensures Holds(VmState(st.stack[..|st.stack| - 2]
          + [Alu(bop, st.stack[|st.stack| - 2], st.stack[|st.stack| - 1]).value], st.mem))
    {
      hide Alu;
      stack[sp - 2] := Alu(bop, stack[sp - 2], stack[sp - 1]).value;
      sp := sp - 1;
    }

    method OpBwDword(ghost st: VmState)
      requires Holds(st) && sp >= 1
      modifies stack
      ensures Holds(VmState(st.stack[..|st.stack| - 1] + [Complement(st.stack[|st.stack| - 1])], st.mem))
    {
      stack[sp - 1] := Complement(stack[sp - 1]);
    }

    method OpLdValueDwordStack(ghost st: VmState)
      requires Holds(st) && sp >= 1
      modifies stack
      ensures Holds(VmState(st.stack[..|st.stack| - 1] + [Load(st.mem, st.stack[|st.stack| - 1])], st.mem))
    {
      var l := stack[sp - 1];
      stack[sp - 1] := Load(mem, l);
    }

    method OpStDword(ghost st: VmState)
      requires Holds(st) && sp >= 2
      modifies this`sp, this`mem
      ensures Holds(VmState(st.stack[..|st.stack| - 1],
          Store(st.mem, st.stack[|st.stack| - 2], st.stack[|st.stack| - 1])))
    {
      mem := Store(mem, stack[sp - 2], stack[sp - 1]);
      sp := sp - 1;
    }

    method OpPop(ghost st: VmState)
      requires Holds(st) && sp >= 1
      modifies this`sp
      ensures Holds(VmState(st.stack[..|st.stack| - 1], st.mem))
    {
      sp := sp - 1;
    }

    /** The loop of OP_call: the last parameter comes off the stack first. */
    method PopParameters(parameters: nat, ghost s: seq<Cell>) returns (parameterv: array<Cell>)
      requires parameters <= 16 && sp == |s| <= stack.Length && parameters < sp && stack[..sp] == s
      modifies this`sp
      ensures fresh(parameterv) && parameterv.Length == 16 && parameterv[..parameters] == s[|s| - parameters..]
      ensures sp == |s| - parameters - 1
    {
      parameterv := new Cell[16](_ => 0);
      var i := 0;
      sp := sp - 1;
      while i < parameters
        invariant i <= parameters && sp + 1 + i == |s|
        invariant forall j :: parameters - i <= j < parameters ==> parameterv[j] == s[|s| - parameters + j]
      {
        parameterv[parameters - 1 - i] := stack[sp];
        sp := sp - 1;
        i := i + 1;
      }
    }

    /** OP_call: parameters, then the function; the result goes where the function was. */
    method OpCall(ghost st: VmState, sys: System)
      requires Holds(st) && pc < text.Length && DoCall(text[pc], st, sys).Some?
      modifies this`sp, this`pc, this`mem, stack
      ensures pc == old(pc) + 1 && Holds(DoCall(text[old(pc)], st, sys).value)
    {
      var parameters := text[pc];
      pc := pc + 1;
      var parameterv := PopParameters(parameters, st.stack);
      var f := stack[sp];
      var given := if parameters == 0 then [0] else parameterv[..parameters];
      assert given == Passed(st.stack[|st.stack| - parameters..]);
      var result := sys(f, given, mem);
      mem := result.1;
      stack[sp] := result.0;
      sp := sp + 1;
    }

    /** One turn of the fetch loop: the opcode's function through op_table. */
    method Dispatch(ghost st: VmState, sys: System)
      requires Holds(st) && pc < text.Length && pc + 1 + Operands(text[pc]) <= text.Length
      requires Do(text[pc], text[pc + 1..pc + 1 + Operands(text[pc])], st, sys).Some?
      modifies this`sp, this`pc, this`mem, stack
      ensures pc == old(pc) + 1 + Operands(text[old(pc)])
      ensures Holds(Do(text[old(pc)], text[old(pc) + 1..old(pc) + 1 + Operands(text[old(pc)])], st, sys).value)
      ensures text[old(pc)] == 0 ==> stack[..] == old(stack[..])
    {
      hide Holds, Alu, Load, Store, Get32, DoCall, Complement;
      Height(st);
      var op := text[pc];
      pc := pc + 1;
      if op == OP_LD {
        OpLdDword(st);
      } else if op == OP_LD_VALUE {
        OpLdValueDword(st);
      } else if op == OP_SYSCALL {
        OpCall(st, sys);
      } else if op == OP_POP {
        OpPop(st);
      } else if op == OP_LD_STACK {
        OpLdValueDwordStack(st);
      } else if op == OP_BITWISE {
        OpBwDword(st);
      } else if op == OP_ST {
        OpStDword(st);
      } else if op != 0 {
        OpBinDword(Decode(op).value, st);
      }
    }

    lemma Height(st: VmState)
      requires Holds(st)
      ensures sp == |st.stack| <= STACK_MAX
    {
    }

    /** finsh_vm_run: from the start of the text to its end. */
    method VmRun(sys: System)
      requires stack.Length == STACK_MAX && text.Length == TEXT_MAX
      requires Exec(text[..], VmState([], mem), sys).Some?
      modifies this, stack
      ensures Holds(Exec(text[..], VmState([], old(mem)), sys).value)
      ensures (forall i :: 0 <= i < TEXT_MAX ==> text[i] == 0) ==> stack[..] == old(stack[..])
    {
      hide Do, Exec;
      ghost var m, s := mem, text[..];
      sp := 0;
      pc := 0;
      ghost var st := VmState([], mem);
      assert s[0..] == s;
      while pc < TEXT_MAX
        invariant pc <= TEXT_MAX && Holds(st)
        invariant Exec(s[pc..], st, sys) == Exec(s, VmState([], m), sys)
        invariant (forall i :: 0 <= i < TEXT_MAX ==> text[i] == 0) ==> stack[..] == old(stack[..])
      {
        ghost var n := Operands(s[pc]);
        ExecAt(s, pc, st, sys);
        ghost var next := Do(s[pc], s[pc + 1..pc + 1 + n], st, sys).value;
        Dispatch(st, sys);
        st := next;
      }
      RanThrough(s, st, sys);
    }

    lemma RanThrough(s: seq<Byte>, st: VmState, sys: System)
      ensures Exec(s[|s|..], st, sys) == Some(st)
    {
    }

    /** finsh_stack_bottom */
    method StackBottom() returns (v: Cell)
      requires stack.Length == STACK_MAX
      ensures v == stack[0]
    {
      v := stack[0];
    }
  }

  /**
   One line of shell input, from the parsed statements to the printed value: compile, run, read the
   bottom of the stack. The value and the memory are those of the statements' meaning; a line without
   statements gives 0.
   */
  method RunLine(compiler: Compiler, machine: Machine, root: int, ghost f: Forest, ghost p: seq<Expr>, sys: System)
    returns (value: Cell)
    requires compiler.text == machine.text && compiler.stack == machine.stack
    requires machine.text.Length == TEXT_MAX && machine.stack.Length == STACK_MAX
    requires root == Root(f) && Linked(compiler.table[..], f) && Untouched(compiler.table[..], f)
    requires View(compiler.table[..], f) == TreeOfProgram(p)
    requires TypedProgram(p) && |ProgramCode(TreeOfProgram(p))| <= TEXT_MAX
    requires p != [] ==> EvalProgram(p, machine.mem, sys).Some?
    modifies compiler, compiler.table, compiler.text, compiler.stack, machine
    ensures p != [] ==> (value, machine.mem) == EvalProgram(p, old(machine.mem), sys).value
    ensures p == [] ==> value == 0 && machine.mem == old(machine.mem)
  {
    hide Exec, EvalProgram, TypedProgram, Code;
    ghost var m := machine.mem;
    compiler.CompilerRun(root, f);
    if p == [] {
      ghost var zeros := seq(TEXT_MAX, _ => 0 as Byte);
      assert Text(ProgramCode(TreeOfProgram(p))) == zeros;
      assert forall i :: 0 <= i < TEXT_MAX ==> machine.text[..][i] == zeros[i];
      ExecNoops(TEXT_MAX, VmState([], m), sys);
    } else {
      CompilerCorrect(p, m, sys);
    }
    machine.VmRun(sys);
    value := machine.StackBottom();
  }
}
