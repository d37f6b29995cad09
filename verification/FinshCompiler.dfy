/**
 finsh_compiler.c on its own data: nodes in the global node table, linked by first child and
 next sibling; a type check that writes the nodes' type and address flag in place; and a
 compiler that writes bytes through a global pc into the text segment.
 */
module FinshCompiler {
  import opened Widths
  import opened Bits
  import opened FinshLang
  import opened FinshVm
  import opened FinshCorrect

  /** struct finsh_node: kind stands for node_type, id and value, address for the ADDRESS bit of idtype. */
  datatype FinshNode = FinshNode(kind: Kind, dataType: nat, address: bool, child: int, sibling: int)

  const NULL: int := -1

  // ---------- linked nodes and the tree they represent ----------

  /** The shape of a linked structure: which table entry sits where. */
  datatype Forest = Empty | Has(node: nat, child: Forest, sibling: Forest)

  ghost function Root(f: Forest): int { if f.Empty? then NULL else f.node }

  ghost function Footprint(f: Forest): set<nat> {
    if f.Empty? then {} else {f.node} + Footprint(f.child) + Footprint(f.sibling)
  }

  /** The entries are linked as the shape says and none occurs twice. */
  ghost predicate Linked(t: seq<FinshNode>, f: Forest) {
    f.Has? ==>
      && f.node < |t|
      && f.node !in Footprint(f.child) && f.node !in Footprint(f.sibling)
      && Footprint(f.child) !! Footprint(f.sibling)
      && t[f.node].child == Root(f.child) && t[f.node].sibling == Root(f.sibling)
      && Linked(t, f.child) && Linked(t, f.sibling)
  }

  ghost function View(t: seq<FinshNode>, f: Forest): Tree
    requires Linked(t, f)
  {
    if f.Empty? then Nil else Node(t[f.node].kind, View(t, f.child), View(t, f.sibling))
  }

  /** Nodes as finsh_node_allocate leaves them. */
  ghost predicate Untouched(t: seq<FinshNode>, f: Forest) {
    forall n :: n in Footprint(f) && n < |t| ==> t[n].dataType == VOID && !t[n].address
  }

  predicate IsSysCall(kind: Kind) { kind.KId? && kind.id.SysCall? }

  /** What finsh_type_check(node, isAddr) leaves in every node. */
  ghost predicate Checked(t: seq<FinshNode>, f: Forest, isAddr: bool)
    requires Linked(t, f)
  {
    f.Has? ==>
      && t[f.node].dataType == DataType(View(t, f))
      && t[f.node].address == (isAddr && !IsSysCall(t[f.node].kind))
      && Checked(t, f.child, ChildIsAddress(t[f.node].kind, isAddr))
      && Checked(t, f.sibling, false)
  }

  ghost predicate SameLinks(t: seq<FinshNode>, t': seq<FinshNode>) {
    |t| == |t'| && forall n :: 0 <= n < |t| ==>
      t[n].kind == t'[n].kind && t[n].child == t'[n].child && t[n].sibling == t'[n].sibling
  }

  lemma {:induction false} LinksKept(t: seq<FinshNode>, t': seq<FinshNode>, f: Forest)
    requires Linked(t, f) && SameLinks(t, t')
    ensures Linked(t', f) && View(t', f) == View(t, f)
  {
    if f.Has? {
      LinksKept(t, t', f.child);
      LinksKept(t, t', f.sibling);
    }
  }

  lemma {:induction false} CheckedKept(t: seq<FinshNode>, t': seq<FinshNode>, f: Forest, isAddr: bool)
    requires Linked(t, f) && Checked(t, f, isAddr) && SameLinks(t, t')
    requires forall n :: n in Footprint(f) && n < |t| ==> t'[n] == t[n]
    ensures Linked(t', f) && Checked(t', f, isAddr)
  {
    LinksKept(t, t', f);
    if f.Has? {
      CheckedKept(t, t', f.child, ChildIsAddress(t[f.node].kind, isAddr));
      CheckedKept(t, t', f.sibling, false);
    }
  }

  /** A change outside the footprint changes nothing. */
  lemma {:induction false} ElsewhereKept(t: seq<FinshNode>, t': seq<FinshNode>, f: Forest, isAddr: bool)
    requires Linked(t, f) && Checked(t, f, isAddr) && |t'| == |t|
    requires forall n :: n in Footprint(f) && n < |t| ==> t'[n] == t[n]
    ensures Linked(t', f) && View(t', f) == View(t, f) && Checked(t', f, isAddr)
  {
    if f.Has? {
      ElsewhereKept(t, t', f.child, ChildIsAddress(t[f.node].kind, isAddr));
      ElsewhereKept(t, t', f.sibling, false);
    }
  }

  /** A checked structure that represents the given tree. */
  ghost predicate Ready(t: seq<FinshNode>, f: Forest, isAddr: bool, tree: Tree) {
    Linked(t, f) && Checked(t, f, isAddr) && View(t, f) == tree
  }

  /** A node's links, and what holds of its child and its sibling. */
  lemma ReadyParts(t: seq<FinshNode>, f: Forest, isAddr: bool, tree: Tree)
    requires f.Has? && Ready(t, f, isAddr, tree)
    ensures f.node < |t| && tree.Node? && t[f.node].kind == tree.kind
    ensures t[f.node].child == Root(f.child) && t[f.node].sibling == Root(f.sibling)
    ensures Ready(t, f.child, ChildIsAddress(tree.kind, isAddr), tree.child) && Ready(t, f.sibling, false, tree.sibling)
  {
  }

  lemma ReadyEmpty(t: seq<FinshNode>, f: Forest, isAddr: bool, tree: Tree)
    requires Ready(t, f, isAddr, tree)
    ensures f.Empty? <==> tree == Nil
  {
  }

  /** What the compiler reads of a checked node and of its first child. */
  lemma ReadyAttributes(t: seq<FinshNode>, f: Forest, isAddr: bool, tree: Tree)
    requires f.Has? && Ready(t, f, isAddr, tree)
    ensures f.node < |t| && tree.Node?
    ensures t[f.node].dataType == DataType(Node(tree.kind, tree.child, Nil))
    ensures t[f.node].address == (isAddr && !IsSysCall(tree.kind))
  {
  }

  /** Taken off the list, the statement stands alone, and the rest is as before. */
  lemma Detached(t: seq<FinshNode>, t': seq<FinshNode>, f: Forest, tree: Tree)
    requires f.Has? && Ready(t, f, false, tree) && tree.Node?
    requires f.node < |t| && t' == t[f.node := t[f.node].(sibling := NULL)]
    ensures Ready(t', f.sibling, false, tree.sibling)
    ensures Ready(t', Has(f.node, f.child, Empty), false, Node(tree.kind, tree.child, Nil))
  {
    ElsewhereKept(t, t', f.child, ChildIsAddress(t[f.node].kind, false));
    ElsewhereKept(t, t', f.sibling, false);
    assert DataType(tree) == DataType(Node(tree.kind, tree.child, Nil));
  }

  // ---------- finsh_compiler.c ----------

  class Compiler {
    const table: array<FinshNode>
    const text: array<Byte>
    const stack: array<Cell>
    var pc: nat

    constructor (table: array<FinshNode>, text: array<Byte>, stack: array<Cell>)
      ensures this.table == table && this.text == text && this.stack == stack && pc == 0
    {
      this.table, this.text, this.stack, pc := table, text, stack, 0;
    }

    method TypeCheck(node: int, isAddr: bool, ghost f: Forest)
      requires node == Root(f) && Linked(table[..], f) && Untouched(table[..], f)
      modifies table
      ensures SameLinks(old(table[..]), table[..])
      ensures forall n :: 0 <= n < table.Length && n !in Footprint(f) ==> table[n] == old(table[n])
      ensures Linked(table[..], f) && Checked(table[..], f, isAddr)
      decreases f
    {
      if node != NULL {
        ghost var t0 := table[..];
        var kind := table[node].kind;
        if kind.KAssign? || kind.KPreStep? || kind.KGetAddr? {
          TypeCheck(table[node].child, true, f.child);
        } else if kind.KGetValue? && isAddr {
          TypeCheck(table[node].child, false, f.child);
        } else {
          TypeCheck(table[node].child, isAddr, f.child);
        }
        ghost var t1 := table[..];
        LinksKept(t0, t1, f);
        TypeCheck(table[node].sibling, false, f.sibling);
        ghost var t2 := table[..];
        LinksKept(t1, t2, f);
        CheckedKept(t1, t2, f.child, ChildIsAddress(kind, isAddr));
        SetAttributes(node, isAddr, f);
      }
    }

    /** The node's own flag and type, its child's being known. */
    method SetAttributes(node: nat, isAddr: bool, ghost f: Forest)
      requires f.Has? && node == f.node && Linked(table[..], f)
      requires !table[node].address && table[node].dataType == VOID
      requires Checked(table[..], f.child, ChildIsAddress(table[node].kind, isAddr))
          && Checked(table[..], f.sibling, false)
      modifies table
      ensures SameLinks(old(table[..]), table[..])
      ensures forall n :: 0 <= n < table.Length && n != node ==> table[n] == old(table[n])
      ensures Linked(table[..], f) && Checked(table[..], f, isAddr)
    {
      ghost var t0 := table[..];
      var kind, child := table[node].kind, table[node].child;
      if !(IsSysCall(kind) && !table[node].address) {
        table[node] := table[node].(address := table[node].address || isAddr);
      }
      if child != NULL {
        assert child == f.child.node;
        table[node] := table[node].(dataType := table[child].dataType);
      } else if kind.KId? {
        table[node] := table[node].(dataType := IdentType(kind.id));
      } else if kind.KValue? {
        table[node] := table[node].(dataType := DWORD);
      }
      LinksKept(t0, table[..], f);
      CheckedKept(t0, table[..], f.child, ChildIsAddress(kind, isAddr));
      CheckedKept(t0, table[..], f.sibling, false);
    }

    // ---------- code ----------

    /** The text holds t0 with `out` written from pc0 on, up to the pc. */
    ghost predicate Wrote(t0: seq<Byte>, pc0: nat, out: seq<Byte>)
      reads this, text
    {
      && |t0| == text.Length && pc == pc0 + |out| && pc <= |t0|
      && text[..] == t0[..pc0] + out + t0[pc..]
    }

    method CodeByte(x: Byte, ghost t0: seq<Byte>, ghost pc0: nat, ghost out: seq<Byte>)
      requires Wrote(t0, pc0, out) && pc < |t0|
      modifies this`pc, text
      ensures Wrote(t0, pc0, out + [x]) && pc == old(pc) + 1
    {
      text[pc] := x;
      pc := pc + 1;
      assert t0[pc - 1..] == [t0[pc - 1]] + t0[pc..];
    }

    /** FINSH_SET32 */
    method CodeDword(v: Cell, ghost t0: seq<Byte>, ghost pc0: nat, ghost out: seq<Byte>)
      requires Wrote(t0, pc0, out) && pc + 4 <= |t0|
      modifies this`pc, text
      ensures Wrote(t0, pc0, out + Dword(v)) && pc == old(pc) + 4
    {
      hide Wrote;
      CodeByte(ByteOf(v, 0), t0, pc0, out);
      CodeByte(ByteOf(v, 1), t0, pc0, out + [ByteOf(v, 0)]);
      CodeByte(ByteOf(v, 2), t0, pc0, out + [ByteOf(v, 0)] + [ByteOf(v, 1)]);
      CodeByte(ByteOf(v, 3), t0, pc0, out + [ByteOf(v, 0)] + [ByteOf(v, 1)] + [ByteOf(v, 2)]);
      assert out + [ByteOf(v, 0)] + [ByteOf(v, 1)] + [ByteOf(v, 2)] + [ByteOf(v, 3)] == out + Dword(v);
    }

    /** The syscall's parameter count: the siblings of the function node. */
    method CountParameters(first: int, ghost g0: Forest, ghost tree: Tree) returns (parameters: nat)
      requires first == Root(g0) && Ready(table[..], g0, false, tree)
      ensures parameters == Siblings(tree)
    {
      parameters := 0;
      var sibling := first;
      ghost var g, u := g0, tree;
      while sibling != NULL
        invariant sibling == Root(g) && Ready(table[..], g, false, u)
        invariant parameters + Siblings(u) == Siblings(tree)
        decreases g
      {
        parameters := parameters + 1;
        sibling := table[sibling].sibling;
        g, u := g.sibling, u.sibling;
      }
    }

    method EmitIdent(id: Ident, address: bool, ghost isAddr: bool, ghost t0: seq<Byte>, ghost pc0: nat,
          ghost out: seq<Byte>)
      requires address == (isAddr && !id.SysCall?)
      requires Wrote(t0, pc0, out) && pc + |Emit(KId(id), isAddr, Nil)| <= |t0|
      modifies this`pc, text
      ensures Wrote(t0, pc0, out + Emit(KId(id), isAddr, Nil))
    {
      hide Dword, Wrote;
      assert out + [] == out;
      if id.Silent? {
        return;
      }
      var op := if id.SysCall? || address then OP_LD else OP_LD_VALUE;
      CodeByte(op, t0, pc0, out);
      CodeDword(AddressOf(id), t0, pc0, out + [op]);
      assert out + [op] + Dword(AddressOf(id)) == out + ([op] + Dword(AddressOf(id)));
    }

    /** ld_dword (or ld_value) v, written as one opcode and its operand. */
    method CodeLoad(op: Byte, v: Cell, ghost t0: seq<Byte>, ghost pc0: nat, ghost out: seq<Byte>)
      requires Wrote(t0, pc0, out) && pc + 5 <= |t0|
      modifies this`pc, text
      ensures Wrote(t0, pc0, out + ([op] + Dword(v))) && pc == old(pc) + 5
    {
      hide Dword, Wrote;
      CodeByte(op, t0, pc0, out);
      CodeDword(v, t0, pc0, out + [op]);
      assert out + [op] + Dword(v) == out + ([op] + Dword(v));
    }

    method CodeThree(a: Byte, b: Byte, c: Byte, ghost t0: seq<Byte>, ghost pc0: nat, ghost out: seq<Byte>)
      requires Wrote(t0, pc0, out) && pc + 3 <= |t0|
      modifies this`pc, text
      ensures Wrote(t0, pc0, out + [a, b, c])
    {
      hide Wrote;
      CodeByte(a, t0, pc0, out);
      CodeByte(b, t0, pc0, out + [a]);
      CodeByte(c, t0, pc0, out + [a] + [b]);
      assert out + [a] + [b] + [c] == out + [a, b, c];
    }

    /** ++x and --x: value, one, sum, store, and the value again. */
    method EmitPreStep(down: bool, id: Ident, ghost t0: seq<Byte>, ghost pc0: nat, ghost out: seq<Byte>)
      requires Wrote(t0, pc0, out) && pc + 13 <= |t0|
      modifies this`pc, text
      ensures Wrote(t0, pc0, out + ([OP_LD_VALUE] + Dword(StepAddress(id)) + [OP_LD] + Dword(1)
                                    + [Opcode(if down then Sub else Add), OP_ST, OP_LD_STACK]))
    {
      hide Dword, Wrote, Opcode;
      var op := Opcode(if down then Sub else Add);
      ghost var a, b := [OP_LD_VALUE] + Dword(StepAddress(id)), [OP_LD] + Dword(1);
      CodeLoad(OP_LD_VALUE, StepAddress(id), t0, pc0, out);
      CodeLoad(OP_LD, 1, t0, pc0, out + a);
      CodeThree(op, OP_ST, OP_LD_STACK, t0, pc0, out + a + b);
      assert out + a + b + [op, OP_ST, OP_LD_STACK]
          == out + ([OP_LD_VALUE] + Dword(StepAddress(id)) + [OP_LD] + Dword(1) + [op, OP_ST, OP_LD_STACK]);
    }

    /** x++ and x--: address, value, one, sum, store, and away with the address. */
    method EmitPostStep(down: bool, id: Ident, ghost t0: seq<Byte>, ghost pc0: nat, ghost out: seq<Byte>)
      requires Wrote(t0, pc0, out) && pc + 18 <= |t0|
      modifies this`pc, text
      ensures Wrote(t0, pc0, out + ([OP_LD] + Dword(StepAddress(id)) + [OP_LD_VALUE] + Dword(StepAddress(id))
                                    + [OP_LD] + Dword(1) + [Opcode(if down then Sub else Add), OP_ST, OP_POP]))
    {
      hide Dword, Wrote, Opcode;
      var op, d := Opcode(if down then Sub else Add), StepAddress(id);
      ghost var a, b, c := [OP_LD] + Dword(d), [OP_LD_VALUE] + Dword(d), [OP_LD] + Dword(1);
      CodeLoad(OP_LD, d, t0, pc0, out);
      CodeLoad(OP_LD_VALUE, d, t0, pc0, out + a);
      CodeLoad(OP_LD, 1, t0, pc0, out + a + b);
      CodeThree(op, OP_ST, OP_POP, t0, pc0, out + a + b + c);
      assert out + a + b + c + [op, OP_ST, OP_POP]
          == out + ([OP_LD] + Dword(d) + [OP_LD_VALUE] + Dword(d) + [OP_LD] + Dword(1) + [op, OP_ST, OP_POP]);
    }

    /** The switch of finsh_compile on the current node. */
    method EmitNode(node: nat, ghost f: Forest, ghost isAddr: bool, ghost tree: Tree,
                    ghost t0: seq<Byte>, ghost pc0: nat, ghost out: seq<Byte>)
      requires f.Has? && node == f.node && Ready(table[..], f, isAddr, tree)
      requires Wrote(t0, pc0, out) && tree.Node? && pc + |Emit(tree.kind, isAddr, tree.child)| <= |t0|
      modifies this`pc, text
      ensures Wrote(t0, pc0, out + Emit(tree.kind, isAddr, tree.child))
    {
      hide Wrote, Dword, Opcode, Ready, DataType;
      ReadyParts(table[..], f, isAddr, tree);
      ReadyAttributes(table[..], f, isAddr, tree);
      ReadyEmpty(table[..], f.child, ChildIsAddress(tree.kind, isAddr), tree.child);
      if f.child.Has? {
        ReadyParts(table[..], f.child, ChildIsAddress(tree.kind, isAddr), tree.child);
      }
      assert out + [] == out;
      var n := table[node];
      match n.kind
      case KId(id) =>
        EmitIdent(id, n.address, isAddr, t0, pc0, out);
      case KValue(w) =>
        CodeLoad(OP_LD, w, t0, pc0, out);
      case KBinary(op) =>
        if n.dataType == DWORD {
          CodeByte(Opcode(op), t0, pc0, out);
        }
      case KBitwise =>
        if n.dataType == DWORD {
          CodeByte(OP_BITWISE, t0, pc0, out);
        }
      case KFunc =>
        if n.child != NULL {
          var parameters := CountParameters(table[n.child].sibling, f.child.sibling, tree.child.sibling);
          CodeByte(OP_SYSCALL, t0, pc0, out);
          CodeByte(parameters % 0x100, t0, pc0, out + [OP_SYSCALL]);
          assert out + [OP_SYSCALL] + [parameters % 0x100] == out + [OP_SYSCALL, parameters % 0x100];
        }
      case KAssign =>
        if n.child != NULL && (table[n.child].kind.KId? || table[n.child].kind.KGetValue?) {
          ReadyAttributes(table[..], f.child, true, tree.child);
          TypeAlone(tree.child);
          if table[n.child].dataType == DWORD {
            CodeByte(OP_ST, t0, pc0, out);
            CodeByte(OP_LD_STACK, t0, pc0, out + [OP_ST]);
            assert out + [OP_ST] + [OP_LD_STACK] == out + [OP_ST, OP_LD_STACK];
          }
        }
      case KPreStep(down) =>
        if n.child != NULL && table[n.child].kind.KId? && n.dataType == DWORD {
          EmitPreStep(down, table[n.child].kind.id, t0, pc0, out);
        }
      case KStep(down) =>
        if n.child != NULL && table[n.child].kind.KId? && n.dataType == DWORD {
          EmitPostStep(down, table[n.child].kind.id, t0, pc0, out);
        }
      case KGetValue =>
        if !n.address && n.dataType == DWORD {
          CodeByte(OP_LD_STACK, t0, pc0, out);
        }
      case KGetAddr =>
    }

    /** finsh_compile: children, node, siblings. */
    method Compile(node: int, ghost f: Forest, ghost isAddr: bool, ghost tree: Tree,
                   ghost t0: seq<Byte>, ghost pc0: nat, ghost out: seq<Byte>)
      requires node == Root(f) && Ready(table[..], f, isAddr, tree)
      requires Wrote(t0, pc0, out) && |out| + pc0 + |Code(tree, isAddr)| <= |t0|
      modifies this`pc, text
      ensures Wrote(t0, pc0, out + Code(tree, isAddr))
      decreases f
    {
      hide Emit, Wrote, Ready;
      assert out + [] == out;
      ReadyEmpty(table[..], f, isAddr, tree);
      if node != NULL {
        ReadyParts(table[..], f, isAddr, tree);
        ghost var kind, child := tree.kind, tree.child;
        ghost var c1, c2, c3 := Code(child, ChildIsAddress(kind, isAddr)), Emit(kind, isAddr, child),
          Code(tree.sibling, false);
        assert Code(tree, isAddr) == c1 + c2 + c3;
        hide Code;
        NoCode(child, ChildIsAddress(kind, isAddr));
        NoCode(tree.sibling, false);
        ReadyEmpty(table[..], f.child, ChildIsAddress(kind, isAddr), child);
        ReadyEmpty(table[..], f.sibling, false, tree.sibling);
        if table[node].child != NULL {
          Compile(table[node].child, f.child, ChildIsAddress(kind, isAddr), child, t0, pc0, out);
        }
        WroteLength(t0, pc0, out + c1);
        EmitNode(node, f, isAddr, tree, t0, pc0, out + c1);
        if table[node].sibling != NULL {
          Compile(table[node].sibling, f.sibling, false, tree.sibling, t0, pc0, out + c1 + c2);
        } else {
          assert out + c1 + c2 + [] == out + c1 + c2;
        }
        assert out + c1 + c2 + c3 == out + (c1 + c2 + c3);
      }
    }

    static lemma NoCode(t: Tree, isAddr: bool)
      ensures t == Nil ==> Code(t, isAddr) == []
    {
    }

    /** The siblings of a node have no part in its type. */
    static lemma TypeAlone(t: Tree)
      requires t.Node?
      ensures DataType(t) == DataType(Node(t.kind, t.child, Nil))
    {
    }

    lemma WroteLength(t0: seq<Byte>, pc0: nat, out: seq<Byte>)
      requires Wrote(t0, pc0, out)
      ensures pc == pc0 + |out| && |t0| == text.Length
    {
    }

    /** The whole text segment becomes no-ops. */
    method ClearText()
      modifies text
      ensures text[..] == seq(text.Length, _ => 0 as Byte)
    {
      for i := 0 to text.Length
        invariant forall j :: 0 <= j < i ==> text[j] == 0
      {
        text[i] := 0;
      }
    }

    /** One statement: take it off the list, compile it, and pop its value unless it is the last. */
    method CompileStatement(current: nat, ghost g: Forest, ghost tree: Tree, ghost t0: seq<Byte>, ghost out: seq<Byte>)
      returns (sibling: int, ghost out': seq<Byte>)
      requires g.Has? && current == g.node && Ready(table[..], g, false, tree)
      requires Wrote(t0, 0, out) && |out| + |ProgramCode(tree)| <= |t0|
      modifies table, text, this`pc
      ensures tree.Node? && sibling == Root(g.sibling) && Ready(table[..], g.sibling, false, tree.sibling)
      ensures Wrote(t0, 0, out')
      ensures out' + ProgramCode(tree.sibling) == out + ProgramCode(tree)
    {
      hide Code, Wrote, Ready;
      ReadyParts(table[..], g, false, tree);
      ReadyEmpty(table[..], g.sibling, false, tree.sibling);
      ghost var t, alone := table[..], Node(tree.kind, tree.child, Nil);
      ghost var code := Code(alone, false);
      assert ProgramCode(tree) == code + (if tree.sibling == Nil then [] else [OP_POP] + ProgramCode(tree.sibling));
      assert tree.sibling == Nil ==> ProgramCode(tree.sibling) == [];
      hide ProgramCode;
      sibling := table[current].sibling;
      table[current] := table[current].(sibling := NULL);
      Detached(t, table[..], g, tree);
      WroteLength(t0, 0, out);
      Compile(current, Has(g.node, g.child, Empty), false, alone, t0, 0, out);
      out' := out + code;
      WroteLength(t0, 0, out');
      if sibling != NULL {
        CodeByte(OP_POP, t0, 0, out');
        out' := out' + [OP_POP];
        assert out + (code + ([OP_POP] + ProgramCode(tree.sibling))) == out + code + [OP_POP]
            + ProgramCode(tree.sibling);
      } else {
        assert out + (code + []) == out + code + [];
      }
    }

    /** finsh_compiler_run: check all statements, then compile them one by one, a pop between two. */
    method CompilerRun(root: int, ghost f: Forest)
      requires root == Root(f) && Linked(table[..], f) && Untouched(table[..], f)
      requires text.Length == TEXT_MAX && |ProgramCode(View(table[..], f))| <= TEXT_MAX && stack.Length == STACK_MAX
      modifies table, text, stack, this`pc
      ensures text[..] == Text(old(ProgramCode(View(table[..], f))))
      ensures stack[0] == 0
    {
      hide ProgramCode, Code;
      ghost var tree := View(table[..], f);
      ghost var program := ProgramCode(tree);
      TypeCheck(root, false, f);
      LinksKept(old(table[..]), table[..], f);
      ClearText();
      stack[0] := 0;
      pc := 0;
      ghost var t0, out, g, u := text[..], [], f, tree;
      assert t0[..0] + out + t0[0..] == t0;
      assert out + program == program;
      var sibling := root;
      hide Ready;
      while sibling != NULL
        invariant sibling == Root(g) && Ready(table[..], g, false, u)
        invariant Wrote(t0, 0, out) && out + ProgramCode(u) == program && stack[0] == 0
        decreases g
      {
        sibling, out := CompileStatement(sibling, g, u, t0, out);
        g, u := g.sibling, u.sibling;
      }
      ReadyEmpty(table[..], g, false, u);
      EmptyProgram();
      assert out == program;
      assert t0[|out|..] == seq(TEXT_MAX - |out|, _ => 0 as Byte);
    }

    static lemma EmptyProgram()
      ensures ProgramCode(Nil) == []
    {
    }
  }
}
