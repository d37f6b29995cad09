/**
 The finsh shell language: expressions, the child/sibling tree the parser builds for them,
 their meaning, and the bytecode that finsh_type_check and finsh_compile produce for a tree.
 Leaves are the 32-bit (DWORD) types.
 */
module FinshLang {
  import opened Widths
  import opened Bits

  const MOD32: nat := 0x1_0000_0000
  type Cell = U32

  datatype Option<T> = None | Some(value: T)

  // ---------- memory ----------

  /** Byte-addressed memory, apart from the virtual machine's own stack and text. */
  type Memory = Cell -> Byte

  function At(a: Cell, i: nat): Cell { (a + i) % MOD32 }

  function FromBytes(b0: Byte, b1: Byte, b2: Byte, b3: Byte): Cell {
    b0 + 0x100 * b1 + 0x1_0000 * b2 + 0x100_0000 * b3
  }

  /** Byte i of a long, least significant first. */
  function ByteOf(v: Cell, i: nat): Byte {
    if i == 0 then v % 0x100 else if i == 1 then v / 0x100 % 0x100
    else if i == 2 then v / 0x1_0000 % 0x100 else v / 0x100_0000 % 0x100
  }

  /** The long at an address, least significant byte first. */
  function Load(m: Memory, a: Cell): Cell {
    FromBytes(m(At(a, 0)), m(At(a, 1)), m(At(a, 2)), m(At(a, 3)))
  }

  /** A long stored at an address. */
  function Store(m: Memory, a: Cell, v: Cell): Memory {
    (x: Cell) =>
      if x == At(a, 0) then ByteOf(v, 0) else if x == At(a, 1) then ByteOf(v, 1)
      else if x == At(a, 2) then ByteOf(v, 2) else if x == At(a, 3) then ByteOf(v, 3)
      else m(x)
  }

  lemma BytesOf(v: Cell)
    ensures FromBytes(ByteOf(v, 0), ByteOf(v, 1), ByteOf(v, 2), ByteOf(v, 3)) == v
  {
    var q1 := v / 0x100;
    var q2 := q1 / 0x100;
    var q3 := q2 / 0x100;
    assert v / 0x1_0000 == q2 && v / 0x100_0000 == q3;
    assert v == v % 0x100 + 0x100 * q1 && q1 == q1 % 0x100 + 0x100 * q2 && q2 == q2 % 0x100 + 0x100 * q3;
  }

  lemma LoadStore(m: Memory, a: Cell, v: Cell)
    ensures Load(Store(m, a, v), a) == v
  {
    BytesOf(v);
    hide ByteOf, FromBytes;
    assert At(a, 0) != At(a, 1) && At(a, 0) != At(a, 2) && At(a, 0) != At(a, 3);
    assert At(a, 1) != At(a, 2) && At(a, 1) != At(a, 3) && At(a, 2) != At(a, 3);
  }

  // ---------- operators on long values ----------

  datatype BinOp = Add | Sub | Mul | Div | Mod | And | Or | Xor | Shl | Shr

  function Signed(a: Cell): int { if a < 0x8000_0000 then a else a - MOD32 }

  function Wrap(x: int): Cell { x % MOD32 }

  function Abs(x: int): nat { if x < 0 then -x else x }

  /** Division rounding toward zero. */
  function Quotient(a: int, b: int): int
    requires b != 0
  {
    var q := Abs(a) / Abs(b);
    if (a < 0) == (b < 0) then q else -q
  }

  /** A bitwise operator on the binary digits. */
  function Bitwise(f: (bool, bool) -> bool, a: Cell, b: Cell): Cell {
    var s := seq(32, i requires 0 <= i < 32 => f(OfNat(a, 32)[i], OfNat(b, 32)[i]));
    ValBound(s);
    Pow2Values();
    Val(s)
  }

  /** The C operators on 32-bit signed values; None where C leaves the result undefined
      (division by zero, the one overflowing quotient, shift counts out of range). */
  function Alu(op: BinOp, a: Cell, b: Cell): Option<Cell> {
    match op
    case Add => Some(Wrap(a + b))
    case Sub => Some(Wrap(a - b))
    case Mul => Some(Wrap(a * b))
    case Div =>
      if b == 0 || (Signed(a) == -0x8000_0000 && Signed(b) == -1) then None
      else Some(Wrap(Quotient(Signed(a), Signed(b))))
    case Mod =>
      if b == 0 || (Signed(a) == -0x8000_0000 && Signed(b) == -1) then None
      else Some(Wrap(Signed(a) - Signed(b) * Quotient(Signed(a), Signed(b))))
    case And => Some(Bitwise((x, y) => x && y, a, b))
    case Or => Some(Bitwise((x, y) => x || y, a, b))
    case Xor => Some(Bitwise((x, y) => x != y, a, b))
    case Shl => if b >= 32 then None else Some(Wrap(a * Pow2(b)))
    case Shr => if b >= 32 then None else Some(Wrap(Signed(a) / Pow2(b)))
  }

  /** ~a */
  function Complement(a: Cell): Cell { 0xffff_ffff - a }

  lemma AddOne(v: Cell)
    ensures Alu(Add, v, 1) == Some(Wrap(v + 1)) && Alu(Sub, v, 1) == Some(Wrap(v - 1))
  {
  }

  // ---------- expressions ----------

  /**
   * What an identifier node's id pointer refers to. A descriptor is the address of the table entry.
   * A silent identifier is a variable of type void * (pointer) or void: finsh_compile has no case for
   * either. Its value is kept at addr; ++ and -- would count at slot.
   */
  datatype Ident =
    | Variable(addr: Cell)
    | SysVariable(addr: Cell, descriptor: Cell)
    | SysCall(func: Cell, descriptor: Cell)
    | Silent(addr: Cell, slot: Cell, pointer: bool)

  datatype LValue = Named(id: Ident) | Pointee(e: Expr)

  datatype Expr =
    | Literal(w: Cell)
    | Name(id: Ident)
    | Binary(op: BinOp, l: Expr, r: Expr)
    | Invert(e: Expr)
    | Call(f: Expr, args: Args)
    | Assign(lv: LValue, e: Expr)
    | PreStep(down: bool, id: Ident)
    | PostStep(down: bool, id: Ident)
    | Deref(e: Expr)
    | AddrOf(lv: LValue)

  datatype Args = NoArgs | Arg(e: Expr, rest: Args)

  function Count(args: Args): nat {
    match args
    case NoArgs => 0
    case Arg(_, rest) => 1 + Count(rest)
  }

  // ---------- the meaning of an expression ----------

  /** What a call does: the function's address, its arguments and the memory give a result and a memory. */
  type System = (Cell, seq<Cell>, Memory) -> (Cell, Memory)

  /** Where an identifier's value is kept; a system call's own address is its value. */
  function AddressOf(id: Ident): Cell {
    match id
    case Variable(a) => a
    case SysVariable(a, _) => a
    case SysCall(f, _) => f
    case Silent(a, _, _) => a
  }

  function ValueOf(id: Ident, m: Memory): Cell {
    if id.SysCall? then id.func else Load(m, AddressOf(id))
  }

  function Stepped(down: bool, v: Cell): Cell { if down then Wrap(v - 1) else Wrap(v + 1) }

  /** Value and memory after an expression; None where an operator is undefined. */
  function Eval(e: Expr, m: Memory, sys: System): Option<(Cell, Memory)> {
    match e
    case Literal(w) => Some((w, m))
    case Name(id) => Some((ValueOf(id, m), m))
    case Binary(op, l, r) =>
      (match Eval(l, m, sys)
       case None => None
       case Some((a, m1)) =>
         match Eval(r, m1, sys)
         case None => None
         case Some((b, m2)) =>
           match Alu(op, a, b)
           case None => None
           case Some(v) => Some((v, m2)))
    case Invert(x) =>
      (match Eval(x, m, sys)
       case None => None
       case Some((a, m1)) => Some((Complement(a), m1)))
    case Call(f, args) =>
      (match Eval(f, m, sys)
       case None => None
       case Some((a, m1)) =>
         match EvalArgs(args, m1, sys)
         case None => None
         case Some((vs, m2)) => Some(sys(a, Passed(vs), m2)))
    case Assign(lv, x) =>
      (match Locate(lv, m, sys)
       case None => None
       case Some((a, m1)) =>
         match Eval(x, m1, sys)
         case None => None
         case Some((v, m2)) => Some((v, Store(m2, a, v))))
    case PreStep(down, id) =>
      var v := Stepped(down, Load(m, AddressOf(id)));
      Some((v, Store(m, AddressOf(id), v)))
    case PostStep(down, id) =>
      var v := Load(m, AddressOf(id));
      Some((v, Store(m, AddressOf(id), Stepped(down, v))))
    case Deref(x) =>
      (match Eval(x, m, sys)
       case None => None
       case Some((a, m1)) => Some((Load(m1, a), m1)))
    case AddrOf(lv) => Locate(lv, m, sys)
  }

  /** The address an lvalue stands for. */
  function Locate(lv: LValue, m: Memory, sys: System): Option<(Cell, Memory)> {
    match lv
    case Named(id) => Some((AddressOf(id), m))
    case Pointee(e) => Eval(e, m, sys)
  }

  function EvalArgs(args: Args, m: Memory, sys: System): Option<(seq<Cell>, Memory)> {
    match args
    case NoArgs => Some(([], m))
    case Arg(e, rest) =>
      match Eval(e, m, sys)
      case None => None
      case Some((v, m1)) =>
        match EvalArgs(rest, m1, sys)
        case None => None
        case Some((vs, m2)) => Some(([v] + vs, m2))
  }

  /** A call without parameters still passes one zero. */
  function Passed(vs: seq<Cell>): seq<Cell> { if vs == [] then [0] else vs }

  // ---------- the tree of nodes ----------

  datatype Kind =
    | KId(id: Ident)
    | KValue(w: Cell)
    | KBinary(op: BinOp)
    | KBitwise
    | KFunc
    | KAssign
    | KPreStep(down: bool)
    | KStep(down: bool)
    | KGetValue
    | KGetAddr

  /** First child and next sibling, as make_sys_node links them. */
  datatype Tree = Nil | Node(kind: Kind, child: Tree, sibling: Tree)

  function TreeOf(e: Expr, sibling: Tree): (t: Tree)
    ensures t.Node? && t.sibling == sibling
  {
    match e
    case Literal(w) => Node(KValue(w), Nil, sibling)
    case Name(id) => Node(KId(id), Nil, sibling)
    case Binary(op, l, r) => Node(KBinary(op), TreeOf(l, TreeOf(r, Nil)), sibling)
    case Invert(x) => Node(KBitwise, TreeOf(x, Nil), sibling)
    case Call(f, args) => Node(KFunc, TreeOf(f, TreeOfArgs(args)), sibling)
    case Assign(lv, x) => Node(KAssign, TreeOfLValue(lv, TreeOf(x, Nil)), sibling)
    case PreStep(down, id) => Node(KPreStep(down), Node(KId(id), Nil, Nil), sibling)
    case PostStep(down, id) => Node(KStep(down), Node(KId(id), Nil, Nil), sibling)
    case Deref(x) => Node(KGetValue, TreeOf(x, Nil), sibling)
    case AddrOf(lv) => Node(KGetAddr, TreeOfLValue(lv, Nil), sibling)
  }

  function TreeOfLValue(lv: LValue, sibling: Tree): (t: Tree)
    ensures t.Node? && t.sibling == sibling
  {
    match lv
    case Named(id) => Node(KId(id), Nil, sibling)
    case Pointee(e) => Node(KGetValue, TreeOf(e, Nil), sibling)
  }

  function TreeOfArgs(args: Args): Tree {
    match args
    case NoArgs => Nil
    case Arg(e, rest) => TreeOf(e, TreeOfArgs(rest))
  }

  /** The list of statements of one line, linked as siblings. */
  function TreeOfProgram(p: seq<Expr>): Tree {
    if p == [] then Nil else TreeOf(p[0], TreeOfProgram(p[1..]))
  }

  // ---------- type check and code ----------

  const VOID: nat := 0
  const DWORD: nat := 3

  /** data_type of an identifier: a void * is as good as a long, a system call and a void variable have none. */
  function IdentType(id: Ident): nat { if id.SysCall? || (id.Silent? && !id.pointer) then VOID else DWORD }

  /** data_type: a leaf's own type, otherwise that of the first child alone. */
  function DataType(t: Tree): nat {
    match t
    case Nil => VOID
    case Node(kind, child, _) =>
      if child != Nil then DataType(child)
      else if kind.KValue? || (kind.KId? && IdentType(kind.id) == DWORD) then DWORD
      else VOID
  }

  /** Whether finsh_type_check hands the ADDRESS flag down to the first child. */
  predicate ChildIsAddress(kind: Kind, isAddr: bool) {
    if kind.KAssign? || kind.KPreStep? || kind.KGetAddr? then true
    else if kind.KGetValue? && isAddr then false
    else isAddr
  }

  /** finsh_code_dword: the bytes of a long, least significant first. */
  function Dword(v: Cell): (s: seq<Byte>)
    ensures |s| == 4
  {
    [ByteOf(v, 0), ByteOf(v, 1), ByteOf(v, 2), ByteOf(v, 3)]
  }

  const OP_BITWISE: Byte := 0x1B
  const OP_LD: Byte := 0x24
  const OP_LD_VALUE: Byte := 0x27
  const OP_ST: Byte := 0x2A
  const OP_POP: Byte := 0x2B
  const OP_SYSCALL: Byte := 0x2C
  const OP_LD_STACK: Byte := 0x2F

  function Opcode(op: BinOp): Byte {
    match op
    case Add => 0x03 case Sub => 0x06 case Div => 0x09 case Mod => 0x0C case Mul => 0x0F
    case And => 0x12 case Or => 0x15 case Xor => 0x18 case Shl => 0x1E case Shr => 0x21
  }

  /** Where ++ and -- expect the value: they take the table entry for a shell variable's, whatever it is. */
  function StepAddress(id: Ident): Cell {
    match id
    case Variable(a) => a
    case SysVariable(_, d) => At(d, 20)
    case SysCall(_, d) => At(d, 20)
    case Silent(_, b, _) => b
  }

  /** Length of a sibling chain. */
  function Siblings(t: Tree): nat {
    match t
    case Nil => 0
    case Node(_, _, sibling) => 1 + Siblings(sibling)
  }

  /** What the switch of finsh_compile emits for a node after its children. */
  function Emit(kind: Kind, isAddr: bool, child: Tree): seq<Byte> {
    var dword := DataType(Node(kind, child, Nil)) == DWORD;
    match kind
    case KId(SysCall(f, _)) => [OP_LD] + Dword(f)
    case KId(Silent(_, _, _)) => []
    case KId(id) => (if isAddr then [OP_LD] else [OP_LD_VALUE]) + Dword(AddressOf(id))
    case KValue(w) => [OP_LD] + Dword(w)
    case KBinary(op) => if dword then [Opcode(op)] else []
    case KBitwise => if dword then [OP_BITWISE] else []
    case KFunc => if child == Nil then [] else [OP_SYSCALL, Siblings(child.sibling) % 0x100]
    case KAssign =>
      if child.Node? && (child.kind.KId? || child.kind.KGetValue?) && DataType(child) == DWORD
      then [OP_ST, OP_LD_STACK] else []
    case KPreStep(down) =>
      if child.Node? && child.kind.KId? && dword
      then [OP_LD_VALUE] + Dword(StepAddress(child.kind.id)) + [OP_LD] + Dword(1)
           + [Opcode(if down then Sub else Add), OP_ST, OP_LD_STACK]
      else []
    case KStep(down) =>
      if child.Node? && child.kind.KId? && dword
      then [OP_LD] + Dword(StepAddress(child.kind.id)) + [OP_LD_VALUE] + Dword(StepAddress(child.kind.id))
           + [OP_LD] + Dword(1) + [Opcode(if down then Sub else Add), OP_ST, OP_POP]
      else []
    case KGetValue => if !isAddr && dword then [OP_LD_STACK] else []
    case KGetAddr => []
  }

  /** finsh_compile after finsh_type_check: children, the node itself, then its siblings. */
  function Code(t: Tree, isAddr: bool): seq<Byte> {
    match t
    case Nil => []
    case Node(kind, child, sibling) =>
      Code(child, ChildIsAddress(kind, isAddr)) + Emit(kind, isAddr, child) + Code(sibling, false)
  }

  /** finsh_compiler_run: the statements one by one, a pop after each but the last. */
  function ProgramCode(t: Tree): seq<Byte> {
    match t
    case Nil => []
    case Node(kind, child, sibling) =>
      Code(Node(kind, child, Nil), false) + (if sibling == Nil then [] else [OP_POP] + ProgramCode(sibling))
  }
}
