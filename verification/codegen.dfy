/** The bytecode instruction set and the x86-64 code generator of the JIT.

    A `Compiler` is a value: each emission function takes the state before
    and returns the state after, so the mutable `&mut self` of the
    generator becomes explicit threading of `(bytecode, stkOffset)`. */
module Codegen {
  import opened Bytes

  /** A bytecode instruction. */
  datatype Instruction =
    | Load(value: Int64)  // push an immediate
    | Add                 // pop b, pop a, push a + b
    | Sub                 // pop b, pop a, push a - b
    | Mul                 // pop b, pop a, push a * b
    | Div                 // pop b, pop a, push a / b
    | Write               // declared, lowers to nothing
    | Ret                 // pop the result and stop generating

  /** A program: an ordered list of instructions. */
  datatype Program = Program(insts: seq<Instruction>)

  /** The operator selector of `emit_binop`. The generator selects with a
      string and panics on any other string; a closed enumeration makes
      that fallback impossible. */
  datatype BinOp = AddOp | SubOp | MulOp | DivOp

  /** The generator state: the output buffer and the stack depth in bytes. */
  datatype Compiler = Compiler(bytecode: seq<byte>, stkOffset: int)

  //----------------------------------------------------------------------
  // Reference layout of the generated code
  //----------------------------------------------------------------------

  /** push rbp; mov rbp, rsp; sub rsp, 1024 */
  const Prologue: seq<byte> := [0x55, 0x48, 0x89, 0xE5, 0x48, 0x81, 0xEC, 0x00, 0x04, 0x00, 0x00]

  /** mov rsp, rbp; pop rbp; ret */
  const Epilogue: seq<byte> := [0x48, 0x89, 0xEC, 0x5D, 0xC3]

  /** The bytes one instruction contributes to the function body. */
  function InstructionBytes(i: Instruction): seq<byte>
  {
    match i
    case Load(v) => [0x48, 0xB8] + ToLeBytes(v) + [0x50]
    case Add => [0x5B, 0x58, 0x48, 0x01, 0xD8, 0x50]
    case Sub => [0x5B, 0x58, 0x48, 0x29, 0xD8, 0x50]
    case Mul => [0x5B, 0x58, 0x48, 0x0F, 0xAF, 0xC3, 0x50]
    case Div => [0x5B, 0x58, 0x48, 0x99, 0x48, 0xF7, 0xFB, 0x50]
    case Write => []
    case Ret => [0x58]
  }

  /** The length of each instruction's encoding. */
  function InstructionLength(i: Instruction): nat
  {
    match i
    case Load(_) => 11
    case Add => 6
    case Sub => 6
    case Mul => 7
    case Div => 8
    case Write => 0
    case Ret => 1
  }

  /** The change each instruction makes to the stack depth, in bytes. */
  function StackEffect(i: Instruction): int
  {
    match i
    case Load(_) => 8
    case Add | Sub | Mul | Div => -8
    case Write | Ret => 0
  }

  /** Index of the first `Ret` in `insts`, or `|insts|` if there is none. */
  function FirstRet(insts: seq<Instruction>): (k: nat)
    ensures k <= |insts|
    ensures k < |insts| ==> insts[k] == Ret
    ensures Ret !in insts[..k]
  {
    if insts == [] then 0
    else if insts[0] == Ret then 0
    else 1 + FirstRet(insts[1..])
  }

  /** The instructions that reach the generator: everything up to and
      including the first `Ret`. */
  function Reached(insts: seq<Instruction>): seq<Instruction>
  {
    var k := FirstRet(insts);
    if k < |insts| then insts[..k + 1] else insts
  }

  /** The concatenated encodings of `insts`, in order. */
  function Encode(insts: seq<Instruction>): seq<byte>
  {
    if insts == [] then [] else InstructionBytes(insts[0]) + Encode(insts[1..])
  }

  /** The sum of the instruction lengths of `insts`. */
  function TotalLength(insts: seq<Instruction>): nat
  {
    if insts == [] then 0 else InstructionLength(insts[0]) + TotalLength(insts[1..])
  }

  /** The sum of the stack effects of `insts`. */
  function TotalStackEffect(insts: seq<Instruction>): int
  {
    if insts == [] then 0 else StackEffect(insts[0]) + TotalStackEffect(insts[1..])
  }

  /** The function body `compile` generates for `insts`. */
  function BodyBytes(insts: seq<Instruction>): seq<byte>
  {
    Encode(Reached(insts))
  }

  //----------------------------------------------------------------------
  // The generator
  //----------------------------------------------------------------------

  /** `Compiler::new`: an empty buffer at stack depth zero. */
  function New(): (c: Compiler)
    ensures c.bytecode == [] && c.stkOffset == 0
  {
    Compiler([], 0)
  }

  /** `emit`: appends `bytes` to the buffer. */
  function Emit(c: Compiler, bytes: seq<byte>): Compiler
  {
    c.(bytecode := c.bytecode + bytes)
  }

  /** `emit` only appends: everything already in the buffer stays where it
      was, the new bytes follow it, and the stack depth is untouched. */
  lemma EmitAppendOnly(c: Compiler, bytes: seq<byte>)
    ensures var c' := Emit(c, bytes);
      && |c'.bytecode| == |c.bytecode| + |bytes|
      && c'.bytecode[..|c.bytecode|] == c.bytecode
      && c'.bytecode[|c.bytecode|..] == bytes
      && c'.stkOffset == c.stkOffset
  {
  }

  /** `emit_fn_prologue`: three emissions that together append `Prologue`. */
  function EmitFnPrologue(c: Compiler): (c': Compiler)
    ensures c'.bytecode == c.bytecode + Prologue
    ensures c'.stkOffset == c.stkOffset
  {
    var c1 := Emit(c, [0x55]);
    var c2 := Emit(c1, [0x48, 0x89, 0xE5]);
    Emit(c2, [0x48, 0x81, 0xEC, 0x00, 0x04, 0x00, 0x00])
  }

  /** `emit_fn_epilogue`: three emissions that together append `Epilogue`. */
  function EmitFnEpilogue(c: Compiler): (c': Compiler)
    ensures c'.bytecode == c.bytecode + Epilogue
    ensures c'.stkOffset == c.stkOffset
  {
    var c1 := Emit(c, [0x48, 0x89, 0xEC]);
    var c2 := Emit(c1, [0x5D]);
    Emit(c2, [0xC3])
  }

  /** `emit_load_imm`: `mov rax, imm64; push rax`, one slot deeper. */
  function EmitLoadImm(c: Compiler, v: Int64): (c': Compiler)
    ensures c'.bytecode == c.bytecode + InstructionBytes(Load(v))
    ensures c'.stkOffset == c.stkOffset + 8
  {
    var c1 := Emit(c, [0x48, 0xB8]);
    var c2 := Emit(c1, ToLeBytes(v));
    var c3 := Emit(c2, [0x50]);
    c3.(stkOffset := c3.stkOffset + 8)
  }

  /** The operator bytes `emit_binop` selects for `op`. */
  function OpBytes(op: BinOp): seq<byte>
  {
    match op
    case AddOp => [0x48, 0x01, 0xD8]
    case SubOp => [0x48, 0x29, 0xD8]
    case MulOp => [0x48, 0x0F, 0xAF, 0xC3]
    case DivOp => [0x48, 0x99] + [0x48, 0xF7, 0xFB]
  }

  /** The instruction whose lowering is the binary operation `op`. */
  function BinOpInstruction(op: BinOp): Instruction
  {
    match op
    case AddOp => Add
    case SubOp => Sub
    case MulOp => Mul
    case DivOp => Div
  }

  /** `emit_binop`: `pop rbx; pop rax; <op>; push rax`, one slot shallower. */
  function EmitBinop(c: Compiler, op: BinOp): (c': Compiler)
    ensures c'.bytecode == c.bytecode + InstructionBytes(BinOpInstruction(op))
    ensures c'.stkOffset == c.stkOffset - 8
  {
    var c1 := Emit(c, [0x5B]);
    var c2 := Emit(c1, [0x58]);
    var c3 := Emit(c2, OpBytes(op));
    var c4 := Emit(c3, [0x50]);
    c4.(stkOffset := c4.stkOffset - 8)
  }

  /** One arm of the match in `compile`'s loop. */
  function EmitInstruction(c: Compiler, i: Instruction): (c': Compiler)
    ensures c'.bytecode == c.bytecode + InstructionBytes(i)
    ensures c'.stkOffset == c.stkOffset + StackEffect(i)
  {
    match i
    case Load(v) => EmitLoadImm(c, v)
    case Add => EmitBinop(c, AddOp)
    case Sub => EmitBinop(c, SubOp)
    case Mul => EmitBinop(c, MulOp)
    case Div => EmitBinop(c, DivOp)
    case Ret => Emit(c, [0x58])
    case Write => c
  }

  /** Reaching a non-`Ret` instruction passes on to the rest of the program. */
  lemma {:induction false} ReachedCons(insts: seq<Instruction>)
    requires insts != [] && insts[0] != Ret
    ensures Reached(insts) == [insts[0]] + Reached(insts[1..])
  {
    var k := FirstRet(insts[1..]);
    assert FirstRet(insts) == k + 1;
    if k < |insts[1..]| {
      assert insts[..k + 2] == [insts[0]] + insts[1..][..k + 1];
    } else {
      assert insts == [insts[0]] + insts[1..];
    }
  }

  /** The loop of `compile`: emits each instruction in turn and leaves the
      loop right after a `Ret`. */
  function EmitBody(c: Compiler, insts: seq<Instruction>): (c': Compiler)
    ensures c'.bytecode == c.bytecode + BodyBytes(insts)
    ensures c'.stkOffset == c.stkOffset + TotalStackEffect(Reached(insts))
    decreases |insts|
  {
    if insts == [] then c
    else if insts[0] == Ret then
      assert Reached(insts) == [Ret];
      assert Encode([Ret]) == InstructionBytes(Ret) + Encode([]);
      EmitInstruction(c, Ret)
    else
      var c1 := EmitInstruction(c, insts[0]);
      ReachedCons(insts);
      assert Reached(insts)[1..] == Reached(insts[1..]);
      EmitBody(c1, insts[1..])
  }

  /** `compile`: prologue, body, epilogue, appended to whatever the buffer
      already holds. Returns the new state and a copy of the whole buffer. */
  function Compile(c: Compiler, p: Program): (r: (Compiler, seq<byte>))
    ensures r.1 == r.0.bytecode
    ensures r.1 == c.bytecode + Prologue + BodyBytes(p.insts) + Epilogue
    ensures r.0.stkOffset == c.stkOffset + TotalStackEffect(Reached(p.insts))
  {
    var c1 := EmitFnPrologue(c);
    var c2 := EmitBody(c1, p.insts);
    var c3 := EmitFnEpilogue(c2);
    (c3, c3.bytecode)
  }

  /** `compile` as evidently intended: the state is reset before the new
      function is emitted, so the output holds that function alone and the
      stack depth counts only its instructions. The reset is modelled by
      ignoring the incoming state `c` and compiling on `New()`. */
  function CompileFresh(c: Compiler, p: Program): (r: (Compiler, seq<byte>))
    ensures r.1 == r.0.bytecode
    ensures r.1 == Prologue + BodyBytes(p.insts) + Epilogue
    ensures r.0.stkOffset == TotalStackEffect(Reached(p.insts))
  {
    CompileOnNew(p);
    Compile(New(), p)
  }

  /** On a new generator the output is just prologue, body and epilogue. */
  lemma CompileOnNew(p: Program)
    ensures Compile(New(), p).1 == Prologue + BodyBytes(p.insts) + Epilogue
    ensures Compile(New(), p).0.stkOffset == TotalStackEffect(Reached(p.insts))
  {
    var c1 := EmitFnPrologue(New());
    assert c1.bytecode == Prologue;
  }
}
