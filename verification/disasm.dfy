/** A disassembler for the code the generator emits: it reads a byte
    sequence back into the instructions that produced it. It is the
    inverse against which the generator's encoding is checked: every
    compiled program disassembles to the instructions that left bytes in
    it, and every byte sequence that disassembles is exactly the code
    compiled from its disassembly. */
module Disasm {
  import opened Bytes
  import opened Codegen

  datatype Option<T> = None | Some(value: T)

  /** An instruction with a byte pattern of its own in the body. */
  predicate Encodable(i: Instruction)
  {
    !i.Write? && !i.Ret?
  }

  /** A body the generator can produce: instructions with byte patterns
      of their own, optionally closed by one `Ret`. */
  predicate WellFormedBody(insts: seq<Instruction>)
  {
    insts == [] || insts == [Ret] || (Encodable(insts[0]) && WellFormedBody(insts[1..]))
  }

  /** The instructions of a program that leave bytes in the output: those
      up to the first `Ret`, without the `Write`s. */
  function Lowered(insts: seq<Instruction>): seq<Instruction>
  {
    WithoutWrites(Reached(insts))
  }

  function WithoutWrites(insts: seq<Instruction>): seq<Instruction>
  {
    if insts == [] then []
    else if insts[0] == Write then WithoutWrites(insts[1..])
    else [insts[0]] + WithoutWrites(insts[1..])
  }

  /** Reads one `Load` or binary operation from the front of `bs`, with the
      number of bytes it occupies. */
  function DecodeOne(bs: seq<byte>): (r: Option<(Instruction, nat)>)
    ensures r.Some? ==> Encodable(r.value.0)
    ensures r.Some? ==> 0 < r.value.1 <= |bs| && bs[..r.value.1] == InstructionBytes(r.value.0)
  {
    if |bs| >= 11 && bs[0] == 0x48 && bs[1] == 0xB8 && bs[10] == 0x50 then
      var v := FromLeBytes(bs[2..10]);
      ToFromLeBytes(bs[2..10]);
      assert bs[..11] == [0x48, 0xB8] + bs[2..10] + [0x50];
      Some((Load(v), 11))
    else if |bs| >= 6 && bs[..6] == InstructionBytes(Add) then Some((Add, 6))
    else if |bs| >= 6 && bs[..6] == InstructionBytes(Sub) then Some((Sub, 6))
    else if |bs| >= 7 && bs[..7] == InstructionBytes(Mul) then Some((Mul, 7))
    else if |bs| >= 8 && bs[..8] == InstructionBytes(Div) then Some((Div, 8))
    else None
  }

  /** Reads a whole function body: instructions back to back, optionally
      closed by the `58` of a `Ret`. */
  function DecodeBody(bs: seq<byte>): (r: Option<seq<Instruction>>)
    ensures r.Some? ==> WellFormedBody(r.value) && Encode(r.value) == bs
    decreases |bs|
  {
    if bs == [] then Some([])
    else if bs == [0x58] then
      assert Encode([Ret]) == InstructionBytes(Ret) + Encode([]);
      Some([Ret])
    else
      match DecodeOne(bs)
      case None => None
      case Some((i, n)) =>
        match DecodeBody(bs[n..])
        case None => None
        case Some(rest) =>
          ConsBody(i, rest);
          assert bs == bs[..n] + bs[n..];
          Some([i] + rest)
  }

  /** Putting an instruction with its own byte pattern in front of a
      well-formed body gives a well-formed body. */
  lemma ConsBody(i: Instruction, rest: seq<Instruction>)
    requires Encodable(i) && WellFormedBody(rest)
    ensures WellFormedBody([i] + rest)
    ensures Encode([i] + rest) == InstructionBytes(i) + Encode(rest)
  {
    assert ([i] + rest)[1..] == rest;
  }

  /** Reads a whole generated function: the prologue, a body, the epilogue. */
  function Disassemble(code: seq<byte>): Option<seq<Instruction>>
  {
    if |code| >= 16 && code[..11] == Prologue && code[|code| - 5..] == Epilogue then
      DecodeBody(code[11..|code| - 5])
    else None
  }

  //----------------------------------------------------------------------
  // Round trips
  //----------------------------------------------------------------------

  /** The encoding of a `Load` or binary operation is read back as that
      instruction, whatever bytes follow it. */
  lemma DecodeOneEncoding(i: Instruction, rest: seq<byte>)
    requires Encodable(i)
    ensures DecodeOne(InstructionBytes(i) + rest) == Some((i, |InstructionBytes(i)|))
  {
    var bs := InstructionBytes(i) + rest;
    match i
    case Load(v) =>
      assert bs[2..10] == ToLeBytes(v);
      FromToLeBytes(v);
    case Add =>
      assert bs[0] == 0x5B;
      assert bs[..6] == InstructionBytes(Add);
    case Sub =>
      assert bs[0] == 0x5B && bs[3] == 0x29;
      assert bs[..6] == InstructionBytes(Sub);
    case Mul =>
      assert bs[0] == 0x5B && bs[3] == 0x0F;
      assert bs[..7] == InstructionBytes(Mul);
    case Div =>
      assert bs[0] == 0x5B && bs[3] == 0x99;
      assert bs[..8] == InstructionBytes(Div);
  }

  /** Every well-formed body is read back from its encoding. */
  lemma {:induction false} DecodeBodyEncode(insts: seq<Instruction>)
    requires WellFormedBody(insts)
    ensures DecodeBody(Encode(insts)) == Some(insts)
  {
    if insts == [] {
    } else if insts == [Ret] {
      assert Encode([Ret]) == [0x58] + Encode([]);
    } else {
      var i := insts[0];
      var head := InstructionBytes(i);
      var tail := Encode(insts[1..]);
      var bs := Encode(insts);
      assert bs == head + tail;
      DecodeOneEncoding(i, tail);
      assert |head| >= 6;
      assert bs[|head|..] == tail;
      DecodeBodyEncode(insts[1..]);
      assert [i] + insts[1..] == insts;
    }
  }

  /** How `Lowered` treats the first instruction of a program. */
  lemma LoweredCons(insts: seq<Instruction>)
    requires insts != []
    ensures insts[0] == Ret ==> Lowered(insts) == [Ret]
    ensures insts[0] == Write ==> Lowered(insts) == Lowered(insts[1..])
    ensures Encodable(insts[0]) ==> Lowered(insts) == [insts[0]] + Lowered(insts[1..])
    ensures insts[0] != Ret ==> Encode(Reached(insts)) == InstructionBytes(insts[0]) + Encode(Reached(insts[1..]))
  {
    if insts[0] == Ret {
      assert Reached(insts) == [Ret];
      assert WithoutWrites([Ret]) == [Ret] + WithoutWrites([]);
    } else {
      ReachedCons(insts);
      var r := Reached(insts);
      assert r[0] == insts[0] && r[1..] == Reached(insts[1..]);
    }
  }

  /** The instructions that leave bytes form a well-formed body with the
      same encoding as everything the generator reached. */
  lemma {:induction false} LoweredBody(insts: seq<Instruction>)
    ensures WellFormedBody(Lowered(insts))
    ensures Encode(Lowered(insts)) == Encode(Reached(insts))
  {
    if insts == [] {
      assert Reached(insts) == [];
    } else {
      LoweredCons(insts);
      if insts[0] == Ret {
        assert Reached(insts) == [Ret];
      } else {
        LoweredBody(insts[1..]);
        if Encodable(insts[0]) {
          var l := Lowered(insts);
          assert l[0] == insts[0] && l[1..] == Lowered(insts[1..]);
        }
      }
    }
  }

  /** A well-formed body is reached in full by the generator. */
  lemma {:induction false} WellFormedReached(insts: seq<Instruction>)
    requires WellFormedBody(insts)
    ensures Reached(insts) == insts
  {
    if insts == [] {
    } else if insts == [Ret] {
      assert FirstRet(insts) == 0;
    } else {
      WellFormedReached(insts[1..]);
      ReachedCons(insts);
      assert [insts[0]] + insts[1..] == insts;
    }
  }

  /** A generated function disassembles to whatever its body decodes to. */
  lemma DisassembleFrame(body: seq<byte>)
    ensures Disassemble(Prologue + body + Epilogue) == DecodeBody(body)
  {
    var code := Prologue + body + Epilogue;
    assert code[..11] == Prologue;
    assert code[|code| - 5..] == Epilogue;
    assert code[11..|code| - 5] == body;
  }

  /** Disassembling the code a new generator compiles recovers the
      program's instructions up to its first `Ret`, less the `Write`s. */
  lemma DisassembleCompile(p: Program)
    ensures Disassemble(Compile(New(), p).1) == Some(Lowered(p.insts))
  {
    var body := BodyBytes(p.insts);
    CompileOnNew(p);
    DisassembleFrame(body);
    assert DecodeBody(body) == Some(Lowered(p.insts)) by {
      LoweredBody(p.insts);
      DecodeBodyEncode(Lowered(p.insts));
    }
  }

  /** Code that disassembles consists of the prologue, a body the
      disassembly was read from, and the epilogue. */
  lemma DisassembledFrame(code: seq<byte>)
    requires Disassemble(code).Some?
    ensures |code| >= 16
    ensures code == Prologue + code[11..|code| - 5] + Epilogue
    ensures DecodeBody(code[11..|code| - 5]) == Disassemble(code)
  {
    assert code == code[..11] + code[11..|code| - 5] + code[|code| - 5..];
  }

  /** Whatever disassembles is exactly the code a new generator emits for
      the disassembled instructions. */
  lemma CompileDisassemble(code: seq<byte>)
    ensures Disassemble(code).Some? ==> Compile(New(), Program(Disassemble(code).value)).1 == code
  {
    if Disassemble(code).Some? {
      var insts := Disassemble(code).value;
      var body := code[11..|code| - 5];
      DisassembledFrame(code);
      assert Encode(insts) == body;
      WellFormedReached(insts);
      assert BodyBytes(insts) == body;
      CompileOnNew(Program(insts));
    }
  }

  /** Code from a reused generator is not one generated function: compiling
      `[Ret]` twice on the same generator leaves the first function's
      epilogue inside what would be the second one's body. */
  lemma ReusedCodeDoesNotDisassemble()
    ensures Disassemble(Compile(Compile(New(), Program([Ret])).0, Program([Ret])).1).None?
  {
    var once := Compile(New(), Program([Ret]));
    var twice := Compile(once.0, Program([Ret]));
    assert BodyBytes([Ret]) == [0x58] by {
      assert Reached([Ret]) == [Ret];
      assert Encode([Ret]) == [0x58] + Encode([]);
    }
    var f := Prologue + [0x58] + Epilogue;
    CompileOnNew(Program([Ret]));
    assert once.1 == f;
    var code := twice.1;
    assert code == f + f;
    var body := code[11..|code| - 5];
    assert body[0] == 0x58 && |body| == 18;
    assert DecodeOne(body).None?;
  }
}
