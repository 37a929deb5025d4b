/** What the generator guarantees about the code it emits: exact bytes,
    lengths, stack bookkeeping, early stop at `Ret`, and the effect of
    reusing one generator for several programs. */
module CodegenProperties {
  import opened Bytes
  import opened Codegen

  /** Every instruction's encoding has the length the size table gives. */
  lemma InstructionLengths(i: Instruction)
    ensures |InstructionBytes(i)| == InstructionLength(i)
  {
  }

  /** A sequence of instructions encodes to as many bytes as their lengths add up to. */
  lemma {:induction false} EncodeLength(insts: seq<Instruction>)
    ensures |Encode(insts)| == TotalLength(insts)
  {
    if insts != [] {
      InstructionLengths(insts[0]);
      EncodeLength(insts[1..]);
    }
  }

  /** The prologue's `sub rsp` immediate reserves a 1024-byte frame. */
  lemma PrologueReservesFrame()
    ensures Prologue[4..7] == [0x48, 0x81, 0xEC]
    ensures LeValue(Prologue[7..11]) == 1024
  {
    assert Prologue[7..11] == [0x00, 0x04, 0x00, 0x00];
    assert LeValue([0x00, 0x04, 0x00, 0x00]) == 0x00 + 256 * LeValue([0x04, 0x00, 0x00]);
    assert LeValue([0x04, 0x00, 0x00]) == 0x04 + 256 * LeValue([0x00, 0x00]);
    assert LeValue([0x00, 0x00]) == 0 + 256 * LeValue([0x00]);
    assert LeValue([0x00]) == 0 + 256 * LeValue([]);
  }

  /** `Load(v)` appends `48 B8`, the eight little-endian bytes of `v`, and
      `50`; reading those eight bytes back yields `v`. */
  lemma LoadImmLayout(c: Compiler, v: Int64)
    ensures var n := |c.bytecode|;
      var out := EmitLoadImm(c, v).bytecode;
      && |out| == n + 11
      && out[..n] == c.bytecode
      && out[n] == 0x48 && out[n + 1] == 0xB8
      && out[n + 10] == 0x50
      && FromLeBytes(out[n + 2..n + 10]) == v
  {
    var n := |c.bytecode|;
    var out := EmitLoadImm(c, v).bytecode;
    assert out[n + 2..n + 10] == ToLeBytes(v);
    FromToLeBytes(v);
  }

  /** Each binary operation appends `5B 58`, its operator bytes and `50`:
      6 bytes for add and sub, 7 for mul, 8 for div. */
  lemma BinopLayout(c: Compiler, op: BinOp)
    ensures var n := |c.bytecode|;
      var out := EmitBinop(c, op).bytecode;
      && out[..n] == c.bytecode
      && out[n..n + 2] == [0x5B, 0x58]
      && out[|out| - 1] == 0x50
      && out[n + 2..|out| - 1] == OpBytes(op)
      && |out| - n == (match op
                       case AddOp => 6
                       case SubOp => 6
                       case MulOp => 7
                       case DivOp => 8)
  {
  }

  /** On a fresh generator the output is the prologue, the encodings of the
      instructions up to the first `Ret`, and the epilogue; its length is
      11 plus their lengths plus 5, and the stack depth ends at 8 bytes per
      `Load` less 8 per binary operation among them. */
  lemma FreshCompileLayout(p: Program)
    ensures var (c, code) := Compile(New(), p);
      && code[..11] == Prologue
      && code[11..|code| - 5] == Encode(Reached(p.insts))
      && code[|code| - 5..] == Epilogue
      && |code| == 11 + TotalLength(Reached(p.insts)) + 5
      && c.stkOffset == TotalStackEffect(Reached(p.insts))
  {
    EncodeLength(Reached(p.insts));
  }

  /** Generation reaches exactly up to the first `Ret`, whatever follows it. */
  lemma ReachedStopsAtRet(pre: seq<Instruction>, post: seq<Instruction>)
    requires Ret !in pre
    ensures Reached(pre + [Ret] + post) == pre + [Ret]
  {
    var insts := pre + [Ret] + post;
    assert insts[|pre|] == Ret;
    assert forall j :: 0 <= j < |pre| ==> insts[j] == pre[j];
    assert FirstRet(insts) == |pre|;
    assert insts[..|pre| + 1] == pre + [Ret];
  }

  /** The first `Ret` ends generation: nothing after it reaches the output. */
  lemma StopsAtFirstRet(c: Compiler, pre: seq<Instruction>, post: seq<Instruction>)
    requires Ret !in pre
    ensures Compile(c, Program(pre + [Ret] + post)) == Compile(c, Program(pre + [Ret]))
  {
    var short := pre + [Ret];
    ReachedStopsAtRet(pre, post);
    ReachedStopsAtRet(pre, []);
    assert short + [] == short;
    var long := Compile(c, Program(short + post));
    var exact := Compile(c, Program(short));
    assert BodyBytes(short + post) == BodyBytes(short);
    assert long.0.bytecode == exact.0.bytecode;
  }

  /** `Ret` appends the single byte `58`, and only the epilogue follows it. */
  lemma RetEndsBody(c: Compiler, pre: seq<Instruction>)
    requires Ret !in pre
    ensures Compile(c, Program(pre + [Ret])).1
            == c.bytecode + Prologue + Encode(pre) + [0x58] + Epilogue
  {
    var e := Encode(pre);
    assert BodyBytes(pre + [Ret]) == e + [0x58] by {
      ReachedStopsAtRet(pre, []);
      assert pre + [Ret] + [] == pre + [Ret];
      EncodeAppend(pre, [Ret]);
      assert Encode([Ret]) == [0x58] + Encode([]);
    }
    var r := Compile(c, Program(pre + [Ret]));
    assert r.1 == c.bytecode + Prologue + (e + [0x58]) + Epilogue;
    SplitMiddle(c.bytecode + Prologue, e, [0x58], Epilogue);
  }

  lemma SplitMiddle<T>(a: seq<T>, b: seq<T>, c: seq<T>, d: seq<T>)
    ensures a + (b + c) + d == a + b + c + d
  {
  }

  /** Encoding distributes over concatenation. */
  lemma {:induction false} EncodeAppend(a: seq<Instruction>, b: seq<Instruction>)
    ensures Encode(a + b) == Encode(a) + Encode(b)
  {
    if a == [] {
      assert a + b == b;
    } else {
      assert (a + b)[0] == a[0];
      assert (a + b)[1..] == a[1..] + b;
      EncodeAppend(a[1..], b);
    }
  }

  /** `Write` contributes no bytes and leaves the stack depth alone,
      wherever it stands in the loop's input. */
  lemma {:induction false} WriteEmitsNothing(c: Compiler, pre: seq<Instruction>, post: seq<Instruction>)
    ensures EmitBody(c, pre + [Write] + post) == EmitBody(c, pre + post)
    decreases |pre|
  {
    var withWrite := pre + [Write] + post;
    if pre == [] {
      assert withWrite == [Write] + post;
      assert withWrite[1..] == post;
      assert pre + post == post;
    } else {
      assert withWrite[0] == pre[0] && (pre + post)[0] == pre[0];
      if pre[0] != Ret {
        var c1 := EmitInstruction(c, pre[0]);
        assert withWrite[1..] == pre[1..] + [Write] + post;
        assert (pre + post)[1..] == pre[1..] + post;
        WriteEmitsNothing(c1, pre[1..], post);
      }
    }
  }

  /** Removing a `Write` from a program changes nothing `compile` produces. */
  lemma CompileIgnoresWrite(c: Compiler, pre: seq<Instruction>, post: seq<Instruction>)
    ensures Compile(c, Program(pre + [Write] + post)) == Compile(c, Program(pre + post))
  {
    WriteEmitsNothing(EmitFnPrologue(c), pre, post);
  }

  /** What `compile` appends does not depend on the state it starts from:
      the old buffer is kept as a prefix and the new code follows it. */
  lemma CompileExtends(c: Compiler, p: Program)
    ensures Compile(c, p).1 == c.bytecode + Compile(New(), p).1
    ensures Compile(c, p).0.stkOffset == c.stkOffset + Compile(New(), p).0.stkOffset
  {
    CompileOnNew(p);
    AppendAssoc(c.bytecode, Prologue, BodyBytes(p.insts), Epilogue);
  }

  lemma AppendAssoc<T>(a: seq<T>, b: seq<T>, c: seq<T>, d: seq<T>)
    ensures a + b + c + d == a + (b + c + d)
  {
  }

  /** A generator is never reset: compiling a second program on a used
      generator yields the first output followed by exactly what a fresh
      generator would produce for the second program, and the stack depths
      of the two compilations add up. */
  lemma ReuseAppends(p1: Program, p2: Program)
    ensures var first := Compile(New(), p1);
      var second := Compile(first.0, p2);
      var alone := Compile(New(), p2);
      && second.1 == first.1 + alone.1
      && second.0.stkOffset == first.0.stkOffset + alone.0.stkOffset
  {
    CompileExtends(Compile(New(), p1).0, p2);
  }

  /** Because the buffer is never reset, a reused generator never returns
      what a fresh one would: its output still begins with the first
      program's function, which is where execution enters. */
  lemma ReuseDiffersFromFresh(p1: Program, p2: Program)
    ensures var first := Compile(New(), p1);
      var second := Compile(first.0, p2);
      && second.1[..|first.1|] == first.1
      && second.1[..11] == Prologue
      && second.1 != Compile(New(), p2).1
  {
    var first := Compile(New(), p1);
    ReuseAppends(p1, p2);
    assert |first.1| >= 16;
  }

  /** With the reset in place, compiling on a used generator gives exactly
      what a fresh generator gives. */
  lemma FreshReuseIsolated(p1: Program, p2: Program)
    ensures var first := CompileFresh(New(), p1);
      CompileFresh(first.0, p2) == CompileFresh(New(), p2)
  {
  }
}
