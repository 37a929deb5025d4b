# cjit code generator, modelled in Dafny

This project models the code generator of cjit, a small just-in-time
compiler. The generator lowers a stack-machine bytecode `Program` into one
x86-64 function as a flat byte sequence. Seven instructions exist:
`Load(i64)`, `Add`, `Sub`, `Mul`, `Div`, `Write` and `Ret`. The function
has three parts:

- a fixed prologue that saves `rbp` and reserves a 1024-byte frame;
- one fixed byte pattern per instruction, with the `Load` immediate
  written little-endian;
- a fixed epilogue.

The generator also keeps a running stack depth, `stk_offset`, in bytes.
The model also covers the page-size rounding that `Invoker::execute`
applies to the code length before it maps the code.

Files:

- `bytes.dfy` (module `Bytes`): bytes, `i64`, and `to_le_bytes` /
  `from_le_bytes` with both round trips.
- `codegen.dfy` (module `Codegen`): `Instruction`, `Program`, and the
  generator state `Compiler(bytecode, stkOffset)`. It also holds the
  emission functions (`Emit`, `EmitFnPrologue`, `EmitFnEpilogue`,
  `EmitLoadImm`, `EmitBinop`, `EmitBody`, `Compile`). Each one takes the
  state before and returns the state after. The module also holds the
  reference layout: `Prologue`, `Epilogue`, the per-instruction table
  `InstructionBytes`, and `Reached` (the instructions up to and including
  the first `Ret`).
- `properties.dfy` (module `CodegenProperties`): exact bytes, lengths,
  stack bookkeeping, stopping at `Ret`, `Write` transparency, and what
  reusing a generator does.
- `disasm.dfy` (module `Disasm`): a disassembler that inverts the
  generator for code compiled on a new generator. Such code disassembles
  to the program's instructions up to the first `Ret`, without the
  `Write`s. Any byte sequence that disassembles is exactly the code a new
  generator compiles from its disassembly. Code from a reused generator
  need not disassemble.
- `invoker.dfy` (module `Invoker`): `csize = (len + 4095) & !4095` on
  64-bit `usize`.

The selector string that `emit_binop` takes is a closed enumeration
`BinOp` in the model. Its `panic!` fallback for unknown strings therefore
cannot occur.

In `src/compiler.rs` there are exactly the seven instructions above.
`compile` never clears `bytecode`, so a generator that compiles a second
program returns both functions back to back. `Write` emits no bytes.

## Model

| member | source | states |
|---|---|---|
| Codegen.New | src/compiler.rs:46-51 | a new generator has an empty buffer and stack depth 0 |
| Codegen.EmitAppendOnly | src/compiler.rs:56-58 | the contract of `Codegen.Emit`, stated as a lemma: `emit` only appends: old bytes stay in place, the new bytes follow them, and the stack depth is unchanged |
| Codegen.EmitFnPrologue | src/compiler.rs:63-70 | the prologue appends exactly `55 48 89 E5 48 81 EC 00 04 00 00` to whatever the buffer holds and leaves the stack depth unchanged |
| CodegenProperties.PrologueReservesFrame | src/compiler.rs:66-69 | the `sub rsp` in the prologue (`48 81 EC`) has the little-endian 32-bit immediate 1024 |
| Codegen.EmitFnEpilogue | src/compiler.rs:75-79 | the epilogue appends exactly `48 89 EC 5D C3` and leaves the stack depth unchanged |
| Codegen.EmitLoadImm | src/compiler.rs:85-90 | `Load(v)` appends its table entry `48 B8`, the 8 bytes of `v`, then `50`; the stack depth rises by 8 |
| CodegenProperties.LoadImmLayout | src/compiler.rs:85-90 | `Load(v)` adds 11 bytes after the untouched old buffer: `48 B8`, eight bytes from which `from_le_bytes` recovers `v`, and `50` |
| Bytes.FromToLeBytes | src/compiler.rs:87 | decoding the little-endian bytes of any `i64` gives the value back |
| Bytes.ToFromLeBytes | src/compiler.rs:87 | every 8-byte sequence is the little-endian encoding of the `i64` it decodes to |
| Codegen.EmitBinop | src/compiler.rs:96-121 | a binop appends the table entry of its instruction (`5B 58`, operator bytes, `50`), and the stack depth falls by 8 |
| CodegenProperties.BinopLayout | src/compiler.rs:96-121 | a binop's new bytes are `5B 58`, then its operator bytes, then `50`: 6 bytes for add and sub, 7 for mul, 8 for div |
| Codegen.EmitInstruction | src/compiler.rs:127-135 | each match arm appends exactly that instruction's table entry and changes the stack depth by that instruction's effect (+8 for `Load`, −8 for a binop, 0 for `Write` and `Ret`) |
| Codegen.FirstRet | src/compiler.rs:126-136 | the loop stops at the first `Ret`: the index returned holds `Ret` and no earlier instruction is `Ret` |
| Codegen.ReachedCons | src/compiler.rs:126-136 | after an instruction that is not `Ret`, the loop goes on to the rest of the program |
| Codegen.EmitBody | src/compiler.rs:126-136 | the loop appends the encodings of the instructions up to and including the first `Ret` and adds up their stack effects |
| Codegen.Compile | src/compiler.rs:123-140 | the output is the old buffer followed by prologue, body and epilogue; the returned bytes equal the stored buffer; the stack depth grows by the body's net effect |
| CodegenProperties.EncodeLength | src/compiler.rs:85-135 | an instruction sequence encodes to as many bytes as the table lengths add up to (11, 6, 6, 7, 8, 0, 1) |
| CodegenProperties.FreshCompileLayout | src/compiler.rs:123-140 | on a new generator the output starts with the prologue and ends with the epilogue; its length is 11 + body length + 5; the stack depth is 8 × (`Load`s − binops) before the first `Ret` |
| CodegenProperties.ReachedStopsAtRet | src/compiler.rs:133 | the instructions that reach the generator are exactly those up to the first `Ret`, whatever follows it |
| CodegenProperties.StopsAtFirstRet | src/compiler.rs:126-138 | instructions after the first `Ret` change neither the output nor the stack depth |
| CodegenProperties.RetEndsBody | src/compiler.rs:133-138 | `Ret` appends the single byte `58`, and only the epilogue follows it |
| CodegenProperties.WriteEmitsNothing | src/compiler.rs:134 | inserting `Write` anywhere in the loop's input changes neither the bytes nor the stack depth |
| CodegenProperties.CompileIgnoresWrite | src/compiler.rs:134 | `compile` gives the same output and state with or without any one `Write` |
| CodegenProperties.CompileExtends | src/compiler.rs:123-140 | what `compile` appends does not depend on the starting state: the old buffer is a prefix and the new code follows it |
| CodegenProperties.ReuseAppends | src/compiler.rs:123-140 | a second `compile` on the same generator returns the first output followed by what a new generator gives for the second program |
| CodegenProperties.ReuseDiffersFromFresh | src/compiler.rs:123-140 | because the buffer is never reset, a reused generator's output begins with the first function and never equals a new generator's output |
| Codegen.CompileOnNew | src/compiler.rs:123-140 | on a new generator the output is just prologue, body and epilogue, and the stack depth is the body's net effect |
| Codegen.CompileFresh | src/compiler.rs:123-140 | with the reset in place (modelled by ignoring the incoming state), the output is just prologue, body and epilogue, and the stack depth counts only this program |
| CodegenProperties.FreshReuseIsolated | src/compiler.rs:123-140 | with the reset in place, compiling on a used generator equals compiling on a new one |
| Disasm.DecodeOne | src/compiler.rs:85-121 | a decoded `Load` or binop covers exactly its table encoding at the front of the input |
| Disasm.DecodeOneEncoding | src/compiler.rs:85-121 | each `Load` or binop encoding decodes back to that instruction, whatever bytes follow it, so no two encodings clash |
| Disasm.DecodeBody | src/compiler.rs:126-136 | a decoded body is well formed (a `Ret` only at the end, no `Write`) and re-encodes to the input bytes |
| Disasm.DecodeBodyEncode | src/compiler.rs:126-136 | every well-formed body decodes back from its encoding |
| Disasm.LoweredBody | src/compiler.rs:126-136 | dropping `Write`s from the reached instructions gives a well-formed body with the same bytes |
| Disasm.WellFormedReached | src/compiler.rs:126-136 | a well-formed body reaches the generator in full |
| Disasm.DisassembleCompile | src/compiler.rs:123-140 | code compiled on a new generator disassembles to the program's instructions up to the first `Ret`, without `Write`s |
| Disasm.CompileDisassemble | src/compiler.rs:123-140 | any byte sequence that disassembles equals the code a new generator compiles from its disassembly |
| Disasm.ReusedCodeDoesNotDisassemble | src/compiler.rs:123-140 | because the buffer is never cleared, compiling `[Ret]` twice on one generator gives bytes that do not disassemble as one function |
| Invoker.MappedSize | src/compiler.rs:162-163 | the mapped size is a multiple of 4096, at least the code length, and less than the code length plus 4096 |
| Invoker.MappedSizeZero | src/compiler.rs:162-163 | the mapped size is zero exactly when the code is empty |

## Left out

- `Invoker::execute` calls `mmap`, `copy_nonoverlapping`, `mprotect`, `transmute`, the native call and `munmap` (src/compiler.rs:168-206). These are operating-system calls plus execution of raw memory, so only the size arithmetic is modelled. Its failure `panic!`s are left out too.
- What the emitted machine code computes when it runs. The model stays at the level of emitted bytes, because a CPU semantics is outside it.
- The `panic!` for an unknown operator string in `emit_binop` (src/compiler.rs:116). The closed `BinOp` enumeration makes that branch unreachable.
- `src/main.rs` is not part of this model. It is a demo driver that builds one program and prints the result.
- Codegen.EmitLoadImm: `stk_offset` is an unbounded integer here. The source's `i32` would overflow after about 2^28 net `Load`s, so the model does not capture that overflow.
- Codegen.EmitBinop: `stk_offset` is an unbounded integer here, for the same reason; the `i32` underflow is not modelled.
- Invoker.MappedSize: the rounding is stated on 64-bit `usize` values (`bv64`), not as a relation with the mathematical integer length. Its input is limited to `isize::MAX`, the largest length a Rust slice can have.
- `Vec` allocation failure, and the copy made by `self.bytecode.clone()` (modelled as returning the buffer's value).

## Findings

| source | as written | input that shows it | evidently intended | confidence | as-written member | corrected member |
|---|---|---|---|---|---|---|
| src/compiler.rs:123-140 | `compile` appends to a buffer that is never cleared, and returns the whole buffer | compile `[Load(1), Ret]` and then `[Load(2), Ret]` on one `Compiler`: the second result starts with the first function's 28 bytes, so its entry point is the first program | each call returns only the function for its own program: `compile(&mut self, program)` returns one `Vec<u8>` per program, and `execute` calls the first byte of the mapped code as the function (src/compiler.rs:197-198), which with a reused generator is the first program's entry; `Disasm.ReusedCodeDoesNotDisassemble` shows the reused output is not one function | medium, not executed | CodegenProperties.ReuseDiffersFromFresh | Codegen.CompileFresh |
