# prs-eplic: Brainfuck and Sus interpreters in Dafny

This project models the interpreting core of `prs-eplic`, a small Rust
interpreter for two tape languages:

- **Brainfuck** (`src/brainfuck/mod.rs`). `lex` turns the source bytes
  into tokens for `> < + - . , [ ]` and skips every other byte. `parse`
  matches the brackets and nests each loop body into one `Lp` node. It
  fails with `UnexpectedLoopEnd` or `NoLoopEnd`. `exec` walks the tree
  over a 2048-cell byte tape whose pointer starts on cell 1024. `run`
  chains the three.
- **The checked tape `Tp`** (`src/tp.rs`): 2048 `u32` cells and a `usize`
  pointer.
  - `inc` and `dec` use checked arithmetic and do nothing when the pointer
    is off the tape.
  - `inc_ptr` and `dec_ptr` use checked arithmetic but do no bounds check.
  - `print` writes a cell only if its value is at most 255.
  - `read` stores one input byte.
- **Sus** (`src/sus/mod.rs`): the loop-free variant `> < + - |`, run on a
  `Tp`.

Modules:

| module | file | contents |
|---|---|---|
| `Ints` | `ints.dfy` | Rust's `u8`, `u32` and `usize` as subset types, and `checked_add`/`checked_sub` |
| `Errors` | `errors.dfy` | both interpreter error enums, end of input, and panics as values |
| `Brainfuck` | `brainfuck_lex.dfy` | the token type and `lex` |
| `BrainfuckParse` | `brainfuck_parse.dfy` | `parse` and the bracket-depth theory behind it |
| `BrainfuckExec` | `brainfuck_exec.dfy` | `exec` as functions plus an in-place method over an `array<u8>` |
| `BrainfuckRun` | `brainfuck_run.dfy` | `run` |
| `Tape` | `tp.dfy` | the tape as a value (`TapeState`), its operations as functions, and the class `Tp` |
| `Sus` | `sus.dfy` | the Sus tokens, lexer, executor and `run` over a `Tp` |

Modelling choices:

- **Methods against functions.** The lexers, both executors and the `Tp`
  methods are proved equal to a function of their inputs and old state:
  `Lexed`, `Executed`, `CellInc` and so on. The properties are then proved
  about those functions. `BrainfuckParse.Parse` is instead characterised
  by what its result means: when it succeeds, and what tree it returns.
  `BrainfuckRun.Run` is stated through a tree that `parse` could return.
- **Panics.** An unchecked operation that would panic in a debug build
  becomes an explicit failure `Panic(kind)` in the model. This covers the
  Brainfuck `u8` and `usize` arithmetic, `mem[*ptr]` indexing, and
  `Tp::print`/`Tp::read` indexing. The model never wraps around.
- **Standard input and output.** Standard input is a sequence of bytes;
  reading one takes it from the front. Standard output is the sequence of
  characters written; each byte `b` is written as `b as char`.
- **Fuel.** A Brainfuck loop may run forever, so its semantics carries
  fuel. One loop activation may run its body at most `fuel` times; the
  k-th run of the body (counting from 1) gets `fuel - k`, and running out
  is a separate status, `OutOfFuel`.
  `ExecutedFuel` shows that more fuel never changes a run that finished.
- **Brainfuck `parse`.** Its result is characterised in two ways:
  - it succeeds exactly when the brackets are balanced;
  - it returns a tree that flattens back to its input tokens. By
    `FlattenInjective` that tree is unique.

Points of the code that the model makes explicit:

- **Brainfuck tape.** The Brainfuck `exec` does not use `Tp`. It applies
  plain `u8` and `usize` arithmetic and indexing to its own tape, and in a
  debug build those panic.
- **`print` and `read`.** `Tp::print` and `Tp::read` index without the
  `is_ptr_vld` guard that `inc`/`dec` use. A Sus program that moves the
  pointer off the tape and then prints therefore panics, while `+` and `-`
  there do nothing (`Tape.PointerLeavesTape`, `Tape.Emitted`).
- **Error module name.** `src/brainfuck/mod.rs:4` imports the error enum
  from `crate::interpreter_error`, but `src/lib.rs` declares only
  `interp_err`. The model keeps both enums (`Errors.InterpreterError`
  for Brainfuck, `Errors.InterpErr` for `Tp`) as the files write them.

## Model

| member | source | states |
|---|---|---|
| Brainfuck.Token | src/brainfuck/mod.rs:51-61 | a byte that yields a token is that token's own symbol, and the token is never `Lp` |
| Brainfuck.SymbolToken | src/brainfuck/mod.rs:51-61 | conversely, each of the eight symbol bytes yields its own token |
| Brainfuck.Lexed | src/brainfuck/mod.rs:46-71 | lexing never produces more tokens than bytes and never produces an `Lp` node |
| Brainfuck.Spelled | src/brainfuck/mod.rs:51-61 | spelling flat tokens back as bytes gives one byte per token |
| Brainfuck.SpelledLexed | src/brainfuck/mod.rs:46-71 | lexing keeps exactly the symbol bytes, in order: spelling the tokens gives the source with all other bytes removed |
| Brainfuck.LexedSpelled | src/brainfuck/mod.rs:46-71 | round trip: lexing the spelling of any flat token sequence gives it back |
| Brainfuck.LexedAppend | src/brainfuck/mod.rs:50-68 | lexing works byte by byte: lexing a concatenation concatenates the lexings |
| Brainfuck.Lex | src/brainfuck/mod.rs:46-71 | the loop over `inpt` returns exactly `Lexed(inpt)` |
| BrainfuckParse.Flatten | src/brainfuck/mod.rs:80-114 | flattening a tree back to tokens gives at least as many tokens as nodes, none of them `Lp` |
| BrainfuckParse.StripFlat | src/brainfuck/mod.rs:86 | dropping `Lp` tokens from a lexer output changes nothing |
| BrainfuckParse.FlattenBalanced | src/brainfuck/mod.rs:103-111 | every tree flattens to a bracket-balanced token sequence |
| BrainfuckParse.FlattenInjective | src/brainfuck/mod.rs:73-122 | two trees with the same flattening are equal, so the tree `parse` returns is the only one for its input |
| BrainfuckParse.InnerBalanced | src/brainfuck/mod.rs:109-110 | the slice between a loop start and the marker that brings the counter back to 0 is balanced, so the recursive `parse` on it cannot fail |
| BrainfuckParse.Parse | src/brainfuck/mod.rs:73-122 | succeeds iff the brackets balance; on success returns a tree that flattens to the input minus its `Lp` tokens; otherwise `UnexpectedLoopEnd` if some prefix closes more than it opens, else `NoLoopEnd` |
| BrainfuckExec.CellDec | src/brainfuck/mod.rs:24 | `-` keeps the tape length, only appends output, only consumes input from the front, and never runs out of fuel; its exact effect is `CellDecEffect` |
| BrainfuckExec.CellInc | src/brainfuck/mod.rs:26 | `+` keeps the tape length, only appends output, only consumes input from the front, and never runs out of fuel; its exact effect is `CellIncEffect` |
| BrainfuckExec.PtrDec | src/brainfuck/mod.rs:25 | `<` keeps the tape length, only appends output, only consumes input from the front, and never runs out of fuel; its exact effect is `PtrDecEffect` |
| BrainfuckExec.PtrInc | src/brainfuck/mod.rs:27 | `>` keeps the tape length, only appends output, only consumes input from the front, and never runs out of fuel; its exact effect is `PtrIncEffect` |
| BrainfuckExec.Print | src/brainfuck/mod.rs:28 | `.` keeps the tape length, only appends output, only consumes input from the front, and never runs out of fuel |
| BrainfuckExec.Read | src/brainfuck/mod.rs:34-38 | `,` keeps the tape length, only appends output, only consumes input from the front, and never runs out of fuel |
| BrainfuckExec.Step | src/brainfuck/mod.rs:22-40 | every non-loop instruction extends the machine (tape length kept, output appended, input consumed) and never runs out of fuel |
| BrainfuckExec.CellDecEffect | src/brainfuck/mod.rs:24 | `-` off the tape panics with index out of bounds and on 0 with the subtraction overflow, both changing nothing; otherwise the current cell goes down by one and nothing else changes |
| BrainfuckExec.CellIncEffect | src/brainfuck/mod.rs:26 | `+` off the tape panics with index out of bounds and on 255 with the addition overflow, both changing nothing; otherwise the current cell goes up by one and nothing else changes |
| BrainfuckExec.PtrDecEffect | src/brainfuck/mod.rs:25 | `<` at 0 panics with the subtraction overflow and changes nothing; otherwise it succeeds and only the pointer moves, down by one |
| BrainfuckExec.PtrIncEffect | src/brainfuck/mod.rs:27 | `>` at `usize::MAX` panics with the addition overflow and changes nothing; otherwise it succeeds and only the pointer moves, up by one, with no check against the tape length |
| BrainfuckExec.PrintEffect | src/brainfuck/mod.rs:28 | `.` off the tape panics and changes nothing; otherwise it appends exactly the current byte as a character and changes nothing else |
| BrainfuckExec.ReadEffect | src/brainfuck/mod.rs:34-38 | `,` on empty input fails with end of file and changes nothing; otherwise it consumes one byte and stores it in the current cell, other cells unchanged, or, off the tape, panics after consuming it with the cells unchanged |
| BrainfuckExec.StrayMarkers | src/brainfuck/mod.rs:39 | a `[` or `]` outside a loop node falls into the catch-all arm and does nothing |
| BrainfuckExec.CellStepsInverse | src/brainfuck/mod.rs:24-26 | a successful `+` is undone by `-`, and a successful `-` by `+` |
| BrainfuckExec.PtrStepsInverse | src/brainfuck/mod.rs:25-27 | a successful `>` is undone by `<`, and a successful `<` by `>` |
| BrainfuckExec.Executed | src/brainfuck/mod.rs:20-44 | the tree walk: any run, finished or not, keeps the tape length |
| BrainfuckExec.Looped | src/brainfuck/mod.rs:29-33 | the `while mem[*ptr] != 0` loop: it keeps the tape length, and when it ends normally the pointer is on the tape, on a zero cell |
| BrainfuckExec.ExecutedExtends | src/brainfuck/mod.rs:20-44 | any run, finished or not, keeps the tape length, only appends output and only consumes input |
| BrainfuckExec.LoopedExtends | src/brainfuck/mod.rs:29-33 | the same for one loop activation |
| BrainfuckExec.ExecutedAppend | src/brainfuck/mod.rs:22-43 | commands run in order and the first failure (the `?`) ends the run: `a + b` runs `a`, then `b` only if `a` ended normally |
| BrainfuckExec.ExecutedFuel | src/brainfuck/mod.rs:20-44 | a run that did not run out of fuel gives the same result with any larger fuel |
| BrainfuckExec.LoopedFuel | src/brainfuck/mod.rs:29-33 | the same for one loop activation |
| BrainfuckExec.LoopedIterations | src/brainfuck/mod.rs:30-32 | a loop that ends normally is its body repeated once per nonzero test of the cell, and the cell was nonzero before each repetition |
| BrainfuckExec.ClearLoop | src/brainfuck/mod.rs:29-33 | `[-]` sets the current cell to zero and changes nothing else |
| BrainfuckExec.Apply | src/brainfuck/mod.rs:24-39 | the non-loop arms applied in place to the array equal `Step` on the old contents |
| BrainfuckExec.ApplyCell | src/brainfuck/mod.rs:24-26 | `-` and `+` applied in place equal `Step` on the old contents |
| BrainfuckExec.ApplyRead | src/brainfuck/mod.rs:34-38 | `,` applied in place equals `Step` on the old contents and input |
| BrainfuckExec.Loop | src/brainfuck/mod.rs:29-33 | the `while mem[*ptr] != 0` arm run in place leaves the tape, pointer, input and output, and returns the status, exactly as `Looped` gives them for the old state |
| BrainfuckExec.Exec | src/brainfuck/mod.rs:20-44 | the in-place tree walk leaves the tape, pointer, input and output, and returns the status, exactly as `Executed` gives them for the old state |
| BrainfuckRun.Run | src/brainfuck/mod.rs:125-137 | unbalanced source fails with the parse error and writes nothing; otherwise the output and status are those of executing, on 2048 zero cells with the pointer at 1024, a tree that flattens to the lexed tokens |
| BrainfuckRun.EchoProgram | src/brainfuck/mod.rs:125-137 | `,.` with input byte 65 stores 65 in cell 1024 and writes `A` |
| BrainfuckRun.UnmatchedCloseProgram | src/brainfuck/mod.rs:92-94 | a lone `]` is an unmatched loop end |
| BrainfuckRun.UnclosedOpenProgram | src/brainfuck/mod.rs:118-120 | a lone `[` never finds its loop end |
| BrainfuckRun.EmptyLoopProgram | src/brainfuck/mod.rs:103-111 | `[]` is one loop node with an empty body |
| Tape.InitialTape | src/tp.rs:17-22 | 2048 cells, all zero, pointer on cell 1024 |
| Tape.CellDec | src/tp.rs:31-41 | the pointer and every other cell unchanged; off the tape a successful no-op; on 0 fails with `SubOvflw` and changes nothing; otherwise the cell goes down by one |
| Tape.CellInc | src/tp.rs:55-65 | the pointer and every other cell unchanged; off the tape a successful no-op; on `u32::MAX` fails with `AddOvflw` and changes nothing; otherwise the cell goes up by one |
| Tape.PtrDec | src/tp.rs:43-49 | the cells unchanged; fails with `SubOvflw` exactly at pointer 0 and then changes nothing; otherwise succeeds and only the pointer goes down by one |
| Tape.PtrInc | src/tp.rs:67-73 | the cells unchanged; fails with `AddOvflw` exactly at `usize::MAX`, changing nothing; otherwise succeeds and only the pointer goes up by one, with no bounds check against the tape |
| Tape.Emitted | src/tp.rs:75-82 | off the tape panics with index out of bounds; on the tape writes exactly one character when the cell is at most 255, and none otherwise |
| Tape.Stored | src/tp.rs:84-90 | with no input fails with end of file and changes nothing; otherwise consumes one byte; stores it in the current cell when the pointer is valid, and panics after consuming it when not; other cells and the pointer unchanged |
| Tape.IncThenDec | src/tp.rs:31-65 | a successful `inc` is undone by `dec` |
| Tape.DecThenInc | src/tp.rs:31-65 | a successful `dec` is undone by `inc` |
| Tape.PtrMovesInverse | src/tp.rs:43-73 | a successful `inc_ptr` is undone by `dec_ptr`, and the other way round |
| Tape.PointerLeavesTape | src/tp.rs:55-73 | from the last cell `inc_ptr` succeeds and leaves the tape; there `inc` and `dec` succeed without effect, and `dec_ptr` returns to the starting state |
| Tape.Tp.constructor | src/tp.rs:17-22 | a new tape object is in the initial state and has its 2048 cells, which every method keeps (`Valid`) |
| Tape.Tp.IsPtrValid | src/tp.rs:92-98 | true iff the pointer is below the tape length |
| Tape.Tp.Get | src/tp.rs:51-53 | the value of the current cell |
| Tape.Tp.Dec | src/tp.rs:31-41 | the outcome and new state are `CellDec` of the old state |
| Tape.Tp.DecPtr | src/tp.rs:43-49 | the outcome and new state are `PtrDec` of the old state, and only the pointer changes |
| Tape.Tp.Inc | src/tp.rs:55-65 | the outcome and new state are `CellInc` of the old state |
| Tape.Tp.IncPtr | src/tp.rs:67-73 | the outcome and new state are `PtrInc` of the old state, and only the pointer changes |
| Tape.Tp.Print | src/tp.rs:75-82 | the outcome and output are as `Emitted` says, and nothing changes |
| Tape.Tp.Read | src/tp.rs:84-90 | the outcome, new state and remaining input are as `Stored` says |
| Sus.Token | src/sus/mod.rs:34-41 | a byte that yields a token is that token's own symbol |
| Sus.SymbolToken | src/sus/mod.rs:34-41 | conversely, each of `> < + - \|` yields its own token |
| Sus.Lexed | src/sus/mod.rs:29-51 | lexing never produces more tokens than bytes |
| Sus.Spelled | src/sus/mod.rs:34-41 | spelling tokens gives one byte per token |
| Sus.SpelledLexed | src/sus/mod.rs:29-51 | lexing keeps exactly the five symbol bytes, in order |
| Sus.LexedSpelled | src/sus/mod.rs:29-51 | round trip: lexing the spelling of any token sequence gives it back |
| Sus.Lex | src/sus/mod.rs:29-51 | the loop over `inpt` returns exactly `Lexed(inpt)` |
| Sus.Apply | src/sus/mod.rs:17-23 | every instruction keeps the tape length and only appends output; `\|` leaves the tape unchanged |
| Sus.Executed | src/sus/mod.rs:15-27 | a run keeps the tape length and only appends output |
| Sus.ExecutedAppend | src/sus/mod.rs:16-26 | commands run in order and the first failure ends the run |
| Sus.PointerDisplacement | src/sus/mod.rs:15-27 | a run that ends normally moves the pointer right once per `>` and left once per `<` |
| Sus.Exec | src/sus/mod.rs:15-27 | running over a `Tp` object gives the outcome, tape and output `Executed` gives for the old tape, and keeps the same cell array |
| Sus.Run | src/sus/mod.rs:53-63 | the outcome and output are those of executing the lexed program on a new tape |

## Left out

- Command-line handling, file-extension dispatch and reading the program file (`src/main.rs`, `src/lib.rs`) are not part of this model.
- Real standard input and output are replaced by sequences. The UTF-8 encoding `print!` applies to characters 128 to 255, and the flush behaviour of the console, are not modelled.
- The debug line `println!("CMDS = …")` in Sus `run` (`src/sus/mod.rs:55`) writes host-formatted debug text, so it is left out of the modelled output.
- `Tp::dbg` and `TpDbg` (`src/tp.rs:9-29`) are debugging aids outside the interpreting core. The `Display` implementations of the error enums are formatting only.
- A release build wraps the Brainfuck `exec` arithmetic (`u8` cells, `usize` pointer) around where a debug build panics. For that arithmetic the model follows the debug build.
- `usize` is taken as 64 bits wide.
- BrainfuckExec.Executed: a Brainfuck program may not terminate, so execution is bounded by fuel and ends with `OutOfFuel` where the source would keep running. `ExecutedFuel` shows that fuel never changes a run that finishes.
- BrainfuckParse.Parse: the `?` on the recursive `parse` call is never taken, because the inner slice is always balanced (`InnerBalanced`), so the model asserts that instead of propagating an error.
- BrainfuckParse.Parse: its nesting counter `lp_stck` is an `int` here. In the source it is inferred as `i32`, so in a debug build more than 2^31 - 1 simultaneously open loops panic on `lp_stck += 1`, where the model still succeeds.
- BrainfuckParse.Parse and BrainfuckExec.Exec: the source recurses once per loop nesting level (the recursive `parse` and `exec` calls). Exhausting the native stack on very deep nesting is not modelled, so the model succeeds where the process would abort.
- Tape.Tp.Get: requires a valid pointer, because the source indexes without a check and no caller in the core uses it.
