/** `run` in src/brainfuck/mod.rs: lex, parse, then execute on a fresh
    tape. */
module BrainfuckRun {
  import opened Ints
  import opened Errors
  import opened Brainfuck
  import opened BrainfuckParse
  import opened BrainfuckExec

  const MEM_LEN: nat := 2048
  const PTR_START: usize := 1024

  /** The machine `run` executes on: 2048 zero cells, the pointer on cell
      1024, nothing read and nothing written yet. */
  function Initial(input: seq<u8>): Machine {
    Machine(seq(MEM_LEN, _ => 0), PTR_START, input, [])
  }

  /** `run`: a source whose markers do not balance fails with the parse
      error before any tape exists, so nothing is executed, read or
      written; otherwise the unique tree that flattens to the tokens runs
      on the initial machine. */
  method Run(inpt: seq<u8>, input: seq<u8>, fuel: nat) returns (status: Status, output: seq<char>)
    ensures !Balanced(Lexed(inpt)) ==>
      status == Failed(Interpreter(if NeverNegative(Lexed(inpt)) then NoLoopEnd else UnexpectedLoopEnd)) && output == []
    ensures Balanced(Lexed(inpt)) ==>
      exists tree :: IsTree(tree) && Flatten(tree) == Lexed(inpt)
        && Executed(tree, Initial(input), fuel).status == status
        && Executed(tree, Initial(input), fuel).m.output == output
  {
    var cmds := Lex(inpt);
    var parsedCmds := Parse(cmds);
    if parsedCmds.Err? {
      return Failed(parsedCmds.error), [];
    }
    StripFlat(cmds);
    var mem := new u8[MEM_LEN](_ => 0);
    assert mem[..] == Initial(input).mem;
    var ptr, rest;
    status, ptr, rest, output := Exec(parsedCmds.value, mem, PTR_START, input, [], fuel);
  }

  /** `,.` with the input byte 65 echoes `A`. */
  lemma EchoProgram()
    ensures Lexed([',' as u8, '.' as u8]) == [St, Ld]
    ensures IsTree([St, Ld]) && Flatten([St, Ld]) == [St, Ld]
    ensures Executed([St, Ld], Initial([65]), 0) ==
      Exit(Done, Machine(Initial([65]).mem[PTR_START := 65], PTR_START, [], ['A']))
  {
    assert Flatten([St, Ld])[..0] == [];
    assert [',' as u8, '.' as u8][..1] == [',' as u8];
    assert [St, Ld][1..][1..] == [];
  }

  /** A lone `]` is an unmatched loop end, so `run` rejects it before
      touching a tape. */
  lemma UnmatchedCloseProgram()
    ensures Lexed([']' as u8]) == [LpEn]
    ensures !NeverNegative([LpEn])
  {
    assert [LpEn][..1] == [LpEn];
    assert Depth([LpEn][..1]) < 0;
  }

  /** A lone `[` never finds its loop end. */
  lemma UnclosedOpenProgram()
    ensures Lexed(['[' as u8]) == [LpBg]
    ensures NeverNegative([LpBg]) && !Balanced([LpBg])
  {
    assert [LpBg][..1] == [LpBg];
    assert [LpBg][..0] == [];
  }

  /** `[]` parses to one loop node with an empty body. */
  lemma EmptyLoopProgram()
    ensures Lexed(['[' as u8, ']' as u8]) == [LpBg, LpEn]
    ensures IsTree([Lp([])]) && Flatten([Lp([])]) == [LpBg, LpEn]
  {
    assert ['[' as u8, ']' as u8][..1] == ['[' as u8];
    assert Flatten([Lp([])])[..0] == [];
    assert [Lp([])][..0] == [];
  }
}
