/** The Sus variant (src/sus/mod.rs): five loop-free instructions run
    straight through on the checked tape `Tp`. */
module Sus {
  import opened Ints
  import opened Errors
  import opened Tape

  datatype Cmd = Dec | DecPtr | Inc | IncPtr | Ld

  /** The token one source byte stands for, if any: `> < + - |`. */
  function Token(b: u8): (r: Option<Cmd>)
    ensures r.Some? ==> Symbol(r.value) == b
  {
    match b as char
    case '>' => Some(IncPtr)
    case '<' => Some(DecPtr)
    case '+' => Some(Inc)
    case '-' => Some(Dec)
    case '|' => Some(Ld)
    case _ => None
  }

  /** The byte a token is written with. */
  function Symbol(c: Cmd): u8 {
    match c
    case IncPtr => '>' as int
    case DecPtr => '<' as int
    case Inc => '+' as int
    case Dec => '-' as int
    case Ld => '|' as int
  }

  lemma SymbolToken(c: Cmd)
    ensures Token(Symbol(c)) == Some(c)
  {
  }

  /** The tokens of `s`, in order: the lexer's specification. */
  function Lexed(s: seq<u8>): (r: seq<Cmd>)
    ensures |r| <= |s|
  {
    if s == [] then []
    else
      var init := Lexed(s[..|s| - 1]);
      match Token(s[|s| - 1])
      case Some(c) => init + [c]
      case None => init
  }

  /** The bytes of `s` that are Sus symbols, in order. */
  function Symbols(s: seq<u8>): seq<u8> {
    if s == [] then []
    else Symbols(s[..|s| - 1]) + (if Token(s[|s| - 1]).Some? then [s[|s| - 1]] else [])
  }

  /** The source text a token sequence is written as. */
  function Spelled(cmds: seq<Cmd>): (r: seq<u8>)
    ensures |r| == |cmds|
  {
    if cmds == [] then [] else Spelled(cmds[..|cmds| - 1]) + [Symbol(cmds[|cmds| - 1])]
  }

  /** Writing back the lexed tokens gives exactly the Sus symbols of the
      input, in order; every other byte, the Brainfuck-only `. , [ ]`
      included, is dropped. */
  lemma {:induction false} SpelledLexed(s: seq<u8>)
    ensures Spelled(Lexed(s)) == Symbols(s)
  {
    if s != [] {
      var init := s[..|s| - 1];
      SpelledLexed(init);
      match Token(s[|s| - 1])
      case Some(c) =>
        assert Lexed(s)[..|Lexed(s)| - 1] == Lexed(init);
      case None =>
    }
  }

  /** Lexing the text of a token sequence gives that sequence back. */
  lemma {:induction false} LexedSpelled(cmds: seq<Cmd>)
    ensures Lexed(Spelled(cmds)) == cmds
  {
    if cmds != [] {
      LexedSpelled(cmds[..|cmds| - 1]);
      var s := Spelled(cmds);
      assert s[..|s| - 1] == Spelled(cmds[..|cmds| - 1]);
      SymbolToken(cmds[|cmds| - 1]);
    }
  }

  /** `lex`: scans the input byte by byte, pushing the token of every
      symbol byte and skipping every other byte; it cannot fail. */
  method Lex(inpt: seq<u8>) returns (cmds: seq<Cmd>)
    ensures cmds == Lexed(inpt)
  {
    cmds := [];
    var off := 0;
    while off < |inpt|
      invariant 0 <= off <= |inpt|
      invariant cmds == Lexed(inpt[..off])
    {
      var cmd := Token(inpt[off]);
      assert inpt[..off + 1][..off] == inpt[..off];
      if cmd.Some? {
        cmds := cmds + [cmd.value];
      }
      off := off + 1;
    }
    assert inpt[..off] == inpt;
  }

  /** The state of a run: how it ended so far, the tape, the output. */
  datatype Exit = Exit(outcome: Outcome, tape: TapeState, output: seq<char>)

  /** One instruction: the matching `Tp` method. */
  function Apply(c: Cmd, t: TapeState, output: seq<char>): (r: Exit)
    ensures |r.tape.mem| == |t.mem|
    ensures c == Ld ==> r.tape == t
    ensures output <= r.output
  {
    match c
    case Dec => var (o, t') := CellDec(t); Exit(o, t', output)
    case DecPtr => var (o, t') := PtrDec(t); Exit(o, t', output)
    case Inc => var (o, t') := CellInc(t); Exit(o, t', output)
    case IncPtr => var (o, t') := PtrInc(t); Exit(o, t', output)
    case Ld => var (o, e) := Emitted(t); Exit(o, t, output + e)
  }

  /** `exec`: one step per token, stopping at the first failure. */
  function Executed(cmds: seq<Cmd>, t: TapeState, output: seq<char>): (r: Exit)
    ensures |r.tape.mem| == |t.mem|
    ensures output <= r.output
  {
    if cmds == [] then Exit(Pass, t, output)
    else
      var first := Apply(cmds[0], t, output);
      if first.outcome.Fail? then first else Executed(cmds[1..], first.tape, first.output)
  }

  /** The commands run in order and the first failure ends the run: what
      ran before it stays done and nothing after it runs. */
  lemma {:induction false} ExecutedAppend(a: seq<Cmd>, b: seq<Cmd>, t: TapeState, output: seq<char>)
    ensures Executed(a + b, t, output) ==
      var ra := Executed(a, t, output);
      if ra.outcome.Fail? then ra else Executed(b, ra.tape, ra.output)
  {
    if a == [] {
      assert a + b == b;
    } else {
      assert (a + b)[0] == a[0] && (a + b)[1..] == a[1..] + b;
      var first := Apply(a[0], t, output);
      if first.outcome.Pass? {
        ExecutedAppend(a[1..], b, first.tape, first.output);
      }
    }
  }

  function Count(cmds: seq<Cmd>, c: Cmd): nat {
    if cmds == [] then 0 else Count(cmds[..|cmds| - 1], c) + (if cmds[|cmds| - 1] == c then 1 else 0)
  }

  lemma {:induction false} CountCons(c: Cmd, cmds: seq<Cmd>, d: Cmd)
    ensures Count([c] + cmds, d) == (if c == d then 1 else 0) + Count(cmds, d)
  {
    if cmds != [] {
      CountCons(c, cmds[..|cmds| - 1], d);
      assert ([c] + cmds)[..|[c] + cmds| - 1] == [c] + cmds[..|cmds| - 1];
    } else {
      assert [c] + cmds == [c] && [c][..0] == [];
    }
  }

  /** A run that ends normally leaves the pointer moved right once per `>`
      and left once per `<`. */
  lemma {:induction false} PointerDisplacement(cmds: seq<Cmd>, t: TapeState, output: seq<char>)
    requires Executed(cmds, t, output).outcome == Pass
    ensures Executed(cmds, t, output).tape.ptr == t.ptr + Count(cmds, IncPtr) - Count(cmds, DecPtr)
  {
    if cmds != [] {
      var first := Apply(cmds[0], t, output);
      PointerDisplacement(cmds[1..], first.tape, first.output);
      assert cmds == [cmds[0]] + cmds[1..];
      CountCons(cmds[0], cmds[1..], IncPtr);
      CountCons(cmds[0], cmds[1..], DecPtr);
    }
  }

  /** `exec` over the tape object: the outcome, the new tape and the output
      are what `Executed` says; the tape array itself is never replaced. */
  method Exec(cmds: seq<Cmd>, tp: Tp, output0: seq<char>) returns (r: Outcome, output: seq<char>)
    requires tp.Valid()
    modifies tp, tp.mem
    ensures tp.Valid() && tp.mem == old(tp.mem)
    ensures Exit(r, tp.State(), output) == Executed(cmds, old(tp.State()), output0)
  {
    output := output0;
    for i := 0 to |cmds|
      invariant tp.Valid() && tp.mem == old(tp.mem)
      invariant Executed(cmds[i..], tp.State(), output) == Executed(cmds, old(tp.State()), output0)
    {
      assert cmds[i..][0] == cmds[i] && cmds[i..][1..] == cmds[i + 1..];
      match cmds[i] {
        case Dec => r := tp.Dec();
        case DecPtr => r := tp.DecPtr();
        case Inc => r := tp.Inc();
        case IncPtr => r := tp.IncPtr();
        case Ld => r, output := tp.Print(output);
      }
      if r.Fail? {
        return;
      }
    }
    r := Pass;
  }

  /** `run`: lex, then execute on a new tape. */
  method Run(inpt: seq<u8>) returns (r: Outcome, output: seq<char>)
    ensures var e := Executed(Lexed(inpt), InitialTape(), []); r == e.outcome && output == e.output
  {
    var cmds := Lex(inpt);
    var tp := new Tp();
    r, output := Exec(cmds, tp, []);
  }
}
