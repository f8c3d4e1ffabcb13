/** The Brainfuck instruction set and its lexer (src/brainfuck/mod.rs). */
module Brainfuck {
  import opened Ints

  /** One instruction. The lexer emits every variant but `Lp`; the parser
      turns each matched `LpBg` ... `LpEn` pair into one `Lp` node. */
  datatype Cmd =
    | Dec
    | DecPtr
    | Inc
    | IncPtr
    | Lp(body: seq<Cmd>)
    | LpBg
    | LpEn
    | Ld
    | St

  /** A token sequence with no `Lp` node: what the lexer produces. */
  predicate Flat(ts: seq<Cmd>) {
    forall i :: 0 <= i < |ts| ==> !ts[i].Lp?
  }

  /** The token one source byte stands for, if any. */
  function Token(b: u8): (r: Option<Cmd>)
    ensures r.Some? ==> !r.value.Lp? && Symbol(r.value) == b
  {
    match b as char
    case '>' => Some(IncPtr)
    case '<' => Some(DecPtr)
    case '+' => Some(Inc)
    case '-' => Some(Dec)
    case '.' => Some(Ld)
    case ',' => Some(St)
    case '[' => Some(LpBg)
    case ']' => Some(LpEn)
    case _ => None
  }

  predicate IsSymbol(b: u8) {
    Token(b).Some?
  }

  /** The byte a token is written with in the source. */
  function Symbol(c: Cmd): u8
    requires !c.Lp?
  {
    match c
    case IncPtr => '>' as int
    case DecPtr => '<' as int
    case Inc => '+' as int
    case Dec => '-' as int
    case Ld => '.' as int
    case St => ',' as int
    case LpBg => '[' as int
    case LpEn => ']' as int
  }

  lemma SymbolToken(c: Cmd)
    requires !c.Lp?
    ensures Token(Symbol(c)) == Some(c)
  {
  }

  /** The tokens of `s`, in order: the lexer's specification. */
  function Lexed(s: seq<u8>): (r: seq<Cmd>)
    ensures |r| <= |s| && Flat(r)
  {
    if s == [] then []
    else
      var init := Lexed(s[..|s| - 1]);
      match Token(s[|s| - 1])
      case Some(c) => init + [c]
      case None => init
  }

  /** The bytes of `s` that are instruction symbols, in order. */
  function Symbols(s: seq<u8>): seq<u8> {
    if s == [] then []
    else Symbols(s[..|s| - 1]) + (if IsSymbol(s[|s| - 1]) then [s[|s| - 1]] else [])
  }

  /** The source text a flat token sequence is written as. */
  function Spelled(ts: seq<Cmd>): (r: seq<u8>)
    requires Flat(ts)
    ensures |r| == |ts|
  {
    if ts == [] then [] else Spelled(ts[..|ts| - 1]) + [Symbol(ts[|ts| - 1])]
  }

  /** Writing back the lexed tokens gives exactly the symbol bytes of the
      input: every symbol maps to one token, in order, and every other byte
      is dropped. */
  lemma {:induction false} SpelledLexed(s: seq<u8>)
    ensures Spelled(Lexed(s)) == Symbols(s)
    ensures |Lexed(s)| == |Symbols(s)|
  {
    if s != [] {
      var init := s[..|s| - 1];
      SpelledLexed(init);
      var b := s[|s| - 1];
      match Token(b)
      case Some(c) =>
        assert Lexed(s) == Lexed(init) + [c];
        assert Lexed(s)[..|Lexed(s)| - 1] == Lexed(init);
      case None =>
    }
  }

  /** Lexing the text of a flat token sequence gives that sequence back. */
  lemma {:induction false} LexedSpelled(ts: seq<Cmd>)
    requires Flat(ts)
    ensures Lexed(Spelled(ts)) == ts
  {
    if ts != [] {
      var init := ts[..|ts| - 1];
      LexedSpelled(init);
      var s := Spelled(ts);
      assert s[..|s| - 1] == Spelled(init);
      SymbolToken(ts[|ts| - 1]);
    }
  }

  /** Lexing distributes over concatenation of source texts. */
  lemma {:induction false} LexedAppend(a: seq<u8>, b: seq<u8>)
    ensures Lexed(a + b) == Lexed(a) + Lexed(b)
  {
    if b == [] {
      assert a + b == a;
    } else {
      var init := b[..|b| - 1];
      LexedAppend(a, init);
      assert (a + b)[..|a + b| - 1] == a + init;
    }
  }

  /** `lex`: scans the input byte by byte, pushing the token of every
      symbol byte and skipping every other byte; it cannot fail. */
  method Lex(inpt: seq<u8>) returns (cmds: seq<Cmd>)
    ensures cmds == Lexed(inpt)
  {
    cmds := [];
    var off := 0;
    while off < |inpt|
      invariant 0 <= off <= |inpt|
      invariant cmds == Lexed(inpt[..off])
    {
      var cmd := Token(inpt[off]);
      assert inpt[..off + 1][..off] == inpt[..off];
      if cmd.Some? {
        cmds := cmds + [cmd.value];
      }
      off := off + 1;
    }
    assert inpt[..off] == inpt;
  }
}
