/** The checked tape `Tp` (src/tp.rs): a vector of `u32` cells and a
    `usize` pointer. Cell arithmetic is checked and fails with
    `AddOvflw` / `SubOvflw`, and is skipped when the pointer is past the
    tape; pointer moves are checked against the `usize` range only, never
    against the tape length. */
module Tape {
  import opened Ints
  import opened Errors

  const MEM_LEN: nat := 2048
  const PTR_START: usize := 1024

  /** The value of a tape: its cells and its pointer. */
  datatype TapeState = TapeState(mem: seq<u32>, ptr: usize)

  /** `is_ptr_vld`: the tape has a cell at the current position. */
  predicate PtrValid(t: TapeState) {
    t.ptr < |t.mem|
  }

  /** The tape `Tp::new` builds. */
  function InitialTape(): (t: TapeState)
    ensures |t.mem| == MEM_LEN && t.ptr == PTR_START && PtrValid(t)
    ensures forall i :: 0 <= i < |t.mem| ==> t.mem[i] == 0
  {
    TapeState(seq(MEM_LEN, _ => 0), PTR_START)
  }

  /** `dec`: subtracts 1 from the current cell only, fails with `SubOvflw`
      on a zero cell leaving the tape as it was, and does nothing when the
      pointer is past the tape. */
  function CellDec(t: TapeState): (r: (Outcome, TapeState))
    ensures r.1.ptr == t.ptr && |r.1.mem| == |t.mem|
    ensures forall i :: 0 <= i < |t.mem| && i != t.ptr ==> r.1.mem[i] == t.mem[i]
    ensures !PtrValid(t) ==> r == (Pass, t)
    ensures PtrValid(t) && t.mem[t.ptr] == 0 ==> r == (Fail(Interp(SubOvflw)), t)
    ensures PtrValid(t) && t.mem[t.ptr] > 0 ==> r.0 == Pass && r.1.mem[t.ptr] == t.mem[t.ptr] - 1
  {
    if PtrValid(t) then
      match CheckedSubU32(t.mem[t.ptr], 1)
      case None => (Fail(Interp(SubOvflw)), t)
      case Some(op) => (Pass, t.(mem := t.mem[t.ptr := op]))
    else (Pass, t)
  }

  /** `inc`: adds 1 to the current cell only, fails with `AddOvflw` on a
      cell holding `u32::MAX` leaving the tape as it was, and does nothing
      when the pointer is past the tape. */
  function CellInc(t: TapeState): (r: (Outcome, TapeState))
    ensures r.1.ptr == t.ptr && |r.1.mem| == |t.mem|
    ensures forall i :: 0 <= i < |t.mem| && i != t.ptr ==> r.1.mem[i] == t.mem[i]
    ensures !PtrValid(t) ==> r == (Pass, t)
    ensures PtrValid(t) && t.mem[t.ptr] == U32_MAX ==> r == (Fail(Interp(AddOvflw)), t)
    ensures PtrValid(t) && t.mem[t.ptr] < U32_MAX ==> r.0 == Pass && r.1.mem[t.ptr] == t.mem[t.ptr] + 1
  {
    if PtrValid(t) then
      match CheckedAddU32(t.mem[t.ptr], 1)
      case None => (Fail(Interp(AddOvflw)), t)
      case Some(op) => (Pass, t.(mem := t.mem[t.ptr := op]))
    else (Pass, t)
  }

  /** `dec_ptr`: fails with `SubOvflw` at 0, otherwise moves one cell left;
      the cells are never touched. */
  function PtrDec(t: TapeState): (r: (Outcome, TapeState))
    ensures r.1.mem == t.mem
    ensures r.0 == Fail(Interp(SubOvflw)) <==> t.ptr == 0
    ensures r.0.Fail? ==> r.1 == t
    ensures t.ptr > 0 ==> r == (Pass, t.(ptr := t.ptr - 1))
  {
    match CheckedSubUsize(t.ptr, 1)
    case None => (Fail(Interp(SubOvflw)), t)
    case Some(op) => (Pass, t.(ptr := op))
  }

  /** `inc_ptr`: moves one cell right whatever the tape length, failing
      with `AddOvflw` only at `usize::MAX`; the cells are never touched. */
  function PtrInc(t: TapeState): (r: (Outcome, TapeState))
    ensures r.1.mem == t.mem
    ensures r.0 == Fail(Interp(AddOvflw)) <==> t.ptr == USIZE_MAX
    ensures r.0.Fail? ==> r.1 == t
    ensures t.ptr < USIZE_MAX ==> r == (Pass, t.(ptr := t.ptr + 1))
  {
    match CheckedAddUsize(t.ptr, 1)
    case None => (Fail(Interp(AddOvflw)), t)
    case Some(op) => (Pass, t.(ptr := op))
  }

  /** `print`: what it writes. A cell up to 255 is written as one
      character with that code; a larger cell writes nothing; indexing
      past the tape panics. The tape is not an output of `print`. */
  function Emitted(t: TapeState): (r: (Outcome, seq<char>))
    ensures r.0.Fail? <==> !PtrValid(t)
    ensures r.0.Fail? ==> r.0.error == Panic(IndexOutOfBounds)
    ensures |r.1| == 1 <==> PtrValid(t) && t.mem[t.ptr] <= U8_MAX
    ensures |r.1| <= 1 && (|r.1| == 1 ==> r.1[0] as int == t.mem[t.ptr])
  {
    if !PtrValid(t) then (Fail(Panic(IndexOutOfBounds)), [])
    else if t.mem[t.ptr] <= U8_MAX then (Pass, [t.mem[t.ptr] as char])
    else (Pass, [])
  }

  /** `read`: one byte is taken from the input (failing with end of file
      when there is none, before anything changes), then stored in the
      current cell widened to `u32`; indexing past the tape panics after
      the byte was consumed. */
  function Stored(t: TapeState, input: seq<u8>): (r: (Outcome, TapeState, seq<u8>))
    ensures input == [] ==> r == (Fail(Io(UnexpectedEof)), t, input)
    ensures input != [] ==> r.2 == input[1..]
    ensures r.1.ptr == t.ptr && |r.1.mem| == |t.mem|
    ensures forall i :: 0 <= i < |t.mem| && i != t.ptr ==> r.1.mem[i] == t.mem[i]
    ensures input != [] && !PtrValid(t) ==> r.0 == Fail(Panic(IndexOutOfBounds)) && r.1 == t
    ensures input != [] && PtrValid(t) ==> r.0 == Pass && r.1.mem[t.ptr] == input[0] <= U8_MAX
  {
    if input == [] then (Fail(Io(UnexpectedEof)), t, input)
    else if !PtrValid(t) then (Fail(Panic(IndexOutOfBounds)), t, input[1..])
    else (Pass, t.(mem := t.mem[t.ptr := input[0]]), input[1..])
  }

  /** A successful `inc` is undone by `dec`. */
  lemma IncThenDec(t: TapeState)
    requires CellInc(t).0 == Pass
    ensures CellDec(CellInc(t).1) == (Pass, t)
  {
    if PtrValid(t) {
      assert CellDec(CellInc(t).1).1.mem == t.mem;
    }
  }

  /** A successful `dec` is undone by `inc`. */
  lemma DecThenInc(t: TapeState)
    requires CellDec(t).0 == Pass
    ensures CellInc(CellDec(t).1) == (Pass, t)
  {
    if PtrValid(t) {
      assert CellInc(CellDec(t).1).1.mem == t.mem;
    }
  }

  /** A successful `inc_ptr` is undone by `dec_ptr`, and the other way round. */
  lemma PtrMovesInverse(t: TapeState)
    ensures PtrInc(t).0 == Pass ==> PtrDec(PtrInc(t).1) == (Pass, t)
    ensures PtrDec(t).0 == Pass ==> PtrInc(PtrDec(t).1) == (Pass, t)
  {
  }

  /** The pointer may leave the tape: from the last cell `inc_ptr` succeeds
      and the pointer is no longer valid, after which `inc` and `dec`
      succeed without effect, while `dec_ptr` brings it back. */
  lemma PointerLeavesTape(t: TapeState)
    requires |t.mem| == MEM_LEN && t.ptr == MEM_LEN - 1
    ensures var (o, t') := PtrInc(t);
      && o == Pass && !PtrValid(t')
      && CellInc(t') == (Pass, t') && CellDec(t') == (Pass, t')
      && PtrDec(t') == (Pass, t)
  {
  }

  /** `Tp`: the fields the source updates in place. */
  class Tp {
    var mem: array<u32>
    var ptr: usize

    /** The tape has the 2048 cells `new` gives it for its whole life: no
        method replaces or resizes it. */
    ghost predicate Valid()
      reads this
    {
      mem.Length == MEM_LEN
    }

    ghost function State(): TapeState
      reads this, mem
    {
      TapeState(mem[..], ptr)
    }

    /** `new`: 2048 zero cells, the pointer on cell 1024. */
    constructor ()
      ensures Valid() && State() == InitialTape() && fresh(mem)
    {
      mem := new u32[MEM_LEN](_ => 0);
      ptr := PTR_START;
    }

    /** `is_ptr_vld`. */
    predicate IsPtrValid()
      reads this
      ensures IsPtrValid() <==> ptr < mem.Length
    {
      mem.Length > ptr
    }

    /** `get`: the current cell; indexes without a check, so the pointer
        must be valid. */
    function Get(): (v: u32)
      reads this, mem
      requires IsPtrValid()
      ensures v == State().mem[State().ptr]
    {
      mem[ptr]
    }

    method Dec() returns (r: Outcome)
      requires Valid()
      modifies mem
      ensures Valid()
      ensures (r, State()) == CellDec(old(State()))
    {
      if IsPtrValid() {
        var op := CheckedSubU32(mem[ptr], 1);
        if op.None? {
          return Fail(Interp(SubOvflw));
        }
        mem[ptr] := op.value;
      }
      return Pass;
    }

    method DecPtr() returns (r: Outcome)
      requires Valid()
      modifies this`ptr
      ensures Valid()
      ensures (r, State()) == PtrDec(old(State()))
    {
      var op := CheckedSubUsize(ptr, 1);
      if op.None? {
        return Fail(Interp(SubOvflw));
      }
      ptr := op.value;
      return Pass;
    }

    method Inc() returns (r: Outcome)
      requires Valid()
      modifies mem
      ensures Valid()
      ensures (r, State()) == CellInc(old(State()))
    {
      if IsPtrValid() {
        var op := CheckedAddU32(mem[ptr], 1);
        if op.None? {
          return Fail(Interp(AddOvflw));
        }
        mem[ptr] := op.value;
      }
      return Pass;
    }

    method IncPtr() returns (r: Outcome)
      requires Valid()
      modifies this`ptr
      ensures Valid()
      ensures (r, State()) == PtrInc(old(State()))
    {
      var op := CheckedAddUsize(ptr, 1);
      if op.None? {
        return Fail(Interp(AddOvflw));
      }
      ptr := op.value;
      return Pass;
    }

    /** `print`: appends what `Emitted` says to the output; changes
        nothing in the tape. */
    method Print(output: seq<char>) returns (r: Outcome, output': seq<char>)
      ensures r == Emitted(State()).0 && output' == output + Emitted(State()).1
    {
      output' := output;
      if ptr >= mem.Length {
        return Fail(Panic(IndexOutOfBounds)), output';
      }
      if mem[ptr] <= U8_MAX {
        output' := output' + [mem[ptr] as char];
      }
      return Pass, output';
    }

    /** `read`: takes one byte of `input` and stores it, as `Stored` says. */
    method Read(input: seq<u8>) returns (r: Outcome, rest: seq<u8>)
      requires Valid()
      modifies mem
      ensures Valid()
      ensures (r, State(), rest) == Stored(old(State()), input)
    {
      if input == [] {
        return Fail(Io(UnexpectedEof)), input;
      }
      rest := input[1..];
      if ptr >= mem.Length {
        return Fail(Panic(IndexOutOfBounds)), rest;
      }
      mem[ptr] := input[0];
      return Pass, rest;
    }
  }
}
