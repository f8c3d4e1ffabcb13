/** Tree-walking execution of parsed Brainfuck (`exec` in
    src/brainfuck/mod.rs) over a byte tape and a pointer.

    Every unchecked operation of the source (`u8` and `usize` arithmetic,
    `mem[*ptr]` indexing) is a panic in a debug build; here each is the
    explicit failure `Panic(..)`, never a wrap-around. Standard input is
    the sequence of bytes not yet read and standard output the sequence
    of characters written so far. A loop may run forever, so the
    semantics carries fuel: one activation of a loop may run its body at
    most `fuel` times, and the k-th of those runs (counting from 1) gets
    `fuel - k`. */
module BrainfuckExec {
  import opened Ints
  import opened Errors
  import opened Brainfuck

  /** Everything a run can change. */
  datatype Machine = Machine(mem: seq<u8>, ptr: usize, input: seq<u8>, output: seq<char>)

  datatype Status = Done | Failed(error: Error) | OutOfFuel

  /** How a run ended, and the machine at that point. */
  datatype Exit = Exit(status: Status, m: Machine)

  /** `a` is what is left of `b` after reading some bytes from its front. */
  ghost predicate IsSuffix(a: seq<u8>, b: seq<u8>) {
    |a| <= |b| && a == b[|b| - |a|..]
  }

  /** The only ways a run changes the machine besides the tape contents and
      the pointer: the tape keeps its length, output is only appended to,
      input is only consumed from the front. */
  ghost predicate Extends(m: Machine, m': Machine) {
    |m'.mem| == |m.mem| && m.output <= m'.output && IsSuffix(m'.input, m.input)
  }

  lemma ExtendsTransitive(m0: Machine, m1: Machine, m2: Machine)
    requires Extends(m0, m1) && Extends(m1, m2)
    ensures Extends(m0, m2)
  {
    assert m2.input == m0.input[|m0.input| - |m2.input|..] by {
      assert m1.input[|m1.input| - |m2.input|..] == m0.input[|m0.input| - |m2.input|..];
    }
  }

  /** The character `print!("{}", b as char)` writes for a byte. */
  function AsChar(b: u8): char {
    b as char
  }

  /** `mem[*ptr] -= 1`: the index is checked first, then the subtraction.
      Only the current cell changes, and only when both checks pass. */
  function CellDec(m: Machine): (r: Exit)
    ensures Extends(m, r.m) && r.status != OutOfFuel
  {
    if m.ptr >= |m.mem| then Exit(Failed(Panic(IndexOutOfBounds)), m)
    else if m.mem[m.ptr] == 0 then Exit(Failed(Panic(SubtractWithOverflow)), m)
    else Exit(Done, m.(mem := m.mem[m.ptr := m.mem[m.ptr] - 1]))
  }

  /** `mem[*ptr] += 1`. */
  function CellInc(m: Machine): (r: Exit)
    ensures Extends(m, r.m) && r.status != OutOfFuel
  {
    if m.ptr >= |m.mem| then Exit(Failed(Panic(IndexOutOfBounds)), m)
    else if m.mem[m.ptr] == U8_MAX then Exit(Failed(Panic(AddWithOverflow)), m)
    else Exit(Done, m.(mem := m.mem[m.ptr := m.mem[m.ptr] + 1]))
  }

  /** `*ptr -= 1`: no bounds check against the tape. */
  function PtrDec(m: Machine): (r: Exit)
    ensures Extends(m, r.m) && r.status != OutOfFuel
  {
    if m.ptr == 0 then Exit(Failed(Panic(SubtractWithOverflow)), m)
    else Exit(Done, m.(ptr := m.ptr - 1))
  }

  /** `*ptr += 1`: no bounds check against the tape either, so the pointer
      may move past its end. */
  function PtrInc(m: Machine): (r: Exit)
    ensures Extends(m, r.m) && r.status != OutOfFuel
  {
    if m.ptr == USIZE_MAX then Exit(Failed(Panic(AddWithOverflow)), m)
    else Exit(Done, m.(ptr := m.ptr + 1))
  }

  /** `print!("{}", mem[*ptr] as char)`: one character, the current byte,
      and nothing else changes. */
  function Print(m: Machine): (r: Exit)
    ensures Extends(m, r.m) && r.status != OutOfFuel
  {
    if m.ptr >= |m.mem| then Exit(Failed(Panic(IndexOutOfBounds)), m)
    else Exit(Done, m.(output := m.output + [AsChar(m.mem[m.ptr])]))
  }

  /** `read_exact` of one byte, then `mem[*ptr] = inpt[0]`: the byte is
      consumed before the index is checked. */
  function Read(m: Machine): (r: Exit)
    ensures Extends(m, r.m) && r.status != OutOfFuel
  {
    if m.input == [] then Exit(Failed(Io(UnexpectedEof)), m)
    else if m.ptr >= |m.mem| then Exit(Failed(Panic(IndexOutOfBounds)), m.(input := m.input[1..]))
    else Exit(Done, m.(mem := m.mem[m.ptr := m.input[0]], input := m.input[1..]))
  }

  /** One instruction other than a loop; the markers do nothing. */
  function Step(c: Cmd, m: Machine): (r: Exit)
    requires !c.Lp?
    ensures Extends(m, r.m) && r.status != OutOfFuel
  {
    match c
    case Dec => CellDec(m)
    case DecPtr => PtrDec(m)
    case Inc => CellInc(m)
    case IncPtr => PtrInc(m)
    case Ld => Print(m)
    case St => Read(m)
    case LpBg => Exit(Done, m)
    case LpEn => Exit(Done, m)
  }

  /** `-` fails on an invalid index or a zero cell and then changes nothing;
      otherwise it lowers the current cell by one and changes nothing else. */
  lemma CellDecEffect(m: Machine)
    ensures var r := CellDec(m);
      m.ptr >= |m.mem| ==> r == Exit(Failed(Panic(IndexOutOfBounds)), m)
    ensures var r := CellDec(m);
      m.ptr < |m.mem| && m.mem[m.ptr] == 0 ==> r == Exit(Failed(Panic(SubtractWithOverflow)), m)
    ensures var r := CellDec(m);
      m.ptr < |m.mem| && m.mem[m.ptr] > 0 ==>
        && r.status == Done && r.m.ptr == m.ptr && r.m.input == m.input && r.m.output == m.output
        && r.m.mem[m.ptr] == m.mem[m.ptr] - 1
        && forall i :: 0 <= i < |m.mem| && i != m.ptr ==> r.m.mem[i] == m.mem[i]
  {
  }

  /** `+` fails on an invalid index or a cell at 255 and then changes
      nothing; otherwise it raises the current cell by one and changes
      nothing else. */
  lemma CellIncEffect(m: Machine)
    ensures var r := CellInc(m);
      m.ptr >= |m.mem| ==> r == Exit(Failed(Panic(IndexOutOfBounds)), m)
    ensures var r := CellInc(m);
      m.ptr < |m.mem| && m.mem[m.ptr] == U8_MAX ==> r == Exit(Failed(Panic(AddWithOverflow)), m)
    ensures var r := CellInc(m);
      m.ptr < |m.mem| && m.mem[m.ptr] < U8_MAX ==>
        && r.status == Done && r.m.ptr == m.ptr && r.m.input == m.input && r.m.output == m.output
        && r.m.mem[m.ptr] == m.mem[m.ptr] + 1
        && forall i :: 0 <= i < |m.mem| && i != m.ptr ==> r.m.mem[i] == m.mem[i]
  {
  }

  /** `<` fails only at 0, changing nothing; otherwise only the pointer
      moves, one cell left. */
  lemma PtrDecEffect(m: Machine)
    ensures var r := PtrDec(m);
      m.ptr == 0 ==> r == Exit(Failed(Panic(SubtractWithOverflow)), m)
    ensures var r := PtrDec(m);
      m.ptr > 0 ==> r.status == Done && r.m.ptr == m.ptr - 1 && r.m.(ptr := m.ptr) == m
  {
  }

  /** `>` fails only at `usize::MAX`, changing nothing; otherwise only the
      pointer moves, one cell right, whatever the tape length. */
  lemma PtrIncEffect(m: Machine)
    ensures var r := PtrInc(m);
      m.ptr == USIZE_MAX ==> r == Exit(Failed(Panic(AddWithOverflow)), m)
    ensures var r := PtrInc(m);
      m.ptr < USIZE_MAX ==> r.status == Done && r.m.ptr == m.ptr + 1 && r.m.(ptr := m.ptr) == m
  {
  }

  /** `.` panics off the tape, changing nothing; otherwise it appends
      exactly the current byte as a character and changes nothing else. */
  lemma PrintEffect(m: Machine)
    ensures var r := Print(m);
      m.ptr >= |m.mem| ==> r == Exit(Failed(Panic(IndexOutOfBounds)), m)
    ensures var r := Print(m);
      m.ptr < |m.mem| ==>
        && r.status == Done && r.m.output == m.output + [AsChar(m.mem[m.ptr])]
        && r.m.(output := m.output) == m
  {
  }

  /** `,` fails at end of input changing nothing; otherwise it consumes one
      byte and stores it in the current cell, or panics off the tape with
      the byte consumed and the cells unchanged. */
  lemma ReadEffect(m: Machine)
    ensures var r := Read(m);
      m.input == [] ==> r == Exit(Failed(Io(UnexpectedEof)), m)
    ensures var r := Read(m);
      m.input != [] ==> r.m.input == m.input[1..] && r.m.ptr == m.ptr && r.m.output == m.output
    ensures var r := Read(m);
      m.input != [] && m.ptr >= |m.mem| ==> r.status == Failed(Panic(IndexOutOfBounds)) && r.m.mem == m.mem
    ensures var r := Read(m);
      m.input != [] && m.ptr < |m.mem| ==>
        && r.status == Done && r.m.mem[m.ptr] == m.input[0]
        && forall i :: 0 <= i < |m.mem| && i != m.ptr ==> r.m.mem[i] == m.mem[i]
  {
  }

  /** A `[` or `]` reaching `exec` outside a loop node falls into the
      catch-all arm and does nothing. */
  lemma StrayMarkers(m: Machine)
    ensures Step(LpBg, m) == Exit(Done, m) && Step(LpEn, m) == Exit(Done, m)
  {
  }

  /** `+` and `-` undo each other when they succeed. */
  lemma CellStepsInverse(m: Machine)
    ensures CellInc(m).status.Done? ==> CellDec(CellInc(m).m) == Exit(Done, m)
    ensures CellDec(m).status.Done? ==> CellInc(CellDec(m).m) == Exit(Done, m)
  {
    if CellInc(m).status.Done? {
      var m' := CellInc(m).m;
      assert m'.mem[m.ptr := m.mem[m.ptr]] == m.mem;
    }
    if CellDec(m).status.Done? {
      var m' := CellDec(m).m;
      assert m'.mem[m.ptr := m.mem[m.ptr]] == m.mem;
    }
  }

  /** `>` and `<` undo each other when they succeed. */
  lemma PtrStepsInverse(m: Machine)
    ensures PtrInc(m).status.Done? ==> PtrDec(PtrInc(m).m) == Exit(Done, m)
    ensures PtrDec(m).status.Done? ==> PtrInc(PtrDec(m).m) == Exit(Done, m)
  {
    if m.ptr < USIZE_MAX {
      assert PtrInc(m).m == m.(ptr := m.ptr + 1);
      assert PtrInc(m).m.(ptr := m.ptr) == m;
    }
    if m.ptr > 0 {
      assert PtrDec(m).m == m.(ptr := m.ptr - 1);
      assert PtrDec(m).m.(ptr := m.ptr) == m;
    }
  }

  /** Runs `cmds` in order, stopping at the first one that does not end
      with `Done`. Whether it ends normally or not, a run keeps the tape
      length (the rest of `Extends` is `ExecutedExtends`). */
  function Executed(cmds: seq<Cmd>, m: Machine, fuel: nat): (r: Exit)
    ensures |r.m.mem| == |m.mem|
    decreases fuel, cmds
  {
    if cmds == [] then Exit(Done, m)
    else
      var first := match cmds[0]
        case Lp(body) => Looped(body, m, fuel)
        case _ => Step(cmds[0], m);
      if first.status.Done? then Executed(cmds[1..], first.m, fuel) else first
  }

  /** One activation of a loop: the test reads the cell under the pointer
      (a panic when the pointer is past the tape), exits on zero and
      otherwise runs the body and tests again. It keeps the tape length,
      and when it ends normally the pointer is on the tape, on a zero
      cell. */
  function Looped(body: seq<Cmd>, m: Machine, fuel: nat): (r: Exit)
    ensures |r.m.mem| == |m.mem|
    ensures r.status.Done? ==> r.m.ptr < |r.m.mem| && r.m.mem[r.m.ptr] == 0
    decreases fuel, body
  {
    if m.ptr >= |m.mem| then Exit(Failed(Panic(IndexOutOfBounds)), m)
    else if m.mem[m.ptr] == 0 then Exit(Done, m)
    else if fuel == 0 then Exit(OutOfFuel, m)
    else
      var once := Executed(body, m, fuel - 1);
      if once.status.Done? then Looped(body, once.m, fuel - 1) else once
  }

  /** A run keeps the tape length, only appends output and only consumes
      input, whether it ends normally or not. */
  lemma {:induction false} ExecutedExtends(cmds: seq<Cmd>, m: Machine, fuel: nat)
    ensures Extends(m, Executed(cmds, m, fuel).m)
    decreases fuel, cmds
  {
    if cmds != [] {
      var first := match cmds[0]
        case Lp(body) => Looped(body, m, fuel)
        case _ => Step(cmds[0], m);
      if cmds[0].Lp? {
        LoopedExtends(cmds[0].body, m, fuel);
      }
      if first.status.Done? {
        ExecutedExtends(cmds[1..], first.m, fuel);
        ExtendsTransitive(m, first.m, Executed(cmds[1..], first.m, fuel).m);
      }
    }
  }

  /** The same for one activation of a loop. */
  lemma {:induction false} LoopedExtends(body: seq<Cmd>, m: Machine, fuel: nat)
    ensures Extends(m, Looped(body, m, fuel).m)
    decreases fuel, body
  {
    if m.ptr < |m.mem| && m.mem[m.ptr] != 0 && fuel > 0 {
      var f := fuel - 1;
      var once := Executed(body, m, f);
      ExecutedExtends(body, m, f);
      if once.status.Done? {
        var r := Looped(body, once.m, f);
        assert Looped(body, m, fuel) == r;
        LoopedExtends(body, once.m, f);
        ExtendsTransitive(m, once.m, r.m);
      }
    }
  }

  /** `exec` runs the commands in order and aborts at the first failure:
      running `a + b` is running `a` and, only if that ended normally,
      running `b` from where `a` stopped. */
  lemma {:induction false} ExecutedAppend(a: seq<Cmd>, b: seq<Cmd>, m: Machine, fuel: nat)
    ensures Executed(a + b, m, fuel) ==
      var ra := Executed(a, m, fuel);
      if ra.status.Done? then Executed(b, ra.m, fuel) else ra
  {
    if a == [] {
      assert a + b == b;
    } else {
      assert (a + b)[0] == a[0] && (a + b)[1..] == a[1..] + b;
      var first := match a[0]
        case Lp(body) => Looped(body, m, fuel)
        case _ => Step(a[0], m);
      if first.status.Done? {
        ExecutedAppend(a[1..], b, first.m, fuel);
      }
    }
  }

  /** More fuel changes nothing about a run that did not run out of it. */
  lemma {:induction false} ExecutedFuel(cmds: seq<Cmd>, m: Machine, fuel: nat, more: nat)
    requires fuel <= more && Executed(cmds, m, fuel).status != OutOfFuel
    ensures Executed(cmds, m, more) == Executed(cmds, m, fuel)
    decreases fuel, cmds
  {
    if cmds != [] {
      var first := match cmds[0]
        case Lp(body) => Looped(body, m, fuel)
        case _ => Step(cmds[0], m);
      if cmds[0].Lp? {
        LoopedFuel(cmds[0].body, m, fuel, more);
      }
      if first.status.Done? {
        ExecutedFuel(cmds[1..], first.m, fuel, more);
      }
    }
  }

  lemma {:induction false} LoopedFuel(body: seq<Cmd>, m: Machine, fuel: nat, more: nat)
    requires fuel <= more && Looped(body, m, fuel).status != OutOfFuel
    ensures Looped(body, m, more) == Looped(body, m, fuel)
    decreases fuel, body
  {
    if m.ptr < |m.mem| && m.mem[m.ptr] != 0 {
      var once := Executed(body, m, fuel - 1);
      ExecutedFuel(body, m, fuel - 1, more - 1);
      if once.status.Done? {
        LoopedFuel(body, once.m, fuel - 1, more - 1);
      }
    }
  }

  /** The body run `n` times in a row, stopping at the first run that does
      not end with `Done`; the runs get the fuel a loop activation with
      `fuel` gives them. */
  function Repeated(body: seq<Cmd>, m: Machine, n: nat, fuel: nat): Exit
    requires n <= fuel
    decreases n
  {
    if n == 0 then Exit(Done, m)
    else
      var once := Executed(body, m, fuel - 1);
      if once.status.Done? then Repeated(body, once.m, n - 1, fuel - 1) else once
  }

  /** How many times one activation of a loop runs its body. */
  function Iterations(body: seq<Cmd>, m: Machine, fuel: nat): nat
    decreases fuel
  {
    if m.ptr >= |m.mem| || m.mem[m.ptr] == 0 || fuel == 0 then 0
    else
      var once := Executed(body, m, fuel - 1);
      if once.status.Done? then 1 + Iterations(body, once.m, fuel - 1) else 1
  }

  /** A loop that ends normally ran its body once per nonzero test: it is
      the body repeated `Iterations` times, and the cell was nonzero before
      each of those runs (and, by the contract of `Looped`, is zero after the
      last). */
  lemma {:induction false} LoopedIterations(body: seq<Cmd>, m: Machine, fuel: nat)
    requires Looped(body, m, fuel).status.Done?
    ensures Iterations(body, m, fuel) <= fuel
    ensures Repeated(body, m, Iterations(body, m, fuel), fuel) == Looped(body, m, fuel)
    ensures forall k: nat :: k < Iterations(body, m, fuel) ==> CellNonzero(Repeated(body, m, k, fuel).m)
    decreases fuel
  {
    if m.ptr < |m.mem| && m.mem[m.ptr] != 0 {
      var f: nat := fuel - 1;
      var once := Executed(body, m, f);
      assert once.status.Done? && Looped(body, m, fuel) == Looped(body, once.m, f);
      LoopedIterations(body, once.m, f);
      var n := Iterations(body, once.m, f);
      forall k: nat | k < n + 1
        ensures CellNonzero(Repeated(body, m, k, fuel).m)
      {
        if k > 0 {
          assert Repeated(body, m, k, fuel) == Repeated(body, once.m, k - 1, f);
        }
      }
    }
  }

  ghost predicate CellNonzero(m: Machine) {
    m.ptr < |m.mem| && m.mem[m.ptr] != 0
  }

  /** The clearing loop `[-]` counts the current cell down to zero, changes
      nothing else, and needs as much fuel as the cell's value. */
  lemma {:induction false} ClearLoop(m: Machine, fuel: nat)
    requires m.ptr < |m.mem| && m.mem[m.ptr] <= fuel
    ensures Looped([Dec], m, fuel) == Exit(Done, m.(mem := m.mem[m.ptr := 0]))
    decreases fuel
  {
    if m.mem[m.ptr] != 0 {
      var m' := m.(mem := m.mem[m.ptr := m.mem[m.ptr] - 1]);
      assert Executed([Dec], m, fuel - 1) == Exit(Done, m') by {
        assert [Dec][1..] == [];
      }
      ClearLoop(m', fuel - 1);
      assert m'.mem[m.ptr := 0] == m.mem[m.ptr := 0];
    } else {
      assert m.mem[m.ptr := 0] == m.mem;
    }
  }

  /** The arms of `exec` other than a loop, applied in place. */
  method Apply(c: Cmd, mem: array<u8>, ptr0: usize, input0: seq<u8>, output0: seq<char>)
    returns (status: Status, ptr: usize, input: seq<u8>, output: seq<char>)
    requires !c.Lp?
    modifies mem
    ensures Exit(status, Machine(mem[..], ptr, input, output)) == Step(c, Machine(old(mem[..]), ptr0, input0, output0))
  {
    if c == Dec || c == Inc {
      status := ApplyCell(c, mem, ptr0);
      ptr, input, output := ptr0, input0, output0;
    } else if c == St {
      status, input := ApplyRead(mem, ptr0, input0);
      ptr, output := ptr0, output0;
    } else {
      status, ptr, output := Done, ptr0, output0;
      input := input0;
      match c {
        case DecPtr =>
          if ptr == 0 {
            status := Failed(Panic(SubtractWithOverflow));
          } else {
            ptr := ptr - 1;
          }
        case IncPtr =>
          if ptr == USIZE_MAX {
            status := Failed(Panic(AddWithOverflow));
          } else {
            ptr := ptr + 1;
          }
        case Ld =>
          if ptr >= mem.Length {
            status := Failed(Panic(IndexOutOfBounds));
          } else {
            output := output + [AsChar(mem[ptr])];
          }
        case LpBg =>
        case LpEn =>
      }
    }
  }

  /** `mem[*ptr] -= 1` and `mem[*ptr] += 1` in place. */
  method ApplyCell(c: Cmd, mem: array<u8>, ptr: usize) returns (status: Status)
    requires c == Dec || c == Inc
    modifies mem
    ensures forall input, output ::
      Exit(status, Machine(mem[..], ptr, input, output)) == Step(c, Machine(old(mem[..]), ptr, input, output))
  {
    status := Done;
    if ptr >= mem.Length {
      status := Failed(Panic(IndexOutOfBounds));
    } else if c == Dec {
      if mem[ptr] == 0 {
        status := Failed(Panic(SubtractWithOverflow));
      } else {
        mem[ptr] := mem[ptr] - 1;
      }
    } else {
      if mem[ptr] == U8_MAX {
        status := Failed(Panic(AddWithOverflow));
      } else {
        mem[ptr] := mem[ptr] + 1;
      }
    }
  }

  /** The `,` arm in place: one byte is taken from `input0`, then stored. */
  method ApplyRead(mem: array<u8>, ptr: usize, input0: seq<u8>) returns (status: Status, input: seq<u8>)
    modifies mem
    ensures forall output ::
      Exit(status, Machine(mem[..], ptr, input, output)) == Step(St, Machine(old(mem[..]), ptr, input0, output))
  {
    status, input := Done, input0;
    if input == [] {
      status := Failed(Io(UnexpectedEof));
    } else {
      var b := input[0];
      input := input[1..];
      if ptr >= mem.Length {
        status := Failed(Panic(IndexOutOfBounds));
      } else {
        mem[ptr] := b;
      }
    }
  }

  /** `exec`: walks the tree over the tape `mem` in place. The returned
      status, pointer, unread input and output, together with the new tape
      contents, are exactly what `Executed` says. */
  method Exec(cmds: seq<Cmd>, mem: array<u8>, ptr0: usize, input0: seq<u8>, output0: seq<char>, fuel: nat)
    returns (status: Status, ptr: usize, input: seq<u8>, output: seq<char>)
    modifies mem
    decreases fuel, cmds
    ensures Exit(status, Machine(mem[..], ptr, input, output)) == Executed(cmds, Machine(old(mem[..]), ptr0, input0, output0), fuel)
  {
    ptr, input, output := ptr0, input0, output0;
    ghost var start := Machine(mem[..], ptr, input, output);
    for i := 0 to |cmds|
      invariant Executed(cmds[i..], Machine(mem[..], ptr, input, output), fuel) == Executed(cmds, start, fuel)
    {
      ghost var here := Machine(mem[..], ptr, input, output);
      assert cmds[i..][0] == cmds[i] && cmds[i..][1..] == cmds[i + 1..];
      match cmds[i] {
        case Lp(body) =>
          status, ptr, input, output := Loop(body, mem, ptr, input, output, fuel);
          if !status.Done? {
            return;
          }
        case _ =>
          status, ptr, input, output := Apply(cmds[i], mem, ptr, input, output);
          if !status.Done? {
            return;
          }
      }
    }
    status := Done;
  }

  /** The `Lp` arm of `exec`: `while mem[*ptr] != 0`, running the body in
      place each time round, exactly as `Looped` says. */
  method Loop(body: seq<Cmd>, mem: array<u8>, ptr0: usize, input0: seq<u8>, output0: seq<char>, fuel: nat)
    returns (status: Status, ptr: usize, input: seq<u8>, output: seq<char>)
    modifies mem
    decreases fuel, body
    ensures Exit(status, Machine(mem[..], ptr, input, output)) == Looped(body, Machine(old(mem[..]), ptr0, input0, output0), fuel)
  {
    ptr, input, output := ptr0, input0, output0;
    ghost var start := Machine(mem[..], ptr, input, output);
    var f: nat := fuel;
    while true
      invariant f <= fuel
      invariant Looped(body, Machine(mem[..], ptr, input, output), f) == Looped(body, start, fuel)
      decreases f
    {
      if ptr >= mem.Length {
        status := Failed(Panic(IndexOutOfBounds));
        return;
      }
      if mem[ptr] == 0 {
        status := Done;
        return;
      }
      if f == 0 {
        status := OutOfFuel;
        return;
      }
      status, ptr, input, output := Exec(body, mem, ptr, input, output, f - 1);
      if !status.Done? {
        return;
      }
      f := f - 1;
    }
  }
}
