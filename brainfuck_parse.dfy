/** The Brainfuck bracket matcher `parse` (src/brainfuck/mod.rs) and the
    structural facts it is proved against. */
module BrainfuckParse {
  import opened Errors
  import opened Brainfuck

  /** How much one token changes the loop nesting depth. */
  function Delta(c: Cmd): int {
    match c
    case LpBg => 1
    case LpEn => -1
    case _ => 0
  }

  /** Nesting depth after `ts`: opening markers minus closing markers. */
  function Depth(ts: seq<Cmd>): int {
    if ts == [] then 0 else Depth(ts[..|ts| - 1]) + Delta(ts[|ts| - 1])
  }

  /** No prefix of `ts` closes more loops than it opened. */
  predicate NeverNegative(ts: seq<Cmd>) {
    forall k :: 0 <= k <= |ts| ==> Depth(ts[..k]) >= 0
  }

  /** Every marker of `ts` has its partner. */
  predicate Balanced(ts: seq<Cmd>) {
    NeverNegative(ts) && Depth(ts) == 0
  }

  /** A parse tree: no marker anywhere, loop nodes nested to any depth. */
  predicate IsTree(t: seq<Cmd>)
    decreases t
  {
    forall i :: 0 <= i < |t| ==> IsNode(t[i])
  }

  predicate IsNode(c: Cmd)
    decreases c
  {
    match c
    case LpBg => false
    case LpEn => false
    case Lp(b) => IsTree(b)
    case _ => true
  }

  /** The tokens one node stands for: a loop is its body between markers. */
  function Expand(c: Cmd): (r: seq<Cmd>)
    decreases c
    ensures |r| >= 1 && Flat(r)
  {
    match c
    case Lp(b) => [LpBg] + Flatten(b) + [LpEn]
    case _ => [c]
  }

  /** The flat token sequence a tree was parsed from. */
  function Flatten(t: seq<Cmd>): (r: seq<Cmd>)
    decreases t
    ensures |r| >= |t| && Flat(r)
  {
    if t == [] then [] else Flatten(t[..|t| - 1]) + Expand(t[|t| - 1])
  }

  /** `ts` without its `Lp` nodes, which the parser skips. */
  function Strip(ts: seq<Cmd>): (r: seq<Cmd>)
    ensures |r| <= |ts| && Flat(r)
  {
    if ts == [] then []
    else Strip(ts[..|ts| - 1]) + (if ts[|ts| - 1].Lp? then [] else [ts[|ts| - 1]])
  }

  lemma {:induction false} DepthAppend(a: seq<Cmd>, b: seq<Cmd>)
    ensures Depth(a + b) == Depth(a) + Depth(b)
  {
    if b != [] {
      DepthAppend(a, b[..|b| - 1]);
      assert (a + b)[..|a + b| - 1] == a + b[..|b| - 1];
    } else {
      assert a + b == a;
    }
  }

  lemma {:induction false} StripAppend(a: seq<Cmd>, b: seq<Cmd>)
    ensures Strip(a + b) == Strip(a) + Strip(b)
  {
    if b != [] {
      StripAppend(a, b[..|b| - 1]);
      assert (a + b)[..|a + b| - 1] == a + b[..|b| - 1];
    } else {
      assert a + b == a;
    }
  }

  /** The lexer's output has no `Lp` node, so `parse` drops nothing of it. */
  lemma {:induction false} StripFlat(ts: seq<Cmd>)
    requires Flat(ts)
    ensures Strip(ts) == ts
  {
    if ts != [] {
      StripFlat(ts[..|ts| - 1]);
    }
  }

  lemma BalancedAppend(a: seq<Cmd>, b: seq<Cmd>)
    requires Balanced(a) && Balanced(b)
    ensures Balanced(a + b)
  {
    DepthAppend(a, b);
    forall k | 0 <= k <= |a + b|
      ensures Depth((a + b)[..k]) >= 0
    {
      if k <= |a| {
        assert (a + b)[..k] == a[..k];
      } else {
        assert (a + b)[..k] == a + b[..k - |a|];
        DepthAppend(a, b[..k - |a|]);
      }
    }
  }

  /** Inside a loop every prefix is one level deeper than in its body. */
  lemma WrapDepth(x: seq<Cmd>, j: nat)
    requires j <= |x|
    ensures Depth([LpBg] + x[..j]) == 1 + Depth(x[..j])
  {
    DepthAppend([LpBg], x[..j]);
    assert [LpBg][..0] == [];
  }

  lemma BalancedWrap(x: seq<Cmd>)
    requires Balanced(x)
    ensures Balanced([LpBg] + x + [LpEn])
  {
    var w := [LpBg] + x + [LpEn];
    assert w[..|w| - 1] == [LpBg] + x[..|x|];
    assert x[..|x|] == x;
    WrapDepth(x, |x|);
    assert Depth(w) == 0;
    forall k | 0 <= k <= |w|
      ensures Depth(w[..k]) >= 0
    {
      if k == |w| {
        assert w[..k] == w;
      } else if k > 0 {
        assert w[..k] == [LpBg] + x[..k - 1];
        WrapDepth(x, k - 1);
      }
    }
  }

  /** Every tree flattens to a balanced token sequence: the trees are
      exactly what `parse` can return. */
  lemma {:induction false} FlattenBalanced(t: seq<Cmd>)
    requires IsTree(t)
    ensures Balanced(Flatten(t))
    decreases t
  {
    if t != [] {
      var init, last := t[..|t| - 1], t[|t| - 1];
      assert IsNode(last);
      FlattenBalanced(init);
      if last.Lp? {
        FlattenBalanced(last.body);
        BalancedWrap(Flatten(last.body));
      } else {
        var e := Expand(last);
        assert e == [last] && e[..0] == [] && e[..1] == e;
      }
      BalancedAppend(Flatten(init), Expand(last));
    }
  }

  /** A prefix that stops inside a loop is still open. */
  lemma PrefixInsideLoop(p: seq<Cmd>, f: seq<Cmd>, j: nat)
    requires Balanced(p) && NeverNegative(f) && j <= |f|
    ensures Depth(p + [LpBg] + f[..j]) >= 1
  {
    DepthAppend(p, [LpBg] + f[..j]);
    assert p + [LpBg] + f[..j] == p + ([LpBg] + f[..j]);
    WrapDepth(f, j);
  }

  /** Where the last loop of a flattened tree opens is determined. */
  lemma LoopStartUnique(p1: seq<Cmd>, f1: seq<Cmd>, p2: seq<Cmd>, f2: seq<Cmd>)
    requires Balanced(p1) && Balanced(f1) && Balanced(p2) && Balanced(f2)
    requires p1 + ([LpBg] + f1 + [LpEn]) == p2 + ([LpBg] + f2 + [LpEn])
    ensures |p1| == |p2|
  {
    var w := p1 + ([LpBg] + f1 + [LpEn]);
    if |p1| < |p2| {
      var j := |p2| - |p1| - 1;
      assert p2 == w[..|p2|] == p1 + [LpBg] + f1[..j];
      PrefixInsideLoop(p1, f1, j);
    } else if |p2| < |p1| {
      var j := |p1| - |p2| - 1;
      assert p1 == w[..|p1|] == p2 + [LpBg] + f2[..j];
      PrefixInsideLoop(p2, f2, j);
    }
  }

  /** ... and so are the part before it and the loop's body. */
  lemma LoopSplitUnique(p1: seq<Cmd>, f1: seq<Cmd>, p2: seq<Cmd>, f2: seq<Cmd>)
    requires Balanced(p1) && Balanced(f1) && Balanced(p2) && Balanced(f2)
    requires p1 + ([LpBg] + f1 + [LpEn]) == p2 + ([LpBg] + f2 + [LpEn])
    ensures p1 == p2 && f1 == f2
  {
    LoopStartUnique(p1, f1, p2, f2);
    var w := p1 + ([LpBg] + f1 + [LpEn]);
    assert w[..|p1|] == p1 && w[|p1| + 1..|w| - 1] == f1;
    assert w[..|p2|] == p2 && w[|p2| + 1..|w| - 1] == f2;
  }

  /** Two trees that each end in a loop and have the same flattening
      split the same way: equal flattenings before the loop and inside it. */
  lemma LastLoopSplit(i1: seq<Cmd>, b1: seq<Cmd>, i2: seq<Cmd>, b2: seq<Cmd>)
    requires IsTree(i1) && IsTree(b1) && IsTree(i2) && IsTree(b2)
    requires Flatten(i1) + Expand(Lp(b1)) == Flatten(i2) + Expand(Lp(b2))
    ensures Flatten(i1) == Flatten(i2) && Flatten(b1) == Flatten(b2)
  {
    FlattenBalanced(i1);
    FlattenBalanced(i2);
    FlattenBalanced(b1);
    FlattenBalanced(b2);
    LoopSplitUnique(Flatten(i1), Flatten(b1), Flatten(i2), Flatten(b2));
  }

  /** Two trees with the same flattening are the same tree, so the tree
      `parse` returns is the only one its contract allows. */
  lemma {:induction false} FlattenInjective(t1: seq<Cmd>, t2: seq<Cmd>)
    requires IsTree(t1) && IsTree(t2) && Flatten(t1) == Flatten(t2)
    ensures t1 == t2
    decreases |Flatten(t1)|
  {
    if t1 != [] && t2 != [] {
      var i1, x1 := t1[..|t1| - 1], t1[|t1| - 1];
      var i2, x2 := t2[..|t2| - 1], t2[|t2| - 1];
      assert IsNode(x1) && IsNode(x2);
      var w := Flatten(t1);
      var e1, e2 := Expand(x1), Expand(x2);
      assert w == Flatten(i1) + e1 == Flatten(i2) + e2;
      assert w[|w| - 1] == e1[|e1| - 1] == e2[|e2| - 1];
      if x1.Lp? {
        assert x2.Lp?;
        LastLoopSplit(i1, x1.body, i2, x2.body);
        FlattenInjective(i1, i2);
        FlattenInjective(x1.body, x2.body);
      } else {
        assert !x2.Lp?;
        assert Flatten(i1) == w[..|w| - 1] == Flatten(i2);
        FlattenInjective(i1, i2);
      }
    }
  }

  lemma SlicePrefix(s: seq<Cmd>, lo: nat, hi: nat, j: nat)
    requires lo + j <= hi <= |s|
    ensures s[..lo + j] == s[..lo] + s[lo..hi][..j]
  {
  }

  /** The body between a loop's opening marker at `lo` and the closing
      marker at `hi` that brings the depth back to zero is balanced. */
  lemma InnerBalanced(cmds: seq<Cmd>, lo: nat, hi: nat)
    requires lo < hi <= |cmds| && cmds[lo] == LpBg
    requires Depth(cmds[..lo]) == 0 && Depth(cmds[..hi]) == 1
    requires forall k :: lo < k <= hi ==> Depth(cmds[..k]) >= 1
    ensures Balanced(cmds[lo + 1..hi])
  {
    var inner := cmds[lo + 1..hi];
    assert cmds[..lo + 1][..lo] == cmds[..lo];
    assert Depth(cmds[..lo + 1]) == 1;
    forall j | 0 <= j <= |inner|
      ensures Depth(inner[..j]) == Depth(cmds[..lo + 1 + j]) - 1
    {
      SlicePrefix(cmds, lo + 1, hi, j);
      DepthAppend(cmds[..lo + 1], inner[..j]);
    }
    assert inner[..|inner|] == inner;
  }

  /** Closing the loop opened at `lo` with the marker at `i`. */
  lemma StripLoop(cmds: seq<Cmd>, lo: nat, i: nat)
    requires lo < i < |cmds| && cmds[lo] == LpBg && cmds[i] == LpEn
    ensures Strip(cmds[..i + 1]) == Strip(cmds[..lo]) + [LpBg] + Strip(cmds[lo + 1..i]) + [LpEn]
  {
    assert cmds[..i + 1] == cmds[..lo] + [LpBg] + cmds[lo + 1..i] + [LpEn];
    StripAppend(cmds[..lo] + [LpBg] + cmds[lo + 1..i], [LpEn]);
    StripAppend(cmds[..lo] + [LpBg], cmds[lo + 1..i]);
    StripAppend(cmds[..lo], [LpBg]);
    assert Strip([LpBg]) == [LpBg] by { assert [LpBg][..0] == []; }
    assert Strip([LpEn]) == [LpEn] by { assert [LpEn][..0] == []; }
  }

  /** One more token of the input: its depth and what `parse` keeps of it. */
  lemma PrefixStep(cmds: seq<Cmd>, i: nat)
    requires i < |cmds|
    ensures Depth(cmds[..i + 1]) == Depth(cmds[..i]) + Delta(cmds[i])
    ensures Strip(cmds[..i + 1]) == Strip(cmds[..i]) + (if cmds[i].Lp? then [] else [cmds[i]])
  {
    assert cmds[..i + 1][..i] == cmds[..i];
  }

  /** One more node of the tree being built. */
  lemma FlattenPush(t: seq<Cmd>, c: Cmd)
    requires IsTree(t) && IsNode(c)
    ensures IsTree(t + [c])
    ensures Flatten(t + [c]) == Flatten(t) + Expand(c)
  {
    assert (t + [c])[..|t|] == t;
  }

  /** What the scan of `parse` knows after the first `i` tokens: the
      counter is the depth, no prefix went below zero, an open loop
      started at `lpBg` and has stayed open since, and the nodes built so
      far flatten to the tokens before `done`, the end of the last
      complete top-level item. */
  ghost predicate Scanned(cmds: seq<Cmd>, i: nat, lpStck: nat, lpBg: nat, done: nat, parsed: seq<Cmd>) {
    && i <= |cmds|
    && lpStck == Depth(cmds[..i])
    && (forall k :: 0 <= k <= i ==> Depth(cmds[..k]) >= 0)
    && (lpStck > 0 ==> lpBg < i && cmds[lpBg] == LpBg && Depth(cmds[..lpBg]) == 0)
    && (lpStck > 0 ==> forall k :: lpBg < k <= i ==> Depth(cmds[..k]) >= 1)
    && done == (if lpStck == 0 then i else lpBg)
    && IsTree(parsed)
    && Flatten(parsed) == Strip(cmds[..done])
  }

  /** At depth zero a token other than a marker becomes a node of its own
      (an `Lp` already in the input is skipped). */
  lemma ScanTopLevel(cmds: seq<Cmd>, i: nat, lpBg: nat, parsed: seq<Cmd>)
    requires i < |cmds| && Scanned(cmds, i, 0, lpBg, i, parsed)
    requires cmds[i] != LpBg && cmds[i] != LpEn
    ensures Scanned(cmds, i + 1, 0, lpBg, i + 1, parsed + (if cmds[i].Lp? then [] else [cmds[i]]))
  {
    PrefixStep(cmds, i);
    if !cmds[i].Lp? {
      FlattenPush(parsed, cmds[i]);
    } else {
      assert parsed + [] == parsed;
    }
  }

  /** At depth zero an opening marker starts a loop. */
  lemma ScanOpen(cmds: seq<Cmd>, i: nat, lpBg: nat, parsed: seq<Cmd>)
    requires i < |cmds| && Scanned(cmds, i, 0, lpBg, i, parsed) && cmds[i] == LpBg
    ensures Scanned(cmds, i + 1, 1, i, i, parsed)
  {
    PrefixStep(cmds, i);
  }

  /** At depth zero a closing marker closes more loops than were opened. */
  lemma ScanUnexpected(cmds: seq<Cmd>, i: nat, lpBg: nat, done: nat, parsed: seq<Cmd>)
    requires i < |cmds| && Scanned(cmds, i, 0, lpBg, done, parsed) && cmds[i] == LpEn
    ensures !NeverNegative(cmds)
  {
    PrefixStep(cmds, i);
    assert Depth(cmds[..i + 1]) < 0;
  }

  /** Inside a loop, a token that does not close it only moves the depth. */
  lemma ScanInside(cmds: seq<Cmd>, i: nat, lpStck: nat, lpBg: nat, parsed: seq<Cmd>)
    requires i < |cmds| && lpStck > 0 && Scanned(cmds, i, lpStck, lpBg, lpBg, parsed)
    requires cmds[i] == LpEn ==> lpStck > 1
    ensures Scanned(cmds, i + 1, lpStck + Delta(cmds[i]), lpBg, lpBg, parsed)
  {
    PrefixStep(cmds, i);
  }

  /** Inside a loop, the closing marker that brings the depth back to zero
      delimits its body, which is balanced. */
  lemma ScanBody(cmds: seq<Cmd>, i: nat, lpBg: nat, parsed: seq<Cmd>)
    requires i < |cmds| && Scanned(cmds, i, 1, lpBg, lpBg, parsed) && cmds[i] == LpEn
    ensures lpBg < i && Balanced(cmds[lpBg + 1..i])
  {
    InnerBalanced(cmds, lpBg, i);
  }

  /** ... and the loop node built from the parsed body completes an item. */
  lemma ScanClose(cmds: seq<Cmd>, i: nat, lpBg: nat, parsed: seq<Cmd>, body: seq<Cmd>)
    requires i < |cmds| && Scanned(cmds, i, 1, lpBg, lpBg, parsed) && cmds[i] == LpEn
    requires IsTree(body) && Flatten(body) == Strip(cmds[lpBg + 1..i])
    ensures Scanned(cmds, i + 1, 0, lpBg, i + 1, parsed + [Lp(body)])
  {
    PrefixStep(cmds, i);
    CloseLoop(cmds, i, lpBg, parsed, body);
  }

  /** The loop node built from the body extends the tree by the tokens
      from the opening to the closing marker. */
  lemma CloseLoop(cmds: seq<Cmd>, i: nat, lpBg: nat, parsed: seq<Cmd>, body: seq<Cmd>)
    requires lpBg < i < |cmds| && cmds[lpBg] == LpBg && cmds[i] == LpEn
    requires IsTree(parsed) && Flatten(parsed) == Strip(cmds[..lpBg])
    requires IsTree(body) && Flatten(body) == Strip(cmds[lpBg + 1..i])
    ensures IsTree(parsed + [Lp(body)]) && Flatten(parsed + [Lp(body)]) == Strip(cmds[..i + 1])
  {
    StripLoop(cmds, lpBg, i);
    FlattenPush(parsed, Lp(body));
    var p, f := Strip(cmds[..lpBg]), Strip(cmds[lpBg + 1..i]);
    calc {
      Flatten(parsed + [Lp(body)]);
      Flatten(parsed) + Expand(Lp(body));
      p + ([LpBg] + f + [LpEn]);
      { assert p + ([LpBg] + f + [LpEn]) == p + [LpBg] + f + [LpEn]; }
      Strip(cmds[..i + 1]);
    }
  }

  /** `parse`: one left-to-right pass with a depth counter `lpStck` and
      the index `lpBg` of the outermost open loop; the body of every
      outermost loop is parsed recursively. Succeeds exactly on balanced
      input, fails with `UnexpectedLoopEnd` when some prefix closes more
      loops than it opened and with `NoLoopEnd` when loops stay open; on
      success the tree flattens back to the input. */
  method Parse(cmds: seq<Cmd>) returns (r: Result<seq<Cmd>>)
    decreases |cmds|
    ensures r.Ok? <==> Balanced(cmds)
    ensures r.Ok? ==> IsTree(r.value) && Flatten(r.value) == Strip(cmds)
    ensures r.Err? ==> r.error == Interpreter(if NeverNegative(cmds) then NoLoopEnd else UnexpectedLoopEnd)
  {
    var parsedCmds: seq<Cmd> := [];
    var lpBg: nat := 0;
    var lpStck: nat := 0;
    ghost var done: nat := 0;
    for i := 0 to |cmds|
      invariant Scanned(cmds, i, lpStck, lpBg, done, parsedCmds)
    {
      var cmd := cmds[i];
      if lpStck == 0 {
        if cmd == LpBg {
          ScanOpen(cmds, i, lpBg, parsedCmds);
          lpBg := i;
          lpStck := lpStck + 1;
        } else if cmd == LpEn {
          ScanUnexpected(cmds, i, lpBg, done, parsedCmds);
          return Err(Interpreter(UnexpectedLoopEnd));
        } else {
          ScanTopLevel(cmds, i, lpBg, parsedCmds);
          if !cmd.Lp? {
            parsedCmds := parsedCmds + [cmd];
          } else {
            assert parsedCmds + [] == parsedCmds;
          }
          done := i + 1;
        }
      } else if cmd == LpBg {
        ScanInside(cmds, i, lpStck, lpBg, parsedCmds);
        lpStck := lpStck + 1;
      } else if cmd == LpEn {
        if lpStck == 1 {
          ScanBody(cmds, i, lpBg, parsedCmds);
        } else {
          ScanInside(cmds, i, lpStck, lpBg, parsedCmds);
        }
        lpStck := lpStck - 1;
        if lpStck == 0 {
          var body := Parse(cmds[lpBg + 1..i]);
          ScanClose(cmds, i, lpBg, parsedCmds, body.value);
          parsedCmds := parsedCmds + [Lp(body.value)];
          done := i + 1;
        }
      } else {
        ScanInside(cmds, i, lpStck, lpBg, parsedCmds);
      }
    }
    assert cmds[..|cmds|] == cmds;
    if lpStck != 0 {
      return Err(Interpreter(NoLoopEnd));
    }
    return Ok(parsedCmds);
  }
}
