/** The tree builder and the executor of src/ast.rs.

    `Ast::build` walks the token stream once: commands become nodes, comments
    and line breaks become `Comment` nodes that carry their source text, an
    `[` hands the stream to `Cursor::expect`, and a `]` at the top level is an
    error. `BuildFrom` is that walk as a function; the `Build` method is the
    loop itself, proved equal to it.

    `Ast::run` walks the tree against the global tape. `Exec` and `RunLoop`
    are that walk as functions; since a loop need not terminate, every loop
    iteration spends one unit of `fuel`, and a run that needs more reports
    `OutOfFuel`. The `Execute` method is the loop-and-recursion of the
    original over a `Machine`, proved equal to `Exec`. */
module Ast {
  import opened Wrappers
  import opened Lexer
  import opened Syntax
  import opened Cursor
  import opened Tape

  /** The tree and the position after a build that did not stop at an error. */
  datatype Built = Built(inner: seq<Expr>, pos: Pos)

  /** The node a top-level token other than a bracket appends: its command,
      a `Comment` with its source text for comments and line breaks, and
      nothing for unknown text. */
  function TopChild(t: Token, source: string): (c: seq<Expr>)
    requires t.span.start <= t.span.end <= |source|
    ensures |c| <= 1
    ensures c == [] <==> t.kind == OpenSquare || t.kind == CloseSquare || t.kind == Unknown
  {
    match t.kind
    case Dot => [Expr.Dot]
    case Comma => [Expr.Comma]
    case Plus => [Expr.Plus]
    case Minus => [Expr.Minus]
    case ShiftR => [Expr.ShiftR]
    case ShiftL => [Expr.ShiftL]
    case Comment => [Expr.Comment(source[t.span.start..t.span.end])]
    case Newline => [Expr.Comment(source[t.span.start..t.span.end])]
    case _ => []
  }

  /** The build loop from token `i`, with the nodes `inner` and the position
      `pos` so far. Every token first moves the position by its advance; a
      `]` then fails at that position, and an `[` parses its region with the
      position passed on, resuming after the region's `]`. */
  function BuildFrom(ts: seq<Token>, source: string, i: nat, inner: seq<Expr>, pos: Pos)
    : (r: Result<Built, ParseError>)
    requires i <= |ts| && Ordered(ts) && Within(ts, |source|)
    ensures r.Success? ==> |inner| <= |r.value.inner| <= |inner| + (|ts| - i)
    decreases |ts| - i
  {
    if i == |ts| then Success(Built(inner, pos))
    else
      var t := ts[i];
      var p := pos.Add(Advance(t));
      if t.kind == CloseSquare then Failure(UnmatchedClose(p))
      else if t.kind == OpenSquare then
        match Region(ts, i + 1, p)
        case Failure(e) => Failure(e)
        case Success(q) => BuildFrom(ts, source, q.next, inner + [q.node], q.pos)
      else BuildFrom(ts, source, i + 1, inner + TopChild(t, source), p)
  }

  /** One step of the build loop over a token other than a bracket. */
  lemma BuildStep(ts: seq<Token>, source: string, i: nat, inner: seq<Expr>, pos: Pos)
    requires i < |ts| && Ordered(ts) && Within(ts, |source|)
    requires ts[i].kind != OpenSquare && ts[i].kind != CloseSquare
    ensures ts[i].span.start <= ts[i].span.end <= |source|
    ensures BuildFrom(ts, source, i, inner, pos) ==
      BuildFrom(ts, source, i + 1, inner + TopChild(ts[i], source), pos.Add(Advance(ts[i])))
  {
    assert ts[i] in ts;
  }

  /** Building fails exactly when the brackets do not balance: a `]` with no
      open `[` before it, or an `[` that is never closed. */
  lemma {:induction false} BuildSucceedsIffBalanced(ts: seq<Token>, source: string, i: nat, inner: seq<Expr>, pos: Pos)
    requires i <= |ts| && Ordered(ts) && Within(ts, |source|)
    ensures BuildFrom(ts, source, i, inner, pos).Success? <==> Balanced(ts, i, 0)
    decreases |ts| - i
  {
    if i < |ts| {
      var t := ts[i];
      var p := pos.Add(Advance(t));
      if t.kind == OpenSquare {
        OpenStep(ts, source, i, inner, pos);
        BalancedPastRegion(ts, i, p);
        var r := Region(ts, i + 1, p);
        if r.Success? {
          BuildSucceedsIffBalanced(ts, source, r.value.next, inner + [r.value.node], r.value.pos);
        }
      } else if t.kind != CloseSquare {
        assert Balanced(ts, i, 0) == Balanced(ts, i + 1, 0);
        BuildStep(ts, source, i, inner, pos);
        BuildSucceedsIffBalanced(ts, source, i + 1, inner + TopChild(t, source), p);
      }
    }
  }

  /** The error a build from token `i` at position `pos` reports, as the
      bracket-depth scan predicts it: a `]` met with no bracket open stops
      it as an unmatched `]`, at the position just after that `]`; any other
      failure is an unmatched `[`. */
  predicate ErrorAsScanned(ts: seq<Token>, i: nat, pos: Pos, r: Result<Built, ParseError>)
    requires i <= |ts| && Ordered(ts)
  {
    match StrayCloseIndex(ts, i, 0)
    case Some(k) => r == Failure(UnmatchedClose(pos.Add(Measure(ts, i, k + 1))))
    case None => r.Failure? ==> r.error.UnmatchedOpen?
  }

  /** Every build reports the error the scan predicts. */
  lemma {:induction false} BuildErrorFrom(ts: seq<Token>, source: string, i: nat, inner: seq<Expr>, pos: Pos)
    requires i <= |ts| && Ordered(ts) && Within(ts, |source|)
    ensures ErrorAsScanned(ts, i, pos, BuildFrom(ts, source, i, inner, pos))
    decreases |ts| - i, 2
  {
    if i < |ts| {
      var t := ts[i];
      if t.kind == OpenSquare {
        LoopError(ts, source, i, inner, pos);
      } else if t.kind == CloseSquare {
        assert StrayCloseIndex(ts, i, 0) == Some(i);
      } else {
        TopError(ts, source, i, inner, pos);
      }
    }
  }

  /** One step of the build loop over a top-level `[`. */
  lemma OpenStep(ts: seq<Token>, source: string, i: nat, inner: seq<Expr>, pos: Pos)
    requires i < |ts| && Ordered(ts) && Within(ts, |source|) && ts[i].kind == OpenSquare
    ensures var r := Region(ts, i + 1, pos.Add(Advance(ts[i])));
      BuildFrom(ts, source, i, inner, pos) ==
        if r.Failure? then Failure(r.error)
        else BuildFrom(ts, source, r.value.next, inner + [r.value.node], r.value.pos)
  {
  }

  /** The step of BuildErrorFrom over a top-level `[`. */
  lemma {:induction false} LoopError(ts: seq<Token>, source: string, i: nat, inner: seq<Expr>, pos: Pos)
    requires i < |ts| && Ordered(ts) && Within(ts, |source|) && ts[i].kind == OpenSquare
    ensures ErrorAsScanned(ts, i, pos, BuildFrom(ts, source, i, inner, pos))
    decreases |ts| - i, 1
  {
    OpenStep(ts, source, i, inner, pos);
    LoopErrorAfter(ts, source, i, inner, pos);
  }

  /** The same step, stated of what the build goes on with after the region
      of the `[` at `i`. */
  lemma {:induction false} LoopErrorAfter(ts: seq<Token>, source: string, i: nat, inner: seq<Expr>, pos: Pos)
    requires i < |ts| && Ordered(ts) && Within(ts, |source|) && ts[i].kind == OpenSquare
    ensures var r := Region(ts, i + 1, pos.Add(Advance(ts[i])));
      ErrorAsScanned(ts, i, pos,
        if r.Failure? then Failure(r.error)
        else BuildFrom(ts, source, r.value.next, inner + [r.value.node], r.value.pos))
    decreases |ts| - i, 0
  {
    var p := pos.Add(Advance(ts[i]));
    ScanPastRegion(ts, i, p);
    var r := Region(ts, i + 1, p);
    if r.Success? {
      var q := r.value;
      var m := q.next;
      var b := BuildFrom(ts, source, m, inner + [q.node], q.pos);
      BuildErrorFrom(ts, source, m, inner + [q.node], q.pos);
      if StrayCloseIndex(ts, m, 0).Some? {
        var k := StrayCloseIndex(ts, m, 0).value;
        assert b == Failure(UnmatchedClose(q.pos.Add(Measure(ts, m, k + 1))));
        RegionAdvance(ts, i + 1, [], Pos(0, 0), p);
        OpenPosition(ts, i, m, k, pos, q.pos);
        assert StrayCloseIndex(ts, i, 0) == Some(k);
        ScannedClose(ts, i, pos, k, b);
      } else {
        ScannedOpen(ts, i, pos, b);
      }
    }
  }

  /** ErrorAsScanned when the scan meets a stray `]` at `k`. */
  lemma ScannedClose(ts: seq<Token>, i: nat, pos: Pos, k: nat, r: Result<Built, ParseError>)
    requires i <= |ts| && Ordered(ts) && StrayCloseIndex(ts, i, 0) == Some(k)
    requires r == Failure(UnmatchedClose(pos.Add(Measure(ts, i, k + 1))))
    ensures ErrorAsScanned(ts, i, pos, r)
  {
  }

  /** ErrorAsScanned when the scan meets no stray `]`. */
  lemma ScannedOpen(ts: seq<Token>, i: nat, pos: Pos, r: Result<Built, ParseError>)
    requires i <= |ts| && Ordered(ts) && StrayCloseIndex(ts, i, 0).None?
    requires r.Failure? ==> r.error.UnmatchedOpen?
    ensures ErrorAsScanned(ts, i, pos, r)
  {
  }

  /** The brackets from an `[` at `i` balance exactly when its region
      parses and the brackets after the region balance. */
  lemma BalancedPastRegion(ts: seq<Token>, i: nat, p: Pos)
    requires i < |ts| && Ordered(ts) && ts[i].kind == OpenSquare
    ensures var r := Region(ts, i + 1, p);
      Balanced(ts, i, 0) <==> r.Success? && Balanced(ts, r.value.next, 0)
  {
    assert Balanced(ts, i, 0) == Balanced(ts, i + 1, 0 + 1);
    BalancedSplit(ts, i + 1, 0, 1);
    RegionEndsAtClose(ts, i + 1, [], Pos(0, 0), p);
  }

  /** The region after an `[` at `i` fails only as an unmatched `[`, and
      only when the scan finds no stray `]` after it; when it parses, the
      scan from `i` goes on from just after the region. */
  lemma ScanPastRegion(ts: seq<Token>, i: nat, p: Pos)
    requires i < |ts| && Ordered(ts) && ts[i].kind == OpenSquare
    ensures var r := Region(ts, i + 1, p);
      && (r.Failure? ==> r.error.UnmatchedOpen? && StrayCloseIndex(ts, i, 0).None?)
      && (r.Success? ==> StrayCloseIndex(ts, i, 0) == StrayCloseIndex(ts, r.value.next, 0))
  {
    assert StrayCloseIndex(ts, i, 0) == StrayCloseIndex(ts, i + 1, 1);
    StrayCloseSplit(ts, i + 1, 1);
    RegionEndsAtClose(ts, i + 1, [], Pos(0, 0), p);
  }

  /** The position after an `[` at `i`, its region up to `m`, and the
      tokens up to `k`, measured in one go. */
  lemma OpenPosition(ts: seq<Token>, i: nat, m: nat, k: nat, pos: Pos, after: Pos)
    requires i < m <= k < |ts| && Ordered(ts)
    requires after == pos.Add(Advance(ts[i])).Add(Pos(0, 0)).Add(Measure(ts, i + 1, m))
    ensures pos.Add(Measure(ts, i, k + 1)) == after.Add(Measure(ts, m, k + 1))
  {
    MeasureSplit(ts, i + 1, m, k + 1);
  }

  /** The step of BuildErrorFrom over a top-level token that is not a bracket. */
  lemma {:induction false} TopError(ts: seq<Token>, source: string, i: nat, inner: seq<Expr>, pos: Pos)
    requires i < |ts| && Ordered(ts) && Within(ts, |source|)
    requires ts[i].kind != OpenSquare && ts[i].kind != CloseSquare
    ensures ErrorAsScanned(ts, i, pos, BuildFrom(ts, source, i, inner, pos))
    decreases |ts| - i, 0
  {
    var t := ts[i];
    var p := pos.Add(Advance(t));
    assert StrayCloseIndex(ts, i, 0) == StrayCloseIndex(ts, i + 1, 0);
    BuildStep(ts, source, i, inner, pos);
    BuildErrorFrom(ts, source, i + 1, inner + TopChild(t, source), p);
  }

  /** A build from the start succeeds exactly when the brackets balance; a
      `]` with no `[` open before it fails as an unmatched `]` at the
      position after it; any other unbalanced input fails as an unmatched `[`. */
  lemma BuildError(ts: seq<Token>, source: string, pos: Pos)
    requires Ordered(ts) && Within(ts, |source|)
    ensures var r := BuildFrom(ts, source, 0, [], pos);
      && (r.Success? <==> Balanced(ts, 0, 0))
      && (match StrayCloseIndex(ts, 0, 0)
          case Some(k) => r == Failure(UnmatchedClose(pos.Add(Measure(ts, 0, k + 1))))
          case None => !Balanced(ts, 0, 0) ==> r.Failure? && r.error.UnmatchedOpen?)
  {
    BuildSucceedsIffBalanced(ts, source, 0, [], pos);
    BuildErrorFrom(ts, source, 0, [], pos);
    assert ErrorAsScanned(ts, 0, pos, BuildFrom(ts, source, 0, [], pos));
  }

  /** The top level and a loop body turn a token into the same child, except
      for comments and line breaks: the top level keeps them as `Comment`
      nodes with their source text, a loop body drops them. */
  lemma TopChildVersusLoopChild(t: Token, source: string)
    requires t.span.start <= t.span.end <= |source|
    requires t.kind != OpenSquare && t.kind != CloseSquare
    ensures t.kind.Comment? || t.kind.Newline? ==>
      TopChild(t, source) == [Expr.Comment(source[t.span.start..t.span.end])] && LoopChild(t.kind) == []
    ensures !t.kind.Comment? && !t.kind.Newline? ==> TopChild(t, source) == LoopChild(t.kind)
  {
  }

  /** A top-level node stands for the same command as its token; comments,
      line breaks and unknown text stand for none. */
  lemma TopChildSkeleton(t: Token, source: string)
    requires t.span.start <= t.span.end <= |source|
    requires t.kind != OpenSquare && t.kind != CloseSquare
    ensures Flatten(TopChild(t, source)) == SymOf(t.kind)
  {
  }

  /** A successful build keeps every command and bracket of the token stream,
      in order, with one `Loop` node per bracket pair. */
  lemma {:induction false} BuildSkeleton(ts: seq<Token>, source: string, i: nat, inner: seq<Expr>, pos: Pos)
    requires i <= |ts| && Ordered(ts) && Within(ts, |source|)
    ensures var r := BuildFrom(ts, source, i, inner, pos);
      r.Success? ==> Flatten(r.value.inner) == Cat(Flatten(inner), Skeleton(ts, i, |ts|))
    decreases |ts| - i, 1
  {
    if i == |ts| {
      CatNil(Flatten(inner));
    } else if BuildFrom(ts, source, i, inner, pos).Success? {
      var k := ts[i].kind;
      if k == OpenSquare {
        LoopSkeleton(ts, source, i, inner, pos);
      } else {
        assert k != CloseSquare;
        TopSkeleton(ts, source, i, inner, pos);
      }
    }
  }

  /** The step of BuildSkeleton over a top-level `[`. */
  lemma {:induction false} LoopSkeleton(ts: seq<Token>, source: string, i: nat, inner: seq<Expr>, pos: Pos)
    requires i < |ts| && Ordered(ts) && Within(ts, |source|) && ts[i].kind == OpenSquare
    requires BuildFrom(ts, source, i, inner, pos).Success?
    ensures Flatten(BuildFrom(ts, source, i, inner, pos).value.inner) == Cat(Flatten(inner), Skeleton(ts, i, |ts|))
    decreases |ts| - i, 0
  {
    var r := BuildFrom(ts, source, i, inner, pos);
    var p := pos.Add(Advance(ts[i]));
    var q := Region(ts, i + 1, p).value;
    var m := q.next;
    assert r == BuildFrom(ts, source, m, inner + [q.node], q.pos);
    assert i + 1 < m <= |ts| && ts[m - 1].kind == CloseSquare;
    var rest := Skeleton(ts, m, |ts|);
    LoopBodySkeleton(ts, i + 1, p);
    BuildSkeleton(ts, source, m, inner + [q.node], q.pos);
    BracketSkeleton(ts, i, m, |ts|);
    AppendLoop(inner, q.node, rest, Flatten(r.value.inner), Skeleton(ts, i, |ts|));
  }

  /** The step of BuildSkeleton over a top-level token that is not a bracket. */
  lemma {:induction false} TopSkeleton(ts: seq<Token>, source: string, i: nat, inner: seq<Expr>, pos: Pos)
    requires i < |ts| && Ordered(ts) && Within(ts, |source|)
    requires ts[i].kind != OpenSquare && ts[i].kind != CloseSquare
    requires BuildFrom(ts, source, i, inner, pos).Success?
    ensures Flatten(BuildFrom(ts, source, i, inner, pos).value.inner) == Cat(Flatten(inner), Skeleton(ts, i, |ts|))
    decreases |ts| - i, 0
  {
    var t := ts[i];
    assert t in ts;
    var r := BuildFrom(ts, source, i, inner, pos);
    var p := pos.Add(Advance(t));
    var c := TopChild(t, source);
    assert r == BuildFrom(ts, source, i + 1, inner + c, p);
    var rest := Skeleton(ts, i + 1, |ts|);
    BuildSkeleton(ts, source, i + 1, inner + c, p);
    TopChildSkeleton(t, source);
    AppendNodes(inner, c, SymOf(t.kind), rest, Flatten(r.value.inner), Skeleton(ts, i, |ts|));
  }

  /** The body of every top-level `Loop` node holds no `Comment`, at any depth. */
  predicate LoopsCommentFree(es: seq<Expr>) {
    forall k :: 0 <= k < |es| && es[k].Loop? ==> CommentFree(es[k].body)
  }

  lemma LoopsCommentFreeAppend(a: seq<Expr>, b: seq<Expr>)
    requires LoopsCommentFree(a) && LoopsCommentFree(b)
    ensures LoopsCommentFree(a + b)
  {
    forall k | 0 <= k < |a + b| && (a + b)[k].Loop?
      ensures CommentFree((a + b)[k].body)
    {
      if k < |a| {
        assert (a + b)[k] == a[k];
      } else {
        assert (a + b)[k] == b[k - |a|];
      }
    }
  }

  /** A top-level child is never a loop. */
  lemma TopChildLoopFree(t: Token, source: string)
    requires t.span.start <= t.span.end <= |source|
    ensures LoopsCommentFree(TopChild(t, source))
  {
  }

  /** Comments and line breaks inside brackets are dropped; only the top level
      keeps them. */
  lemma {:induction false} BuildLoopsCommentFree(ts: seq<Token>, source: string, i: nat, inner: seq<Expr>, pos: Pos)
    requires i <= |ts| && Ordered(ts) && Within(ts, |source|) && LoopsCommentFree(inner)
    ensures var r := BuildFrom(ts, source, i, inner, pos);
      r.Success? ==> LoopsCommentFree(r.value.inner)
    decreases |ts| - i
  {
    var r := BuildFrom(ts, source, i, inner, pos);
    if i < |ts| && r.Success? {
      var t := ts[i];
      var p := pos.Add(Advance(t));
      if t.kind == OpenSquare {
        OpenStep(ts, source, i, inner, pos);
        var q := Region(ts, i + 1, p).value;
        assert r == BuildFrom(ts, source, q.next, inner + [q.node], q.pos);
        RegionCommentFree(ts, i + 1, [], Pos(0, 0), p);
        assert LoopsCommentFree([q.node]);
        LoopsCommentFreeAppend(inner, [q.node]);
        BuildLoopsCommentFree(ts, source, q.next, inner + [q.node], q.pos);
      } else {
        BuildStep(ts, source, i, inner, pos);
        var c := TopChild(t, source);
        TopChildLoopFree(t, source);
        LoopsCommentFreeAppend(inner, c);
        BuildLoopsCommentFree(ts, source, i + 1, inner + c, p);
      }
    }
  }

  /** After a successful build the position has grown by the advance of every
      token, inside loops and unknown text included: the column by the summed
      length of all tokens but line breaks, the line by the number of line
      breaks. */
  lemma {:induction false} BuildPosition(ts: seq<Token>, source: string, i: nat, inner: seq<Expr>, pos: Pos)
    requires i <= |ts| && Ordered(ts) && Within(ts, |source|)
    ensures var r := BuildFrom(ts, source, i, inner, pos);
      r.Success? ==> r.value.pos == pos.Add(Measure(ts, i, |ts|))
    decreases |ts| - i, 1
  {
    if i < |ts| && BuildFrom(ts, source, i, inner, pos).Success? {
      if ts[i].kind == OpenSquare {
        LoopPosition(ts, source, i, inner, pos);
      } else {
        assert ts[i].kind != CloseSquare;
        TopPosition(ts, source, i, inner, pos);
      }
    }
  }

  /** The step of BuildPosition over a top-level `[`. */
  lemma {:induction false} LoopPosition(ts: seq<Token>, source: string, i: nat, inner: seq<Expr>, pos: Pos)
    requires i < |ts| && Ordered(ts) && Within(ts, |source|) && ts[i].kind == OpenSquare
    requires BuildFrom(ts, source, i, inner, pos).Success?
    ensures BuildFrom(ts, source, i, inner, pos).value.pos == pos.Add(Measure(ts, i, |ts|))
    decreases |ts| - i, 0
  {
    var r := BuildFrom(ts, source, i, inner, pos);
    var p := pos.Add(Advance(ts[i]));
    var q := Region(ts, i + 1, p).value;
    var m := q.next;
    assert r == BuildFrom(ts, source, m, inner + [q.node], q.pos);
    assert q.pos == p.Add(Pos(0, 0)).Add(Measure(ts, i + 1, m)) by {
      RegionAdvance(ts, i + 1, [], Pos(0, 0), p);
    }
    assert r.value.pos == q.pos.Add(Measure(ts, m, |ts|)) by {
      BuildPosition(ts, source, m, inner + [q.node], q.pos);
    }
    MeasureSplit(ts, i + 1, m, |ts|);
  }

  /** The step of BuildPosition over a top-level token that is not a bracket. */
  lemma {:induction false} TopPosition(ts: seq<Token>, source: string, i: nat, inner: seq<Expr>, pos: Pos)
    requires i < |ts| && Ordered(ts) && Within(ts, |source|)
    requires ts[i].kind != OpenSquare && ts[i].kind != CloseSquare
    requires BuildFrom(ts, source, i, inner, pos).Success?
    ensures BuildFrom(ts, source, i, inner, pos).value.pos == pos.Add(Measure(ts, i, |ts|))
    decreases |ts| - i, 0
  {
    var t := ts[i];
    assert t in ts;
    var p := pos.Add(Advance(t));
    assert BuildFrom(ts, source, i, inner, pos) == BuildFrom(ts, source, i + 1, inner + TopChild(t, source), p);
    BuildPosition(ts, source, i + 1, inner + TopChild(t, source), p);
  }

  /** Execution stopped normally, at a `,` with no input left (where
      `Vec::remove` panics), or because a loop ran out of fuel. */
  datatype Status = Done | InputExhausted | OutOfFuel

  datatype Outcome = Outcome(status: Status, st: State)

  /** Node counts, so that the walk over a tree can decrease. */
  function Size(e: Expr): (n: nat)
    ensures n >= 1
    decreases e
  {
    match e
    case Loop(body) => SizeOf(body) + 2
    case _ => 1
  }

  function SizeOf(es: seq<Expr>): nat
    decreases es
  {
    if es == [] then 0 else Size(es[0]) + SizeOf(es[1..])
  }

  /** The effect of one command that neither reads input nor loops. */
  function Step(e: Expr, st: State): (r: State)
    requires WellFormed(st) && !e.Comma? && !e.Loop?
    ensures WellFormed(r)
    ensures forall k :: 0 <= k < TapeSize && k != st.ptr ==> r.tape[k] == st.tape[k]
    ensures e.Plus? ==> r.ptr == st.ptr && r.out == st.out && r.tape[st.ptr] == (st.tape[st.ptr] as int + 1) % 256
    ensures e.Minus? ==> r.ptr == st.ptr && r.out == st.out && r.tape[st.ptr] == (st.tape[st.ptr] as int + 255) % 256
    ensures e.ShiftR? ==> r.tape == st.tape && r.out == st.out && r.ptr == (st.ptr + 1) % 256
    ensures e.ShiftL? ==> r.tape == st.tape && r.out == st.out && r.ptr == (st.ptr + 255) % 256
    ensures e.Dot? ==> r.tape == st.tape && r.ptr == st.ptr && r.out == st.out + [st.tape[st.ptr]]
    ensures e.Comment? ==> r == st
  {
    match e
    case Dot => st.(out := st.out + [st.tape[st.ptr]])
    case Plus => st.(tape := st.tape[st.ptr := WrapInc(st.tape[st.ptr])])
    case Minus => st.(tape := st.tape[st.ptr := WrapDec(st.tape[st.ptr])])
    case ShiftR => st.(ptr := PtrRight(st.ptr))
    case ShiftL => st.(ptr := PtrLeft(st.ptr))
    case Comment(_) => st
  }

  /** `Ast::run` over the nodes `es`, from state `st`, with the input queue
      `input`, which a `,` consumes from the front. */
  function Exec(es: seq<Expr>, st: State, input: seq<u8>, fuel: nat): (r: Outcome)
    requires WellFormed(st)
    ensures WellFormed(r.st)
    ensures st.out <= r.st.out
    decreases fuel, SizeOf(es)
  {
    if es == [] then Outcome(Done, st)
    else
      match es[0]
      case Comma =>
        if input == [] then Outcome(InputExhausted, st)
        else Exec(es[1..], st.(tape := st.tape[st.ptr := input[0]]), input[1..], fuel)
      case Loop(body) =>
        assert SizeOf(es) == SizeOf(body) + 2 + SizeOf(es[1..]);
        var o := RunLoop(body, st, input, fuel);
        if o.status == Done then Exec(es[1..], o.st, input, fuel) else o
      case _ => Exec(es[1..], Step(es[0], st), input, fuel)
  }

  /** A `Loop` node: while the current cell is not 0, run the body on a fresh
      copy of the queue as it stood when the loop was reached. */
  function RunLoop(body: seq<Expr>, st: State, input: seq<u8>, fuel: nat): (r: Outcome)
    requires WellFormed(st)
    ensures WellFormed(r.st)
    ensures st.out <= r.st.out
    ensures r.status == Done ==> r.st.tape[r.st.ptr] == 0
    decreases fuel, SizeOf(body) + 1
  {
    if st.tape[st.ptr] == 0 then Outcome(Done, st)
    else if fuel == 0 then Outcome(OutOfFuel, st)
    else
      var o := Exec(body, st, input, fuel - 1);
      if o.status == Done then RunLoop(body, o.st, input, fuel - 1) else o
  }

  /** `n` copies of `+` add `n` to the current cell, modulo 256, and change
      nothing else. */
  lemma {:induction false} PlusesAdd(n: nat, st: State, input: seq<u8>, fuel: nat)
    requires WellFormed(st)
    ensures Exec(seq(n, _ => Expr.Plus), st, input, fuel) ==
      Outcome(Done, st.(tape := st.tape[st.ptr := (st.tape[st.ptr] + n) % 256]))
  {
    var es := seq(n, _ => Expr.Plus);
    if n == 0 {
      assert st.tape[st.ptr := st.tape[st.ptr] % 256] == st.tape;
    } else {
      assert es[0] == Expr.Plus && es[1..] == seq(n - 1, _ => Expr.Plus);
      var st1 := Step(Expr.Plus, st);
      PlusesAdd(n - 1, st1, input, fuel);
      assert (st1.tape[st.ptr] + (n - 1)) % 256 == (st.tape[st.ptr] + n) % 256;
      assert st1.tape[st.ptr := (st.tape[st.ptr] + n) % 256] == st.tape[st.ptr := (st.tape[st.ptr] + n) % 256];
    }
  }

  /** 256 increments bring every cell back to where it was. */
  lemma PlusCycle(st: State, input: seq<u8>, fuel: nat)
    requires WellFormed(st)
    ensures Exec(seq(256, _ => Expr.Plus), st, input, fuel) == Outcome(Done, st)
  {
    PlusesAdd(256, st, input, fuel);
    assert st.tape[st.ptr := (st.tape[st.ptr] as int + 256) % 256] == st.tape;
  }

  /** `+-`, `-+`, `><` and `<>` undo themselves, wrap-around included. */
  lemma InversePairs(st: State, input: seq<u8>, fuel: nat)
    requires WellFormed(st)
    ensures Exec([Expr.Plus, Expr.Minus], st, input, fuel) == Outcome(Done, st)
    ensures Exec([Expr.Minus, Expr.Plus], st, input, fuel) == Outcome(Done, st)
    ensures Exec([Expr.ShiftR, Expr.ShiftL], st, input, fuel) == Outcome(Done, st)
    ensures Exec([Expr.ShiftL, Expr.ShiftR], st, input, fuel) == Outcome(Done, st)
  {
    var p := st.ptr;
    var v := st.tape[p];
    assert [Expr.Plus, Expr.Minus][1..] == [Expr.Minus];
    assert [Expr.Minus, Expr.Plus][1..] == [Expr.Plus];
    assert [Expr.ShiftR, Expr.ShiftL][1..] == [Expr.ShiftL];
    assert [Expr.ShiftL, Expr.ShiftR][1..] == [Expr.ShiftR];
    var up, down := Step(Expr.Plus, st), Step(Expr.Minus, st);
    assert Exec([Expr.Plus, Expr.Minus], st, input, fuel) == Exec([Expr.Minus], up, input, fuel);
    assert Exec([Expr.Minus], up, input, fuel) == Exec([], Step(Expr.Minus, up), input, fuel);
    assert Step(Expr.Minus, up) == st;
    assert Exec([Expr.Minus, Expr.Plus], st, input, fuel) == Exec([Expr.Plus], down, input, fuel);
    assert Exec([Expr.Plus], down, input, fuel) == Exec([], Step(Expr.Plus, down), input, fuel);
    assert Step(Expr.Plus, down) == st;
  }

  /** A `,` with nothing left fails; otherwise it stores the first byte in
      the current cell and the next command sees the rest. */
  lemma CommaTakesFront(st: State, b: u8, rest: seq<u8>, fuel: nat)
    requires WellFormed(st)
    ensures Exec([Expr.Comma], st, [], fuel) == Outcome(InputExhausted, st)
    ensures Exec([Expr.Comma, Expr.Comma], st, [b] + rest, fuel).status ==
      if rest == [] then InputExhausted else Done
    ensures Exec([Expr.Comma], st, [b] + rest, fuel) == Outcome(Done, st.(tape := st.tape[st.ptr := b]))
  {
    assert ([b] + rest)[1..] == rest;
    assert [Expr.Comma, Expr.Comma][1..] == [Expr.Comma];
    var st1 := st.(tape := st.tape[st.ptr := b]);
    assert Exec([Expr.Comma, Expr.Comma], st, [b] + rest, fuel) == Exec([Expr.Comma], st1, rest, fuel);
  }

  /** A loop reached with the current cell at 0 is skipped. */
  lemma ZeroCellSkipsLoop(body: seq<Expr>, rest: seq<Expr>, st: State, input: seq<u8>, fuel: nat)
    requires WellFormed(st) && st.tape[st.ptr] == 0
    ensures Exec([Expr.Loop(body)] + rest, st, input, fuel) == Exec(rest, st, input, fuel)
  {
    assert ([Expr.Loop(body)] + rest)[0] == Expr.Loop(body);
    assert ([Expr.Loop(body)] + rest)[1..] == rest;
  }

  /** However many bytes the body's `,` consume, a `,` after the loop still
      reads the byte that was first in the queue when the loop was reached. */
  lemma LoopKeepsQueue(body: seq<Expr>, st: State, b: u8, rest: seq<u8>, fuel: nat)
    requires WellFormed(st) && RunLoop(body, st, [b] + rest, fuel).status == Done
    ensures var r := Exec([Expr.Loop(body), Expr.Comma], st, [b] + rest, fuel);
      r.status == Done && r.st.tape[r.st.ptr] == b
  {
    var o := RunLoop(body, st, [b] + rest, fuel);
    assert [Expr.Loop(body), Expr.Comma][1..] == [Expr.Comma];
    assert ([b] + rest)[1..] == rest;
    assert Exec([Expr.Comma], o.st, [b] + rest, fuel) == Exec([], o.st.(tape := o.st.tape[o.st.ptr := b]), rest, fuel);
  }

  /** `>,.<-`: read a byte into the next cell, write it out, and count the
      current cell down by one. */
  function EchoBody(): seq<Expr> {
    [Expr.ShiftR, Expr.Comma, Expr.Dot, Expr.ShiftL, Expr.Minus]
  }

  /** One pass of `>,.<-` with `b` at the front of the queue. */
  lemma EchoBodyOnce(st: State, b: u8, rest: seq<u8>, fuel: nat)
    requires WellFormed(st)
    ensures var p := st.ptr;
      Exec(EchoBody(), st, [b] + rest, fuel) ==
        Outcome(Done, State(st.tape[PtrRight(p) := b][p := WrapDec(st.tape[p])], p, st.out + [b]))
  {
    var es := EchoBody();
    var input := [b] + rest;
    var p := st.ptr;
    var q := PtrRight(p);
    var s1 := st.(ptr := q);
    var s2 := s1.(tape := st.tape[q := b]);
    var s3 := s2.(out := st.out + [b]);
    var s4 := s3.(ptr := p);
    var s5 := s4.(tape := st.tape[q := b][p := WrapDec(st.tape[p])]);
    assert input[1..] == rest;
    assert es[1..] == [Expr.Comma, Expr.Dot, Expr.ShiftL, Expr.Minus];
    assert es[2..] == [Expr.Dot, Expr.ShiftL, Expr.Minus];
    assert es[3..] == [Expr.ShiftL, Expr.Minus];
    assert es[4..] == [Expr.Minus];
    assert es[5..] == [];
    assert Exec(es, st, input, fuel) == Exec(es[1..], s1, input, fuel);
    assert Exec(es[1..], s1, input, fuel) == Exec(es[2..], s2, rest, fuel);
    assert Step(Expr.Dot, s2) == s3;
    assert Exec(es[2..], s2, rest, fuel) == Exec(es[3..], s3, rest, fuel);
    assert PtrLeft(q) == p;
    assert Exec(es[3..], s3, rest, fuel) == Exec(es[4..], s4, rest, fuel);
    assert s4.tape[p] == st.tape[p];
    assert Exec(es[4..], s4, rest, fuel) == Exec(es[5..], s5, rest, fuel);
  }

  /** Every iteration of `[>,.<-]` reads from a fresh copy of the queue: with
      `n` in the current cell the loop writes the queue's first byte `n`
      times, whatever follows it in the queue. */
  lemma {:induction false} EveryIterationRereads(st: State, b: u8, rest: seq<u8>, fuel: nat)
    requires WellFormed(st) && st.tape[st.ptr] <= fuel
    ensures var r := RunLoop(EchoBody(), st, [b] + rest, fuel);
      && r.status == Done && r.st.ptr == st.ptr
      && r.st.out == st.out + seq(st.tape[st.ptr], _ => b)
    decreases fuel
  {
    var n := st.tape[st.ptr];
    if n == 0 {
      assert st.out + seq(0, _ => b) == st.out;
    } else {
      var p := st.ptr;
      EchoBodyOnce(st, b, rest, fuel - 1);
      var st1 := State(st.tape[PtrRight(p) := b][p := WrapDec(st.tape[p])], p, st.out + [b]);
      assert st1.tape[p] == n - 1;
      EveryIterationRereads(st1, b, rest, fuel - 1);
      assert st.out + [b] + seq(n - 1, _ => b) == st.out + seq(n, _ => b);
    }
  }

  /** `++[>,.<-]` from a zero cell with the queue [7, 9] writes 7 twice: the
      second iteration reads the 7 again, not the 9. */
  lemma LoopRereadsFront(st: State, fuel: nat)
    requires WellFormed(st) && st.tape[st.ptr] == 0 && fuel >= 2
    ensures var r := Exec([Expr.Plus, Expr.Plus, Expr.Loop(EchoBody())], st, [7, 9], fuel);
      r.status == Done && r.st.out == st.out + [7, 7]
  {
    var es := [Expr.Plus, Expr.Plus, Expr.Loop(EchoBody())];
    var st1 := st.(tape := st.tape[st.ptr := 1]);
    var st2 := st.(tape := st.tape[st.ptr := 2]);
    assert es[1..] == [Expr.Plus, Expr.Loop(EchoBody())] && es[2..] == [Expr.Loop(EchoBody())] && es[3..] == [];
    assert Step(Expr.Plus, st) == st1;
    assert Step(Expr.Plus, st1) == st2;
    assert Exec(es, st, [7, 9], fuel) == Exec(es[2..], st2, [7, 9], fuel);
    assert [7, 9] == [7] + [9];
    EveryIterationRereads(st2, 7, [9], fuel);
    var o := RunLoop(EchoBody(), st2, [7, 9], fuel);
    assert o.status == Done && o.st.out == st.out + seq(2, _ => 7);
    assert Exec(es[2..], st2, [7, 9], fuel) == Exec(es[3..], o.st, [7, 9], fuel);
    assert seq(2, _ => 7) == [7, 7];
  }

  /** `[-]` counts the current cell down to 0, spending one unit of fuel per
      iteration; with too little fuel it stops part-way. */
  lemma {:induction false} ClearLoop(st: State, input: seq<u8>, fuel: nat)
    requires WellFormed(st)
    ensures var v := st.tape[st.ptr];
      RunLoop([Expr.Minus], st, input, fuel) ==
        if v <= fuel then Outcome(Done, st.(tape := st.tape[st.ptr := 0]))
        else Outcome(OutOfFuel, st.(tape := st.tape[st.ptr := v - fuel]))
    decreases fuel
  {
    var p := st.ptr;
    var v := st.tape[p];
    if v == 0 {
      assert st.tape[p := 0] == st.tape;
    } else if fuel == 0 {
      assert st.tape[p := v - 0] == st.tape;
    } else {
      var st1 := Step(Expr.Minus, st);
      assert Exec([Expr.Minus], st, input, fuel - 1) == Exec([], st1, input, fuel - 1);
      ClearLoop(st1, input, fuel - 1);
      assert st1.tape[p] == v - 1;
      assert st1.tape[p := 0] == st.tape[p := 0];
      if fuel < v {
        assert st1.tape[p := (v - 1) - (fuel - 1)] == st.tape[p := v - fuel];
      }
    }
  }

  /** A run that finished without running out of fuel gives the same result
      with any larger fuel. */
  lemma {:induction false} ExecFuelMonotone(es: seq<Expr>, st: State, input: seq<u8>, f: nat, g: nat)
    requires WellFormed(st) && f <= g && Exec(es, st, input, f).status != OutOfFuel
    ensures Exec(es, st, input, g) == Exec(es, st, input, f)
    decreases f, SizeOf(es)
  {
    if es != [] {
      match es[0]
      case Comma =>
        if input != [] {
          ExecFuelMonotone(es[1..], st.(tape := st.tape[st.ptr := input[0]]), input[1..], f, g);
        }
      case Loop(body) =>
        assert SizeOf(es) == SizeOf(body) + 2 + SizeOf(es[1..]);
        RunLoopFuelMonotone(body, st, input, f, g);
        var o := RunLoop(body, st, input, f);
        if o.status == Done {
          ExecFuelMonotone(es[1..], o.st, input, f, g);
        }
      case _ =>
        ExecFuelMonotone(es[1..], Step(es[0], st), input, f, g);
    }
  }

  lemma {:induction false} RunLoopFuelMonotone(body: seq<Expr>, st: State, input: seq<u8>, f: nat, g: nat)
    requires WellFormed(st) && f <= g && RunLoop(body, st, input, f).status != OutOfFuel
    ensures RunLoop(body, st, input, g) == RunLoop(body, st, input, f)
    decreases f, SizeOf(body) + 1
  {
    if st.tape[st.ptr] != 0 {
      var o := Exec(body, st, input, f - 1);
      ExecFuelMonotone(body, st, input, f - 1, g - 1);
      if o.status == Done {
        RunLoopFuelMonotone(body, o.st, input, f - 1, g - 1);
      }
    }
  }

  /** `Ast::run`: the loop over the nodes, with an inner `while` and a
      recursive call for each `Loop` node, updating the global memory. */
  method Execute(m: Machine, exprs: seq<Expr>, input: seq<u8>, fuel: nat) returns (status: Status)
    requires m.Valid()
    modifies m, m.memory
    ensures m.Valid()
    ensures Outcome(status, m.Snapshot()) == Exec(exprs, old(m.Snapshot()), input, fuel)
    decreases fuel, SizeOf(exprs)
  {
    var queue := input;
    var k := 0;
    while k < |exprs|
      invariant m.Valid() && k <= |exprs|
      invariant Exec(exprs, old(m.Snapshot()), input, fuel) == Exec(exprs[k..], m.Snapshot(), queue, fuel)
    {
      var e := exprs[k];
      assert exprs[k..][0] == e && exprs[k..][1..] == exprs[k + 1..];
      k := k + 1;
      match e {
        case Dot => m.output := m.output + [m.memory[m.pointer]];
        case Comma =>
          if |queue| == 0 {
            return InputExhausted;
          }
          m.memory[m.pointer] := queue[0];
          queue := queue[1..];
        case Plus => m.memory[m.pointer] := WrapInc(m.memory[m.pointer]);
        case Minus => m.memory[m.pointer] := WrapDec(m.memory[m.pointer]);
        case ShiftR => m.pointer := PtrRight(m.pointer);
        case ShiftL => m.pointer := PtrLeft(m.pointer);
        case Comment(_) =>
        case Loop(body) =>
          var f: nat := fuel;
          while m.memory[m.pointer] != 0
            invariant m.Valid() && f <= fuel
            invariant Exec(exprs, old(m.Snapshot()), input, fuel) ==
              var o := RunLoop(body, m.Snapshot(), queue, f);
              if o.status == Done then Exec(exprs[k..], o.st, queue, fuel) else o
            decreases f
          {
            if f == 0 {
              return OutOfFuel;
            }
            f := f - 1;
            var s := Execute(m, body, queue, f);
            if s != Done {
              return s;
            }
          }
      }
    }
    status := Done;
  }

  /** `Ast`: the node list and the position the builder keeps. */
  class Ast {
    var inner: seq<Expr>
    var pos: Pos

    /** `Ast::new`: no nodes, column 0 of line 1. */
    constructor ()
      ensures inner == [] && pos == Pos(0, 1)
    {
      inner := [];
      pos := Pos(0, 1);
    }

    /** `Ast::build`. A diagnostic followed by `exit(0)` becomes the returned
        error. */
    method Build(tokens: seq<Token>, source: string) returns (err: Option<ParseError>)
      requires Ordered(tokens) && Within(tokens, |source|)
      modifies this
      ensures match BuildFrom(tokens, source, 0, old(inner), old(pos))
        case Success(b) => err == None && inner == b.inner && pos == b.pos
        case Failure(e) => err == Some(e)
    {
      var i := 0;
      while i < |tokens|
        invariant i <= |tokens|
        invariant BuildFrom(tokens, source, 0, old(inner), old(pos)) == BuildFrom(tokens, source, i, inner, pos)
      {
        var token := tokens[i];
        assert token in tokens;
        ghost var stepped := pos.Add(Advance(token));
        i := i + 1;
        pos := Pos(pos.col + token.span.Len(), pos.line);
        assert token.kind != Newline ==> pos == stepped;
        match token.kind {
          case Dot => inner := inner + [Expr.Dot];
          case Comma => inner := inner + [Expr.Comma];
          case Plus => inner := inner + [Expr.Plus];
          case ShiftR => inner := inner + [Expr.ShiftR];
          case ShiftL => inner := inner + [Expr.ShiftL];
          case CloseSquare =>
            return Some(UnmatchedClose(pos));
          case Minus => inner := inner + [Expr.Minus];
          case Comment =>
            inner := inner + [Expr.Comment(source[token.span.start..token.span.end])];
          case Newline =>
            pos := Pos(pos.col - token.span.Len(), pos.line + 1);
            assert pos == stepped;
            inner := inner + [Expr.Comment(source[token.span.start..token.span.end])];
          case OpenSquare =>
            var r := Expect(tokens, i, pos);
            if r.Failure? {
              return Some(r.error);
            }
            inner := inner + [r.value.node];
            i := r.value.next;
            pos := r.value.pos;
          case Unknown =>
            assert inner + [] == inner;
        }
      }
      err := None;
    }

    /** `Ast::run` on this tree. */
    method Run(m: Machine, input: seq<u8>, fuel: nat) returns (status: Status)
      requires m.Valid()
      modifies m, m.memory
      ensures m.Valid()
      ensures Outcome(status, m.Snapshot()) == Exec(inner, old(m.Snapshot()), input, fuel)
    {
      status := Execute(m, inner, input, fuel);
    }
  }
}
