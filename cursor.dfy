/** The loop-region parser of src/cursor.rs. The shared peekable token
    iterator is the token sequence plus the index of the next token; the
    `&mut pos` argument comes back as the `pos` of the result; printing the
    diagnostic and exiting becomes a `Failure`. */
module Cursor {
  import opened Wrappers
  import opened Lexer
  import opened Syntax

  /** A parsed loop node, the index of the first token after its `]`, and the
      outer position after the region has been added to it. */
  datatype Parsed = Parsed(node: Expr, next: nat, pos: Pos)

  /** What `Cursor::expect` yields when called with the iterator at `i`, just
      after an `[`, and the outer position `pos`. */
  function Region(ts: seq<Token>, i: nat, pos: Pos): (r: Result<Parsed, ParseError>)
    requires i <= |ts| && Ordered(ts)
    ensures r.Success? ==>
      r.value.node.Loop? && i < r.value.next <= |ts| && ts[r.value.next - 1].kind == CloseSquare
    decreases |ts| - i, 1
  {
    RegionFrom(ts, i, [], Pos(0, 0), pos)
  }

  /** The scan loop of `expect` from index `i`, with children `out` so far,
      the local position delta `phantom`, and the outer position `pos` (which
      nested regions update directly). */
  function RegionFrom(ts: seq<Token>, i: nat, out: seq<Expr>, phantom: Pos, pos: Pos)
    : (r: Result<Parsed, ParseError>)
    requires i <= |ts| && Ordered(ts)
    ensures r.Success? ==>
      r.value.node.Loop? && i < r.value.next <= |ts| && ts[r.value.next - 1].kind == CloseSquare
    decreases |ts| - i, 0
  {
    if i == |ts| then Failure(UnmatchedOpen(pos))
    else
      var t := ts[i];
      if t.kind == OpenSquare then
        match Region(ts, i + 1, pos)
        case Failure(e) => Failure(e)
        case Success(p) => RegionFrom(ts, p.next, out + [p.node], phantom.Add(Advance(t)), p.pos)
      else if t.kind == CloseSquare then
        Success(Parsed(Loop(out), i + 1, pos.Add(phantom.Add(Advance(t)))))
      else
        RegionFrom(ts, i + 1, out + LoopChild(t.kind), phantom.Add(Advance(t)), pos)
  }

  /** The child a non-bracket token adds inside a loop: its command, or
      nothing for comments, newlines and unknown text. */
  function LoopChild(k: Kind): (c: seq<Expr>)
    ensures |c| <= 1
    ensures c == [] <==>
      k == OpenSquare || k == CloseSquare || k == Kind.Comment || k == Newline || k == Unknown
    ensures c != [] ==> !c[0].Loop? && !c[0].Comment?
  {
    match k
    case Dot => [Expr.Dot]
    case Comma => [Expr.Comma]
    case Plus => [Expr.Plus]
    case Minus => [Expr.Minus]
    case ShiftR => [Expr.ShiftR]
    case ShiftL => [Expr.ShiftL]
    case _ => []
  }

  /** `Cursor::expect` for `Outputs::Loop`: pulls tokens until the `]` that
      closes this region, recursing on a nested `[`. */
  method Expect(tokens: seq<Token>, start: nat, pos: Pos) returns (r: Result<Parsed, ParseError>)
    requires start <= |tokens| && Ordered(tokens)
    ensures r == Region(tokens, start, pos)
    decreases |tokens| - start
  {
    var phantom := Pos(0, 0);
    var output: seq<Expr> := [];
    var safelyClosed := false;
    var cur := pos;
    var i := start;
    while i < |tokens|
      invariant start <= i <= |tokens| && !safelyClosed
      invariant Region(tokens, start, pos) == RegionFrom(tokens, i, output, phantom, cur)
      decreases |tokens| - i
    {
      var token := tokens[i];
      ghost var stepped := phantom.Add(Advance(token));
      i := i + 1;
      phantom := Pos(phantom.col + token.span.Len(), phantom.line);
      assert token.kind != Newline ==> phantom == stepped;
      match token.kind {
        case Dot => output := output + [Expr.Dot];
        case Plus => output := output + [Expr.Plus];
        case Minus => output := output + [Expr.Minus];
        case Comma => output := output + [Expr.Comma];
        case ShiftR => output := output + [Expr.ShiftR];
        case ShiftL => output := output + [Expr.ShiftL];
        case Comment =>
          assert output + [] == output;
        case Newline =>
          phantom := Pos(phantom.col - token.span.Len(), phantom.line + 1);
          assert phantom == stepped && output + [] == output;
        case OpenSquare =>
          var inner := Expect(tokens, i, cur);
          if inner.Failure? {
            return inner;
          }
          output := output + [inner.value.node];
          i := inner.value.next;
          cur := inner.value.pos;
        case CloseSquare =>
          safelyClosed := true;
          break;
        case Unknown =>
          assert output + [] == output;
      }
    }
    if !safelyClosed {
      return Failure(UnmatchedOpen(cur));
    }
    r := Success(Parsed(Loop(output), i, cur.Add(phantom)));
  }

  /** A region that parses ends at the `]` that closes it: the one the
      bracket-depth scan finds with one bracket open. It fails, with an
      unmatched `[`, exactly when there is no such `]`. */
  lemma {:induction false} RegionEndsAtClose(ts: seq<Token>, i: nat, out: seq<Expr>, phantom: Pos, pos: Pos)
    requires i <= |ts| && Ordered(ts)
    ensures RegionFrom(ts, i, out, phantom, pos).Success? <==> CloseIndex(ts, i, 1).Some?
    ensures RegionFrom(ts, i, out, phantom, pos).Success? ==>
      RegionFrom(ts, i, out, phantom, pos).value.next == CloseIndex(ts, i, 1).value + 1
    ensures RegionFrom(ts, i, out, phantom, pos).Failure? ==>
      RegionFrom(ts, i, out, phantom, pos).error.UnmatchedOpen?
    decreases |ts| - i
  {
    if i < |ts| {
      var t := ts[i];
      if t.kind == OpenSquare {
        CloseIndexSplit(ts, i + 1, 1, 1);
        RegionEndsAtClose(ts, i + 1, [], Pos(0, 0), pos);
        if Region(ts, i + 1, pos).Success? {
          var p := Region(ts, i + 1, pos).value;
          RegionEndsAtClose(ts, p.next, out + [p.node], phantom.Add(Advance(t)), p.pos);
        }
      } else if t.kind != CloseSquare {
        RegionEndsAtClose(ts, i + 1, out + LoopChild(t.kind), phantom.Add(Advance(t)), pos);
      }
    }
  }

  lemma {:induction false} RegionSkeleton(ts: seq<Token>, i: nat, out: seq<Expr>, phantom: Pos, pos: Pos)
    requires i <= |ts| && Ordered(ts)
    ensures var r := RegionFrom(ts, i, out, phantom, pos);
      r.Success? ==> Flatten(r.value.node.body) == Cat(Flatten(out), Skeleton(ts, i, r.value.next - 1))
    decreases |ts| - i, 1
  {
    var r := RegionFrom(ts, i, out, phantom, pos);
    if i < |ts| && r.Success? {
      var k := ts[i].kind;
      if k == CloseSquare {
        assert r.value.node.body == out && r.value.next - 1 == i;
        CatNil(Flatten(out));
      } else if k == OpenSquare {
        NestedSkeleton(ts, i, out, phantom, pos);
      } else {
        CommandSkeleton(ts, i, out, phantom, pos);
      }
    }
  }

  /** A whole region's `Loop` body stands for exactly the tokens between its
      brackets. */
  lemma LoopBodySkeleton(ts: seq<Token>, i: nat, pos: Pos)
    requires i <= |ts| && Ordered(ts) && Region(ts, i, pos).Success?
    ensures var p := Region(ts, i, pos).value;
      Flatten(p.node.body) == Skeleton(ts, i, p.next - 1)
    decreases |ts| - i, 2
  {
    RegionSkeleton(ts, i, [], Pos(0, 0), pos);
    assert Flatten([]) == Nil;
  }

  /** The step of RegionSkeleton over a nested `[`. */
  lemma {:induction false} NestedSkeleton(ts: seq<Token>, i: nat, out: seq<Expr>, phantom: Pos, pos: Pos)
    requires i < |ts| && Ordered(ts) && ts[i].kind == OpenSquare
    requires RegionFrom(ts, i, out, phantom, pos).Success?
    ensures var r := RegionFrom(ts, i, out, phantom, pos);
      Flatten(r.value.node.body) == Cat(Flatten(out), Skeleton(ts, i, r.value.next - 1))
    decreases |ts| - i, 0
  {
    var r := RegionFrom(ts, i, out, phantom, pos);
    var n := r.value.next;
    var p := Region(ts, i + 1, pos).value;
    var m := p.next;
    var ph := phantom.Add(Advance(ts[i]));
    assert r == RegionFrom(ts, m, out + [p.node], ph, p.pos);
    assert i + 1 < m < n && ts[m - 1].kind == CloseSquare;
    var rest := Skeleton(ts, m, n - 1);
    LoopBodySkeleton(ts, i + 1, pos);
    RegionSkeleton(ts, m, out + [p.node], ph, p.pos);
    BracketSkeleton(ts, i, m, n - 1);
    AppendLoop(out, p.node, rest, Flatten(r.value.node.body), Skeleton(ts, i, n - 1));
  }

  /** The step of RegionSkeleton over a token that is not a bracket. */
  lemma {:induction false} CommandSkeleton(ts: seq<Token>, i: nat, out: seq<Expr>, phantom: Pos, pos: Pos)
    requires i < |ts| && Ordered(ts) && ts[i].kind != OpenSquare && ts[i].kind != CloseSquare
    requires RegionFrom(ts, i, out, phantom, pos).Success?
    ensures var r := RegionFrom(ts, i, out, phantom, pos);
      Flatten(r.value.node.body) == Cat(Flatten(out), Skeleton(ts, i, r.value.next - 1))
    decreases |ts| - i, 0
  {
    var r := RegionFrom(ts, i, out, phantom, pos);
    var n := r.value.next;
    var k := ts[i].kind;
    var c := LoopChild(k);
    assert r == RegionFrom(ts, i + 1, out + c, phantom.Add(Advance(ts[i])), pos);
    var rest := Skeleton(ts, i + 1, n - 1);
    RegionSkeleton(ts, i + 1, out + c, phantom.Add(Advance(ts[i])), pos);
    LoopChildSkeleton(k);
    assert Flatten(r.value.node.body) == Cat(Flatten(out + c), rest);
    assert Skeleton(ts, i, n - 1) == Cat(SymOf(k), rest);
    AppendNodes(out, c, SymOf(k), rest, Flatten(r.value.node.body), Skeleton(ts, i, n - 1));
  }

  /** Comments and newlines inside a loop leave no child, at any depth. */
  lemma {:induction false} RegionCommentFree(ts: seq<Token>, i: nat, out: seq<Expr>, phantom: Pos, pos: Pos)
    requires i <= |ts| && Ordered(ts) && CommentFree(out)
    ensures var r := RegionFrom(ts, i, out, phantom, pos);
      r.Success? ==> CommentFree(r.value.node.body)
    decreases |ts| - i
  {
    var r := RegionFrom(ts, i, out, phantom, pos);
    if i < |ts| && r.Success? {
      var t := ts[i];
      var ph := phantom.Add(Advance(t));
      if t.kind == OpenSquare {
        var p := Region(ts, i + 1, pos).value;
        RegionCommentFree(ts, i + 1, [], Pos(0, 0), pos);
        assert CommentFree([p.node]);
        CommentFreeAppend(out, [p.node]);
        RegionCommentFree(ts, p.next, out + [p.node], ph, p.pos);
      } else if t.kind != CloseSquare {
        var c := LoopChild(t.kind);
        LoopChildSkeleton(t.kind);
        CommentFreeAppend(out, c);
        RegionCommentFree(ts, i + 1, out + c, ph, pos);
      }
    }
  }

  /** The outer position after a region that parses has grown by the advance
      of every token consumed, the closing `]` included (the opening `[` was
      counted by the caller). */
  lemma {:induction false} RegionAdvance(ts: seq<Token>, i: nat, out: seq<Expr>, phantom: Pos, pos: Pos)
    requires i <= |ts| && Ordered(ts)
    ensures var r := RegionFrom(ts, i, out, phantom, pos);
      r.Success? ==> r.value.pos == pos.Add(phantom).Add(Measure(ts, i, r.value.next))
    decreases |ts| - i, 1
  {
    var r := RegionFrom(ts, i, out, phantom, pos);
    if i < |ts| && r.Success? {
      var k := ts[i].kind;
      if k == CloseSquare {
        assert r.value.next == i + 1;
      } else if k == OpenSquare {
        NestedAdvance(ts, i, out, phantom, pos);
      } else {
        CommandAdvance(ts, i, out, phantom, pos);
      }
    }
  }

  /** The step of RegionAdvance over a nested `[`. */
  lemma {:induction false} NestedAdvance(ts: seq<Token>, i: nat, out: seq<Expr>, phantom: Pos, pos: Pos)
    requires i < |ts| && Ordered(ts) && ts[i].kind == OpenSquare
    requires RegionFrom(ts, i, out, phantom, pos).Success?
    ensures var r := RegionFrom(ts, i, out, phantom, pos);
      r.value.pos == pos.Add(phantom).Add(Measure(ts, i, r.value.next))
    decreases |ts| - i, 0
  {
    var r := RegionFrom(ts, i, out, phantom, pos);
    var n := r.value.next;
    var p := Region(ts, i + 1, pos).value;
    var m := p.next;
    var ph := phantom.Add(Advance(ts[i]));
    assert r == RegionFrom(ts, m, out + [p.node], ph, p.pos);
    assert p.pos == pos.Add(Pos(0, 0)).Add(Measure(ts, i + 1, m)) by {
      RegionAdvance(ts, i + 1, [], Pos(0, 0), pos);
    }
    assert r.value.pos == p.pos.Add(ph).Add(Measure(ts, m, n)) by {
      RegionAdvance(ts, m, out + [p.node], ph, p.pos);
    }
    MeasureSplit(ts, i + 1, m, n);
  }

  /** The step of RegionAdvance over a token that is not a bracket. */
  lemma {:induction false} CommandAdvance(ts: seq<Token>, i: nat, out: seq<Expr>, phantom: Pos, pos: Pos)
    requires i < |ts| && Ordered(ts) && ts[i].kind != OpenSquare && ts[i].kind != CloseSquare
    requires RegionFrom(ts, i, out, phantom, pos).Success?
    ensures var r := RegionFrom(ts, i, out, phantom, pos);
      r.value.pos == pos.Add(phantom).Add(Measure(ts, i, r.value.next))
    decreases |ts| - i, 0
  {
    var r := RegionFrom(ts, i, out, phantom, pos);
    var ph := phantom.Add(Advance(ts[i]));
    assert r == RegionFrom(ts, i + 1, out + LoopChild(ts[i].kind), ph, pos);
    RegionAdvance(ts, i + 1, out + LoopChild(ts[i].kind), ph, pos);
  }

  /** A non-bracket token's child inside a loop is its command symbol, or nothing. */
  lemma LoopChildSkeleton(k: Kind)
    requires k != OpenSquare && k != CloseSquare
    ensures CommentFree(LoopChild(k)) && Flatten(LoopChild(k)) == SymOf(k)
  {
  }

  lemma CommentFreeAppend(a: seq<Expr>, b: seq<Expr>)
    requires CommentFree(a) && CommentFree(b)
    ensures CommentFree(a + b)
  {
    forall k | 0 <= k < |a + b|
      ensures match (a + b)[k]
        case Comment(_) => false
        case Loop(body) => CommentFree(body)
        case _ => true
    {
      if k < |a| {
        assert (a + b)[k] == a[k];
      } else {
        assert (a + b)[k] == b[k - |a|];
      }
    }
  }
}
