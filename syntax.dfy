/** The expression tree of src/ast.rs, the diagnostic position, the parse
    errors, and reference views used to state what the tree builder and the
    loop-region parser produce: the bracket-and-command skeleton of a token
    sequence or a tree, the position advance a token sequence causes, and a
    bracket-depth scan that says where a loop closes. */
module Syntax {
  import opened Wrappers
  import opened Lexer

  datatype Expr =
    | Dot | Comma | Plus | Minus | ShiftR | ShiftL
    | Comment(text: string)
    | Loop(body: seq<Expr>)

  /** Diagnostic position (column, line). */
  datatype Pos = Pos(col: nat, line: nat) {
    function Add(d: Pos): Pos {
      Pos(col + d.col, line + d.line)
    }
  }

  /** The two structural errors; the original prints them and exits. */
  datatype ParseError = UnmatchedClose(at: Pos) | UnmatchedOpen(at: Pos)

  /** Every span is ordered, so its length is defined. */
  predicate Ordered(ts: seq<Token>) {
    forall k :: 0 <= k < |ts| ==> ts[k].span.start <= ts[k].span.end
  }

  /** Spans that lie inside a text are ordered. */
  lemma WithinOrdered(ts: seq<Token>, n: nat)
    requires Within(ts, n)
    ensures Ordered(ts)
  {
    forall k | 0 <= k < |ts|
      ensures ts[k].span.start <= ts[k].span.end
    {
      assert ts[k] in ts;
    }
  }

  /** Commands and brackets, the part of a program that execution sees. */
  datatype Sym = SDot | SComma | SPlus | SMinus | SShiftR | SShiftL | SOpen | SClose

  /** A list of symbols. */
  datatype Syms = Nil | Cons(head: Sym, tail: Syms)

  function Cat(a: Syms, b: Syms): Syms {
    match a
    case Nil => b
    case Cons(h, t) => Cons(h, Cat(t, b))
  }

  function One(x: Sym): Syms {
    Cons(x, Nil)
  }

  function SymOf(k: Kind): Syms {
    match k
    case Dot => One(SDot)
    case Comma => One(SComma)
    case Plus => One(SPlus)
    case Minus => One(SMinus)
    case ShiftR => One(SShiftR)
    case ShiftL => One(SShiftL)
    case OpenSquare => One(SOpen)
    case CloseSquare => One(SClose)
    case Comment => Nil
    case Newline => Nil
    case Unknown => Nil
  }

  /** The symbols of one node: a Loop contributes its brackets around its body. */
  function FlatOne(e: Expr): Syms {
    match e
    case Dot => One(SDot)
    case Comma => One(SComma)
    case Plus => One(SPlus)
    case Minus => One(SMinus)
    case ShiftR => One(SShiftR)
    case ShiftL => One(SShiftL)
    case Comment(_) => Nil
    case Loop(body) => Cons(SOpen, Cat(Flatten(body), One(SClose)))
  }

  /** The commands and brackets a tree stands for, in order. */
  function Flatten(es: seq<Expr>): Syms {
    if es == [] then Nil else Cat(FlatOne(es[0]), Flatten(es[1..]))
  }

  /** No Comment node anywhere in the tree. */
  predicate CommentFree(es: seq<Expr>) {
    forall k :: 0 <= k < |es| ==>
      match es[k]
      case Comment(_) => false
      case Loop(body) => CommentFree(body)
      case _ => true
  }

  /** How far a token moves the position: a Newline one line, any other token
      its length in columns (the column is never reset). */
  function Advance(t: Token): Pos
    requires t.span.start <= t.span.end
  {
    if t.kind == Newline then Pos(0, 1) else Pos(t.span.end - t.span.start, 0)
  }

  /** The summed advance of the tokens at indices `a` to `b - 1`. */
  function Measure(ts: seq<Token>, a: nat, b: nat): Pos
    requires a <= b <= |ts| && Ordered(ts)
    decreases b - a
  {
    if a == b then Pos(0, 0) else Advance(ts[a]).Add(Measure(ts, a + 1, b))
  }

  /** Scanning from `i` with `depth` brackets open, the index of the `]` that
      brings the depth to zero, if there is one. */
  function CloseIndex(ts: seq<Token>, i: nat, depth: nat): (r: Option<nat>)
    requires i <= |ts| && depth >= 1
    ensures r.Some? ==> i <= r.value < |ts| && ts[r.value].kind == CloseSquare
    decreases |ts| - i
  {
    if i == |ts| then None
    else
      match ts[i].kind
      case OpenSquare => CloseIndex(ts, i + 1, depth + 1)
      case CloseSquare => if depth == 1 then Some(i) else CloseIndex(ts, i + 1, depth - 1)
      case _ => CloseIndex(ts, i + 1, depth)
  }

  /** From `i` on, with `depth` brackets open, no `]` ever closes a bracket
      that is not open and every open bracket is closed. */
  predicate Balanced(ts: seq<Token>, i: nat, depth: nat)
    requires i <= |ts|
    decreases |ts| - i
  {
    if i == |ts| then depth == 0
    else
      match ts[i].kind
      case OpenSquare => Balanced(ts, i + 1, depth + 1)
      case CloseSquare => depth > 0 && Balanced(ts, i + 1, depth - 1)
      case _ => Balanced(ts, i + 1, depth)
  }

  /** Scanning from `i` with `depth` brackets open, the index of the first `]`
      met with no bracket open, if there is one. */
  function StrayCloseIndex(ts: seq<Token>, i: nat, depth: nat): (r: Option<nat>)
    requires i <= |ts|
    ensures r.Some? ==> i <= r.value < |ts| && ts[r.value].kind == CloseSquare
    decreases |ts| - i
  {
    if i == |ts| then None
    else
      match ts[i].kind
      case OpenSquare => StrayCloseIndex(ts, i + 1, depth + 1)
      case CloseSquare => if depth == 0 then Some(i) else StrayCloseIndex(ts, i + 1, depth - 1)
      case _ => StrayCloseIndex(ts, i + 1, depth)
  }

  /** With `d` brackets open, a stray `]` can only come after the `]` that
      closes all `d` of them. */
  lemma {:induction false} StrayCloseSplit(ts: seq<Token>, i: nat, d: nat)
    requires i <= |ts| && d >= 1
    ensures StrayCloseIndex(ts, i, d) ==
      match CloseIndex(ts, i, d)
      case None => None
      case Some(k) => StrayCloseIndex(ts, k + 1, 0)
    decreases |ts| - i
  {
    if i < |ts| {
      var k := ts[i].kind;
      if k == OpenSquare {
        assert StrayCloseIndex(ts, i, d) == StrayCloseIndex(ts, i + 1, d + 1);
        assert CloseIndex(ts, i, d) == CloseIndex(ts, i + 1, d + 1);
        StrayCloseSplit(ts, i + 1, d + 1);
      } else if k == CloseSquare {
        assert StrayCloseIndex(ts, i, d) == StrayCloseIndex(ts, i + 1, d - 1);
        if d > 1 {
          assert CloseIndex(ts, i, d) == CloseIndex(ts, i + 1, d - 1);
          StrayCloseSplit(ts, i + 1, d - 1);
        } else {
          assert CloseIndex(ts, i, d) == Some(i);
        }
      } else {
        assert StrayCloseIndex(ts, i, d) == StrayCloseIndex(ts, i + 1, d);
        assert CloseIndex(ts, i, d) == CloseIndex(ts, i + 1, d);
        StrayCloseSplit(ts, i + 1, d);
      }
    }
  }

  lemma {:induction false} CatAssoc(a: Syms, b: Syms, c: Syms)
    ensures Cat(Cat(a, b), c) == Cat(a, Cat(b, c))
  {
    if a.Cons? {
      CatAssoc(a.tail, b, c);
    }
  }

  lemma {:induction false} CatNil(a: Syms)
    ensures Cat(a, Nil) == a
  {
    if a.Cons? {
      CatNil(a.tail);
    }
  }

  lemma {:induction false} FlattenAppend(a: seq<Expr>, b: seq<Expr>)
    ensures Flatten(a + b) == Cat(Flatten(a), Flatten(b))
    decreases |a|
  {
    if a == [] {
      assert a + b == b;
    } else {
      assert (a + b)[0] == a[0] && (a + b)[1..] == a[1..] + b;
      FlattenAppend(a[1..], b);
      CatAssoc(FlatOne(a[0]), Flatten(a[1..]), Flatten(b));
    }
  }

  lemma {:induction false} MeasureSplit(ts: seq<Token>, a: nat, b: nat, c: nat)
    requires a <= b <= c <= |ts| && Ordered(ts)
    ensures Measure(ts, a, c) == Measure(ts, a, b).Add(Measure(ts, b, c))
    decreases b - a
  {
    if a < b {
      MeasureSplit(ts, a + 1, b, c);
    }
  }

  /** Closing from depth `a + b` means first closing `a` levels, then `b`
      more after that `]`. */
  lemma {:induction false} CloseIndexSplit(ts: seq<Token>, i: nat, a: nat, b: nat)
    requires i <= |ts| && a >= 1 && b >= 1
    ensures CloseIndex(ts, i, a + b) ==
      match CloseIndex(ts, i, a)
      case None => None
      case Some(k) => CloseIndex(ts, k + 1, b)
    decreases |ts| - i
  {
    if i < |ts| {
      var k := ts[i].kind;
      if k == OpenSquare {
        assert CloseIndex(ts, i, a + b) == CloseIndex(ts, i + 1, (a + 1) + b);
        assert CloseIndex(ts, i, a) == CloseIndex(ts, i + 1, a + 1);
        CloseIndexSplit(ts, i + 1, a + 1, b);
      } else if k == CloseSquare {
        assert CloseIndex(ts, i, a + b) == CloseIndex(ts, i + 1, (a - 1) + b);
        if a > 1 {
          assert CloseIndex(ts, i, a) == CloseIndex(ts, i + 1, a - 1);
          CloseIndexSplit(ts, i + 1, a - 1, b);
        } else {
          assert CloseIndex(ts, i, a) == Some(i);
        }
      } else {
        assert CloseIndex(ts, i, a + b) == CloseIndex(ts, i + 1, a + b);
        assert CloseIndex(ts, i, a) == CloseIndex(ts, i + 1, a);
        CloseIndexSplit(ts, i + 1, a, b);
      }
    }
  }

  /** Balanced with `d + e` open brackets means the `e` innermost close somewhere,
      and the rest is balanced with `d` open after that `]`. */
  lemma {:induction false} BalancedSplit(ts: seq<Token>, i: nat, d: nat, e: nat)
    requires i <= |ts| && e >= 1
    ensures Balanced(ts, i, d + e) ==
      match CloseIndex(ts, i, e)
      case None => false
      case Some(k) => Balanced(ts, k + 1, d)
    decreases |ts| - i
  {
    if i < |ts| {
      var k := ts[i].kind;
      if k == OpenSquare {
        assert Balanced(ts, i, d + e) == Balanced(ts, i + 1, d + (e + 1));
        assert CloseIndex(ts, i, e) == CloseIndex(ts, i + 1, e + 1);
        BalancedSplit(ts, i + 1, d, e + 1);
      } else if k == CloseSquare {
        assert Balanced(ts, i, d + e) == Balanced(ts, i + 1, d + (e - 1));
        if e > 1 {
          assert CloseIndex(ts, i, e) == CloseIndex(ts, i + 1, e - 1);
          BalancedSplit(ts, i + 1, d, e - 1);
        } else {
          assert CloseIndex(ts, i, e) == Some(i);
        }
      } else {
        assert Balanced(ts, i, d + e) == Balanced(ts, i + 1, d + e);
        assert CloseIndex(ts, i, e) == CloseIndex(ts, i + 1, e);
        BalancedSplit(ts, i + 1, d, e);
      }
    }
  }

  /** The commands and brackets of the tokens at indices `a` to `b - 1`, in order. */
  function Skeleton(ts: seq<Token>, a: nat, b: nat): Syms
    requires a <= b <= |ts|
    decreases b - a
  {
    if a == b then Nil else Cat(SymOf(ts[a].kind), Skeleton(ts, a + 1, b))
  }

  lemma {:induction false} SkeletonSplit(ts: seq<Token>, a: nat, b: nat, c: nat)
    requires a <= b <= c <= |ts|
    ensures Skeleton(ts, a, c) == Cat(Skeleton(ts, a, b), Skeleton(ts, b, c))
    decreases b - a
  {
    if a < b {
      SkeletonSplit(ts, a + 1, b, c);
      CatAssoc(SymOf(ts[a].kind), Skeleton(ts, a + 1, b), Skeleton(ts, b, c));
    }
  }

  /** The skeleton of `[ inner ] rest`. */
  lemma BracketSkeleton(ts: seq<Token>, i: nat, m: nat, e: nat)
    requires i + 1 < m <= e <= |ts|
    requires ts[i].kind == OpenSquare && ts[m - 1].kind == CloseSquare
    ensures Skeleton(ts, i, e) ==
      Cons(SOpen, Cat(Skeleton(ts, i + 1, m - 1), Cons(SClose, Skeleton(ts, m, e))))
  {
    assert SymOf(ts[m - 1].kind) == One(SClose);
    assert Cat(One(SClose), Skeleton(ts, m, e)) == Cons(SClose, Skeleton(ts, m, e));
    assert Skeleton(ts, m - 1, e) == Cons(SClose, Skeleton(ts, m, e));
    assert SymOf(ts[i].kind) == One(SOpen);
    assert Skeleton(ts, i, e) == Cat(One(SOpen), Skeleton(ts, i + 1, e));
    assert Cat(One(SOpen), Skeleton(ts, i + 1, e)) == Cons(SOpen, Skeleton(ts, i + 1, e));
    SkeletonSplit(ts, i + 1, m - 1, e);
  }

  /** Appending a loop node to `done` and then symbols `rest` gives the
      symbols of `done` followed by `[ body ] rest`. */
  lemma AppendLoop(done: seq<Expr>, node: Expr, rest: Syms, whole: Syms, total: Syms)
    requires node.Loop?
    requires whole == Cat(Flatten(done + [node]), rest)
    requires total == Cons(SOpen, Cat(Flatten(node.body), Cons(SClose, rest)))
    ensures whole == Cat(Flatten(done), total)
  {
    FlattenAppend(done, [node]);
    CatNil(FlatOne(node));
    CatAssoc(Flatten(done), FlatOne(node), rest);
    CatAssoc(Flatten(node.body), One(SClose), rest);
  }

  /** Appending nodes `c` that stand for symbols `syms` to `done` and then
      symbols `rest` gives the symbols of `done` followed by `syms` and `rest`. */
  lemma AppendNodes(done: seq<Expr>, c: seq<Expr>, syms: Syms, rest: Syms, whole: Syms, total: Syms)
    requires Flatten(c) == syms
    requires whole == Cat(Flatten(done + c), rest)
    requires total == Cat(syms, rest)
    ensures whole == Cat(Flatten(done), total)
  {
    FlattenAppend(done, c);
    CatAssoc(Flatten(done), syms, rest);
  }
}
