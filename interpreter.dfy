/** The wiring of src/main.rs: the ordered rule table, the choice of source
    text and input bytes, and the pipeline tokenize -> build -> run on a
    fresh machine. */
module Interpreter {
  import opened Wrappers
  import opened Lexer
  import opened Syntax
  import opened Tape
  import opened Cursor
  import opened Ast

  /** The rule table in declaration order, which is also the tie-break order. */
  function Rules(): (rs: seq<Rule>)
    ensures |rs| == 10
    ensures forall r :: r in rs ==> r.kind != Unknown
  {
    [ Rule(Kind.Dot, Char('.')),
      Rule(Kind.Comma, Char(',')),
      Rule(OpenSquare, Char('[')),
      Rule(CloseSquare, Char(']')),
      Rule(Kind.Plus, Char('+')),
      Rule(Kind.Minus, Char('-')),
      Rule(Kind.ShiftR, Char('>')),
      Rule(Kind.ShiftL, Char('<')),
      Rule(Kind.Comment, WordRun),
      Rule(Newline, NewlineRun) ]
  }

  /** The characters a pattern's match can begin with. */
  predicate Starts(p: Pattern, x: char) {
    match p
    case Char(c) => x == c
    case WordRun => IsWordOrSpace(x)
    case NewlineRun => x == '\n' || x == '\r'
  }

  /** Every pattern is anchored: a match begins at the first character. */
  lemma MatchStarts(p: Pattern, s: string)
    ensures MatchLen(p, s).Some? ==> |s| > 0 && Starts(p, s[0])
  {
  }

  /** The one rule of the table whose pattern can begin with `x`, if any. */
  function RuleOf(x: char): Option<nat> {
    if x == '.' then Some(0)
    else if x == ',' then Some(1)
    else if x == '[' then Some(2)
    else if x == ']' then Some(3)
    else if x == '+' then Some(4)
    else if x == '-' then Some(5)
    else if x == '>' then Some(6)
    else if x == '<' then Some(7)
    else if IsWordOrSpace(x) then Some(8)
    else if x == '\n' || x == '\r' then Some(9)
    else None
  }

  lemma StartsOnlyRuleOf(x: char, i: nat)
    requires i < |Rules()|
    ensures Starts(Rules()[i].pattern, x) ==> RuleOf(x) == Some(i)
  {
    assert i == 0 || i == 1 || i == 2 || i == 3 || i == 4 || i == 5 || i == 6 || i == 7 || i == 8 || i == 9;
  }

  /** No text is matched by two rules of the table, so the longest-match
      choice never has to break a tie here. */
  lemma RulesDisjoint(s: string, i: nat, j: nat)
    requires i < j < |Rules()|
    ensures MatchLen(Rules()[i].pattern, s).None? || MatchLen(Rules()[j].pattern, s).None?
  {
    MatchStarts(Rules()[i].pattern, s);
    MatchStarts(Rules()[j].pattern, s);
    if |s| > 0 {
      StartsOnlyRuleOf(s[0], i);
      StartsOnlyRuleOf(s[0], j);
    }
  }

  /** A tab, `#` or a `\r` not followed by `\n` matches no rule, so it ends
      up inside an Unknown token. */
  lemma NoRuleMatches(s: string)
    requires |s| > 0
    requires s[0] == '\t' || s[0] == '#' || (s[0] == '\r' && (|s| == 1 || s[1] != '\n'))
    ensures Choose(Rules(), s).None?
  {
    forall i | 0 <= i < |Rules()|
      ensures MatchLen(Rules()[i].pattern, s).None?
    {
      MatchStarts(Rules()[i].pattern, s);
      StartsOnlyRuleOf(s[0], i);
    }
    ChooseIsLongestEarliest(Rules(), s);
  }

  /** When the rule for the first character matches, token_valid picks it. */
  lemma ChooseByFirst(s: string)
    requires |s| > 0 && RuleOf(s[0]).Some?
    requires MatchLen(Rules()[RuleOf(s[0]).value].pattern, s).Some?
    ensures var i := RuleOf(s[0]).value;
      Choose(Rules(), s) == Some(Candidate(MatchLen(Rules()[i].pattern, s).value, i))
  {
    var i := RuleOf(s[0]).value;
    ChooseIsLongestEarliest(Rules(), s);
    var c := Choose(Rules(), s).value;
    MatchStarts(Rules()[c.index].pattern, s);
    StartsOnlyRuleOf(s[0], c.index);
  }

  /** The eight command characters. */
  predicate IsCommand(x: char) {
    x == '.' || x == ',' || x == '[' || x == ']' || x == '+' || x == '-' || x == '>' || x == '<'
  }

  /** The token kind of a command character. */
  function CommandKind(x: char): Kind
    requires IsCommand(x)
  {
    if x == '.' then Kind.Dot
    else if x == ',' then Kind.Comma
    else if x == '[' then OpenSquare
    else if x == ']' then CloseSquare
    else if x == '+' then Kind.Plus
    else if x == '-' then Kind.Minus
    else if x == '>' then Kind.ShiftR
    else Kind.ShiftL
  }

  /** A command character is a one-character token of its own rule. */
  lemma CommandChoice(s: string)
    requires |s| > 0 && IsCommand(s[0])
    ensures Choose(Rules(), s) == Some(Candidate(1, RuleOf(s[0]).value))
    ensures Rules()[RuleOf(s[0]).value].kind == CommandKind(s[0])
  {
    var i := RuleOf(s[0]).value;
    assert Rules()[i].pattern == Char(s[0]);
    ChooseByFirst(s);
  }

  /** A character that no rule can begin with: nothing matches there. */
  lemma NothingMatches(s: string)
    requires |s| > 0 && RuleOf(s[0]).None?
    ensures Choose(Rules(), s).None?
  {
    forall i | 0 <= i < |Rules()|
      ensures MatchLen(Rules()[i].pattern, s).None?
    {
      MatchStarts(Rules()[i].pattern, s);
      StartsOnlyRuleOf(s[0], i);
    }
    ChooseIsLongestEarliest(Rules(), s);
  }

  /** At a command character the lexer emits that command's one-character token. */
  lemma CommandToken(s: string, off: nat)
    requires |s| > 0 && IsCommand(s[0])
    ensures TokenAt(Rules(), s, off) == Token(CommandKind(s[0]), Span(off, off + 1))
  {
    CommandChoice(s);
  }

  /** A rule table under which every command character is a one-character
      token of its own kind. */
  ghost predicate CommandTokens(rs: seq<Rule>) {
    forall x: string, off: nat {:trigger TokenAt(rs, x, off)} :: |x| > 0 && IsCommand(x[0]) ==>
      TokenAt(rs, x, off) == Token(CommandKind(x[0]), Span(off, off + 1))
  }

  lemma RulesCommandTokens()
    ensures CommandTokens(Rules())
  {
    forall x: string, off: nat | |x| > 0 && IsCommand(x[0])
      ensures TokenAt(Rules(), x, off) == Token(CommandKind(x[0]), Span(off, off + 1))
    {
      CommandToken(x, off);
    }
  }

  /** One single-character token per command character, laid end to end from `off`. */
  function CommandTokensOf(s: string, off: nat): (ts: seq<Token>)
    requires forall k :: 0 <= k < |s| ==> IsCommand(s[k])
    ensures |ts| == |s|
    ensures forall k :: 0 <= k < |s| ==> ts[k] == Token(CommandKind(s[k]), Span(off + k, off + k + 1))
    decreases |s|
  {
    if s == [] then []
    else [Token(CommandKind(s[0]), Span(off, off + 1))] + CommandTokensOf(s[1..], off + 1)
  }

  /** Under such a table, a text made only of command characters lexes to
      one single-character token per character. */
  lemma {:induction false} LexCommandsWith(rs: seq<Rule>, s: string, off: nat)
    requires CommandTokens(rs)
    requires forall k :: 0 <= k < |s| ==> IsCommand(s[k])
    ensures Lex(rs, s, off) == CommandTokensOf(s, off)
    decreases |s|
  {
    if s != [] {
      var t := TokenAt(rs, s, off);
      assert t == Token(CommandKind(s[0]), Span(off, off + 1));
      assert t.span.Len() == 1 && t.span.end == off + 1;
      assert forall k :: 0 <= k < |s[1..]| ==> IsCommand(s[1..][k]) by {
        assert forall k :: 0 <= k < |s[1..]| ==> s[1..][k] == s[k + 1];
      }
      LexCommandsWith(rs, s[1..], off + 1);
      assert Lex(rs, s, off) == [t] + Lex(rs, s[1..], off + 1);
    }
  }

  /** A text made only of command characters lexes to one single-character
      token per character. */
  lemma LexCommands(s: string, off: nat)
    requires forall k :: 0 <= k < |s| ==> IsCommand(s[k])
    ensures Lex(Rules(), s, off) == CommandTokensOf(s, off)
  {
    RulesCommandTokens();
    LexCommandsWith(Rules(), s, off);
  }

  /** A character no rule accepts swallows the recognised token after it:
      "@+" is one Unknown token over both characters, and no `+`. */
  lemma UnknownSwallowsNext()
    ensures Lex(Rules(), "@+", 0) == [Token(Unknown, Span(0, 2))]
  {
    var s := "@+";
    NothingMatches(s);
    var plus := s[1..];
    assert |plus| == 1 && plus[0] == '+';
    CommandChoice(plus);
    assert FirstProbe(Rules(), s, 1) == 1;
    assert UnknownLen(Rules(), s) == 2;
    var t := Token(Unknown, Span(0, 2));
    assert TokenAt(Rules(), s, 0) == t;
    assert Lex(Rules(), s, 0) == [t] + Lex(Rules(), s[2..], 2);
    assert s[2..] == [];
  }

  /** The text the interpreter runs: the file's contents if a file was
      given, else the `-e` text, else the empty text. */
  function SourceText(file: Option<string>, evaluate: Option<string>): (s: string)
    ensures file.Some? ==> s == file.value
    ensures file.None? && evaluate.Some? ==> s == evaluate.value
    ensures file.None? && evaluate.None? ==> s == ""
  {
    match file
    case Some(text) => text
    case None => evaluate.GetOr("")
  }

  /** What running a program shows: the parse error that stopped it, or how
      execution ended and the bytes it wrote. */
  datatype Verdict = Rejected(error: ParseError) | Ran(status: Status, output: seq<u8>)

  /** The tokens of a fresh lexer lie inside the source. */
  lemma LexInSource(source: string)
    ensures Within(Lex(Rules(), source, 0), |source|)
    ensures Ordered(Lex(Rules(), source, 0))
  {
    LexReconstructs(Rules(), source);
    WithinOrdered(Lex(Rules(), source, 0), |source|);
  }

  /** Build from `Ast::new()` and run on the initial machine. */
  function RunTokens(ts: seq<Token>, source: string, input: seq<u8>, fuel: nat): (v: Verdict)
    requires Ordered(ts) && Within(ts, |source|)
    ensures v.Rejected? <==> !Balanced(ts, 0, 0)
    ensures v.Rejected? ==> (v.error.UnmatchedClose? <==> StrayCloseIndex(ts, 0, 0).Some?)
  {
    BuildError(ts, source, Pos(0, 1));
    match BuildFrom(ts, source, 0, [], Pos(0, 1))
    case Failure(e) => Rejected(e)
    case Success(b) =>
      var o := Exec(b.inner, Initial(), input, fuel);
      Ran(o.status, o.st.out)
  }

  /** Tokenize with a fresh lexer, then build and run. */
  function Pipeline(source: string, input: seq<u8>, fuel: nat): (v: Verdict)
    ensures v.Rejected? <==> !Balanced(Lex(Rules(), source, 0), 0, 0)
  {
    LexInSource(source);
    RunTokens(Lex(Rules(), source, 0), source, input, fuel)
  }

  /** The whole interpreter on a source text and the optional `--stdin`
      bytes, which default to none. */
  method Interpret(source: string, stdin: Option<seq<u8>>, fuel: nat) returns (v: Verdict)
    ensures v == Pipeline(source, stdin.GetOr([]), fuel)
  {
    var lexer := new Lexer.Build(Rules());
    var tokens := lexer.Tokenize(source);
    LexInSource(source);
    v := BuildAndRun(tokens, source, stdin.GetOr([]), fuel);
  }

  /** The build and run half of the wiring, on the lexer's tokens. */
  method BuildAndRun(tokens: seq<Token>, source: string, input: seq<u8>, fuel: nat) returns (v: Verdict)
    requires Ordered(tokens) && Within(tokens, |source|)
    ensures v == RunTokens(tokens, source, input, fuel)
  {
    var ast := new Ast();
    ghost var built := BuildFrom(tokens, source, 0, [], Pos(0, 1));
    var err := ast.Build(tokens, source);
    if err.Some? {
      assert built.Failure? && built.error == err.value;
      return Rejected(err.value);
    }
    assert built.Success? && ast.inner == built.value.inner;
    var machine := new Machine.Init();
    var status := ast.Run(machine, input, fuel);
    v := Ran(status, machine.output);
  }

  /** With neither a file nor `-e` the source is empty: no tokens, an empty
      tree, and a run that does nothing. */
  lemma EmptySource(input: seq<u8>, fuel: nat)
    ensures Lex(Rules(), SourceText(None, None), 0) == []
    ensures Pipeline(SourceText(None, None), input, fuel) == Ran(Done, [])
  {
  }

  /** The commands other than the brackets. */
  predicate IsFlatCommand(x: char) {
    IsCommand(x) && x != '[' && x != ']'
  }

  /** The node a top-level command character becomes. */
  function CommandExpr(x: char): Expr
    requires IsFlatCommand(x)
  {
    if x == '.' then Expr.Dot
    else if x == ',' then Expr.Comma
    else if x == '+' then Expr.Plus
    else if x == '-' then Expr.Minus
    else if x == '>' then Expr.ShiftR
    else Expr.ShiftL
  }

  /** A token of a command's kind becomes that command's node. */
  lemma TopChildOfCommand(x: char, t: Token, source: string)
    requires IsFlatCommand(x) && t.kind == CommandKind(x) && t.span.start <= t.span.end <= |source|
    ensures TopChild(t, source) == [CommandExpr(x)]
  {
  }

  /** The nodes of a bracket-free command text, one per character. */
  function CommandExprs(s: string): (es: seq<Expr>)
    requires forall k :: 0 <= k < |s| ==> IsFlatCommand(s[k])
    ensures |es| == |s|
    ensures forall k :: 0 <= k < |s| ==> es[k] == CommandExpr(s[k])
    decreases |s|
  {
    if s == [] then [] else [CommandExpr(s[0])] + CommandExprs(s[1..])
  }

  /** The token of a bracket-free command character: not a bracket, one
      column wide, and its node is that character's command. */
  lemma FlatToken(ts: seq<Token>, s: string, i: nat)
    requires |ts| == |s|
    requires forall k :: 0 <= k < |s| ==>
      IsFlatCommand(s[k]) && ts[k] == Token(CommandKind(s[k]), Span(k, k + 1))
    requires Within(ts, |s|) && i < |s|
    ensures ts[i].kind != OpenSquare && ts[i].kind != CloseSquare
    ensures ts[i].span.start <= ts[i].span.end <= |s| && Advance(ts[i]) == Pos(1, 0)
    ensures TopChild(ts[i], s) == [CommandExprs(s)[i]]
  {
    var t := ts[i];
    assert t == Token(CommandKind(s[i]), Span(i, i + 1));
    TopChildOfCommand(s[i], t, s);
  }

  lemma PrefixGrows(es: seq<Expr>, i: nat)
    requires i < |es|
    ensures es[..i] + [es[i]] == es[..i + 1]
  {
  }

  /** The tokens of a bracket-free command text build, from index `i` on, to
      the rest of its nodes, one column apiece. */
  lemma {:induction false} BuildFlat(ts: seq<Token>, s: string, i: nat)
    requires |ts| == |s|
    requires forall k :: 0 <= k < |s| ==>
      IsFlatCommand(s[k]) && ts[k] == Token(CommandKind(s[k]), Span(k, k + 1))
    requires Within(ts, |s|) && Ordered(ts) && i <= |s|
    ensures BuildFrom(ts, s, i, CommandExprs(s)[..i], Pos(i, 1)) == Success(Built(CommandExprs(s), Pos(|s|, 1)))
    decreases |s| - i
  {
    var es := CommandExprs(s);
    if i == |s| {
      assert es[..i] == es;
    } else {
      FlatToken(ts, s, i);
      BuildStep(ts, s, i, es[..i], Pos(i, 1));
      PrefixGrows(es, i);
      BuildFlat(ts, s, i + 1);
    }
  }

  /** A program without brackets always builds, to one node per character,
      and runs exactly those commands in order. */
  lemma FlatPipeline(s: string, input: seq<u8>, fuel: nat)
    requires forall k :: 0 <= k < |s| ==> IsFlatCommand(s[k])
    ensures var o := Exec(CommandExprs(s), Initial(), input, fuel);
      Pipeline(s, input, fuel) == Ran(o.status, o.st.out)
  {
    LexCommands(s, 0);
    LexInSource(s);
    BuildFlat(Lex(Rules(), s, 0), s, 0);
    assert CommandExprs(s)[..0] == [];
  }

  /** A bracket-free program runs the nodes `es` of its characters, so its
      verdict is the outcome `o` of running them. */
  lemma FlatOutcome(s: string, input: seq<u8>, fuel: nat, es: seq<Expr>, status: Status, out: seq<u8>)
    requires forall k :: 0 <= k < |s| ==> IsFlatCommand(s[k])
    requires |es| == |s| && forall k :: 0 <= k < |s| ==> es[k] == CommandExpr(s[k])
    requires Exec(es, Initial(), input, fuel).status == status
    requires Exec(es, Initial(), input, fuel).st.out == out
    ensures Pipeline(s, input, fuel) == Ran(status, out)
  {
    FlatPipeline(s, input, fuel);
    assert CommandExprs(s) == es;
  }

  /** `++.` on a zero cell. */
  lemma ExecIncrementTwiceAndWrite(st: State)
    requires WellFormed(st) && st.tape[st.ptr] == 0
    ensures Exec([Expr.Plus, Expr.Plus, Expr.Dot], st, [], 0) ==
      Outcome(Done, st.(tape := st.tape[st.ptr := 2], out := st.out + [2]))
  {
    var es := [Expr.Plus, Expr.Plus, Expr.Dot];
    var st1 := st.(tape := st.tape[st.ptr := 1]);
    var st2 := st.(tape := st.tape[st.ptr := 2]);
    assert es[1..] == [Expr.Plus, Expr.Dot] && es[2..] == [Expr.Dot] && es[3..] == [];
    assert Step(Expr.Plus, st) == st1;
    assert Step(Expr.Plus, st1) == st2;
    assert Step(Expr.Dot, st2) == st2.(out := st.out + [2]);
    assert Exec(es, st, [], 0) == Exec(es[1..], st1, [], 0);
    assert Exec(es[1..], st1, [], 0) == Exec(es[2..], st2, [], 0);
    assert Exec(es[2..], st2, [], 0) == Exec(es[3..], st2.(out := st.out + [2]), [], 0);
  }

  /** `++.` writes the byte 2. */
  lemma IncrementTwiceAndWrite(s: string)
    requires |s| == 3 && s[0] == '+' && s[1] == '+' && s[2] == '.'
    ensures Pipeline(s, [], 0) == Ran(Done, [2])
  {
    var st := Initial();
    ExecIncrementTwiceAndWrite(st);
    assert st.out + [2] == [2];
    FlatOutcome(s, [], 0, [Expr.Plus, Expr.Plus, Expr.Dot], Done, [2]);
  }

  /** `,.` with one queued byte. */
  lemma ExecEchoFirstByte(st: State, b: u8)
    requires WellFormed(st)
    ensures Exec([Expr.Comma, Expr.Dot], st, [b], 0) ==
      Outcome(Done, st.(tape := st.tape[st.ptr := b], out := st.out + [b]))
  {
    var es := [Expr.Comma, Expr.Dot];
    var st1 := st.(tape := st.tape[st.ptr := b]);
    assert es[1..] == [Expr.Dot] && es[2..] == [];
    assert [b][1..] == [];
    assert Exec(es, st, [b], 0) == Exec(es[1..], st1, [], 0);
    assert Step(Expr.Dot, st1) == st1.(out := st.out + [b]);
    assert Exec(es[1..], st1, [], 0) == Exec(es[2..], st1.(out := st.out + [b]), [], 0);
  }

  /** `,.` echoes the first input byte. */
  lemma EchoFirstByte(s: string)
    requires |s| == 2 && s[0] == ',' && s[1] == '.'
    ensures Pipeline(s, [65], 0) == Ran(Done, [65])
  {
    var st := Initial();
    ExecEchoFirstByte(st, 65);
    assert st.out + [65] == [65];
    FlatOutcome(s, [65], 0, [Expr.Comma, Expr.Dot], Done, [65]);
  }

  /** A `,` with no input left stops the run. */
  lemma ReadPastInput(s: string)
    requires |s| == 1 && s[0] == ','
    ensures Pipeline(s, [], 0) == Ran(InputExhausted, [])
  {
    FlatPipeline(s, [], 0);
    assert CommandExprs(s) == [Expr.Comma];
  }

  /** `]` as tokens: rejected before anything is built. */
  lemma BuildStrayClose(ts: seq<Token>, s: string)
    requires Ordered(ts) && Within(ts, |s|) && |ts| == 1 && ts[0] == Token(CloseSquare, Span(0, 1))
    ensures BuildFrom(ts, s, 0, [], Pos(0, 1)) == Failure(UnmatchedClose(Pos(1, 1)))
  {
  }

  /** A `]` with no `[` before it is rejected at column 1 of line 1, after
      its own length was counted. */
  lemma StrayClose(s: string)
    requires |s| == 1 && s[0] == ']'
    ensures Pipeline(s, [], 0) == Rejected(UnmatchedClose(Pos(1, 1)))
  {
    LexCommands(s, 0);
    LexInSource(s);
    BuildStrayClose(Lex(Rules(), s, 0), s);
  }

  /** `+[` as tokens: the `[` reaches the end unclosed. */
  lemma BuildUnclosedOpen(ts: seq<Token>, s: string)
    requires Ordered(ts) && Within(ts, |s|) && |ts| == 2
    requires ts[0] == Token(Kind.Plus, Span(0, 1)) && ts[1] == Token(OpenSquare, Span(1, 2))
    ensures BuildFrom(ts, s, 0, [], Pos(0, 1)) == Failure(UnmatchedOpen(Pos(2, 1)))
  {
    assert RegionFrom(ts, 2, [], Pos(0, 0), Pos(2, 1)) == Failure(UnmatchedOpen(Pos(2, 1)));
    assert BuildFrom(ts, s, 1, [Expr.Plus], Pos(1, 1)) == Failure(UnmatchedOpen(Pos(2, 1)));
    assert TopChild(ts[0], s) == [Expr.Plus];
    assert BuildFrom(ts, s, 0, [], Pos(0, 1)) == BuildFrom(ts, s, 1, [] + [Expr.Plus], Pos(1, 1));
    assert [] + [Expr.Plus] == [Expr.Plus];
  }

  /** An `[` that is never closed is rejected at the position after it. */
  lemma UnclosedOpen(s: string)
    requires |s| == 2 && s[0] == '+' && s[1] == '['
    ensures Pipeline(s, [], 0) == Rejected(UnmatchedOpen(Pos(2, 1)))
  {
    LexCommands(s, 0);
    LexInSource(s);
    var ts := CommandTokensOf(s, 0);
    assert ts[0] == Token(Kind.Plus, Span(0, 1)) && ts[1] == Token(OpenSquare, Span(1, 2));
    BuildUnclosedOpen(ts, s);
  }
}
