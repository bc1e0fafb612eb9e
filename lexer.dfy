/** The tokenizer of src/lexer.rs: longest-match rule choice with a
    declared-order tie-break, the Unknown fallback, and the `Lexer` object
    whose `consumedLen` field gives every token its absolute span.

    Characters stand for source positions one to one: a span counts
    characters, which is the byte count of the original for ASCII text. */
module Lexer {
  import opened Wrappers

  datatype Kind =
    | Dot | Comma | OpenSquare | CloseSquare | Plus | Minus | ShiftR | ShiftL
    | Comment | Newline | Unknown

  /** Half-open range [start, end) of source positions. */
  datatype Span = Span(start: nat, end: nat) {
    /** `end - start`; the unsigned subtraction of the original needs `start <= end`. */
    function Len(): (n: nat)
      requires start <= end
      ensures start + n == end
      ensures n == 0 <==> start == end
    {
      end - start
    }
  }

  datatype Token = Token(kind: Kind, span: Span)

  /** The three shapes of anchored pattern the rule table is made of. */
  datatype Pattern =
    | Char(c: char)   // `^c`: exactly that one character
    | WordRun         // `^[\w ]+`
    | NewlineRun      // `^(\n|\r\n)+`

  datatype Rule = Rule(kind: Kind, pattern: Pattern)

  /** `\w` (approximated by ASCII letters, digits and `_`) or a space. */
  predicate IsWordOrSpace(c: char) {
    ('a' <= c <= 'z') || ('A' <= c <= 'Z') || ('0' <= c <= '9') || c == '_' || c == ' '
  }

  /** Length of the maximal run of word-or-space characters at the front of `s`. */
  function WordRunLen(s: string): (n: nat)
    ensures n <= |s|
  {
    if |s| > 0 && IsWordOrSpace(s[0]) then 1 + WordRunLen(s[1..]) else 0
  }

  /** The run is maximal: every character in it is a word character or a
      space, and the one after it (if any) is not. */
  lemma {:induction false} WordRunLenSpec(s: string)
    ensures forall k :: 0 <= k < WordRunLen(s) ==> IsWordOrSpace(s[k])
    ensures WordRunLen(s) < |s| ==> !IsWordOrSpace(s[WordRunLen(s)])
    decreases |s|
  {
    if |s| > 0 && IsWordOrSpace(s[0]) {
      WordRunLenSpec(s[1..]);
      assert forall k :: 1 <= k < WordRunLen(s) ==> s[k] == s[1..][k - 1];
    }
  }

  /** `t` is a concatenation of `\n` and `\r\n` units. */
  predicate NewlineUnits(t: string)
    decreases |t|
  {
    t == []
    || (t[0] == '\n' && NewlineUnits(t[1..]))
    || (|t| >= 2 && t[0] == '\r' && t[1] == '\n' && NewlineUnits(t[2..]))
  }

  /** `s` begins with `\n` or `\r\n`. */
  predicate StartsWithNewline(s: string) {
    |s| > 0 && (s[0] == '\n' || (|s| >= 2 && s[0] == '\r' && s[1] == '\n'))
  }

  /** Length of the maximal run of `\n` / `\r\n` units at the front of `s`. */
  function NewlineRunLen(s: string): (n: nat)
    ensures n <= |s|
  {
    if |s| > 0 && s[0] == '\n' then 1 + NewlineRunLen(s[1..])
    else if |s| >= 2 && s[0] == '\r' && s[1] == '\n' then 2 + NewlineRunLen(s[2..])
    else 0
  }

  /** The run is maximal: it is made of whole newline units, and no further
      unit follows it. */
  lemma {:induction false} NewlineRunLenSpec(s: string)
    ensures NewlineUnits(s[..NewlineRunLen(s)])
    ensures !StartsWithNewline(s[NewlineRunLen(s)..])
    decreases |s|
  {
    var n := NewlineRunLen(s);
    if |s| > 0 && s[0] == '\n' {
      NewlineRunLenSpec(s[1..]);
      assert s[..n][1..] == s[1..][..n - 1];
      assert s[n..] == s[1..][n - 1..];
    } else if |s| >= 2 && s[0] == '\r' && s[1] == '\n' {
      NewlineRunLenSpec(s[2..]);
      assert s[..n][2..] == s[2..][..n - 2];
      assert s[n..] == s[2..][n - 2..];
    } else {
      assert s[..0] == [] && s[0..] == s;
    }
  }

  /** End of the anchored match of `p` at the front of `s`, if it matches.
      Every pattern needs at least one character, which is what the
      `len > 0` assertion of token_valid relies on. */
  function MatchLen(p: Pattern, s: string): (r: Option<nat>)
    ensures r.Some? ==> 0 < r.value <= |s|
  {
    match p
    case Char(c) => if |s| > 0 && s[0] == c then Some(1) else None
    case WordRun => var n := WordRunLen(s); if n > 0 then Some(n) else None
    case NewlineRun => var n := NewlineRunLen(s); if n > 0 then Some(n) else None
  }

  /** A rule that matched: the match length and the rule's position in the table. */
  datatype Candidate = Candidate(len: nat, index: nat)

  /** The `filter_map` over `rules[..n]` iterated in reverse: one candidate per
      matching rule, later-declared rules first. */
  function Candidates(rules: seq<Rule>, s: string, n: nat): (cs: seq<Candidate>)
    requires n <= |rules|
    ensures |cs| <= n
  {
    if n == 0 then []
    else
      var rest := Candidates(rules, s, n - 1);
      match MatchLen(rules[n - 1].pattern, s)
      case Some(len) => [Candidate(len, n - 1)] + rest
      case None => rest
  }

  /** Each candidate is a real match of its rule, the candidates come in
      strictly decreasing rule order, and there are none exactly when no
      rule of `rules[..n]` matches. */
  lemma {:induction false} CandidatesSpec(rules: seq<Rule>, s: string, n: nat)
    requires n <= |rules|
    ensures var cs := Candidates(rules, s, n);
      && (forall q :: 0 <= q < |cs| ==>
            cs[q].index < n && MatchLen(rules[cs[q].index].pattern, s) == Some(cs[q].len))
      && (forall q, q' :: 0 <= q < q' < |cs| ==> cs[q].index > cs[q'].index)
      && (cs == [] <==> forall i :: 0 <= i < n ==> MatchLen(rules[i].pattern, s).None?)
    decreases n
  {
    if n > 0 {
      CandidatesSpec(rules, s, n - 1);
    }
  }

  /** Position of the element `max_by_key` keeps: a left fold that replaces the
      current best whenever the next key is at least as large, so the LAST
      maximal element wins. */
  function LastMax(cs: seq<Candidate>): (p: nat)
    requires |cs| > 0
    ensures p < |cs|
  {
    if |cs| == 1 then 0
    else
      var b := LastMax(cs[..|cs| - 1]);
      if cs[|cs| - 1].len >= cs[b].len then |cs| - 1 else b
  }

  /** `max_by_key` keeps a maximal length, and every later element is
      strictly shorter. */
  lemma {:induction false} LastMaxSpec(cs: seq<Candidate>)
    requires |cs| > 0
    ensures forall q :: 0 <= q < |cs| ==> cs[q].len <= cs[LastMax(cs)].len
    ensures forall q :: LastMax(cs) < q < |cs| ==> cs[q].len < cs[LastMax(cs)].len
    decreases |cs|
  {
    if |cs| > 1 {
      var init := cs[..|cs| - 1];
      LastMaxSpec(init);
      assert forall q :: 0 <= q < |init| ==> init[q] == cs[q];
    }
  }

  /** The rule token_valid picks at the front of `s`, if any. */
  function Choose(rules: seq<Rule>, s: string): (r: Option<Candidate>)
    ensures r.Some? ==>
      r.value.index < |rules| && MatchLen(rules[r.value.index].pattern, s) == Some(r.value.len)
  {
    var cs := Candidates(rules, s, |rules|);
    if cs == [] then None
    else
      CandidatesSpec(rules, s, |rules|);
      Some(cs[LastMax(cs)])
  }

  /** Where `q` in the candidate list holds rule `i`'s match. */
  lemma {:induction false} CandidateOf(rules: seq<Rule>, s: string, n: nat, i: nat) returns (q: nat)
    requires i < n <= |rules| && MatchLen(rules[i].pattern, s).Some?
    ensures q < |Candidates(rules, s, n)|
    ensures Candidates(rules, s, n)[q] == Candidate(MatchLen(rules[i].pattern, s).value, i)
  {
    if i == n - 1 {
      q := 0;
    } else {
      var q' := CandidateOf(rules, s, n - 1, i);
      q := if MatchLen(rules[n - 1].pattern, s).Some? then q' + 1 else q';
    }
  }

  /** token_valid's choice: no rule matches exactly when it yields nothing;
      otherwise it yields a matching rule of the greatest match length, and no
      earlier-declared rule matches with that same length. */
  lemma ChooseIsLongestEarliest(rules: seq<Rule>, s: string)
    ensures Choose(rules, s).None? <==> forall i :: 0 <= i < |rules| ==> MatchLen(rules[i].pattern, s).None?
    ensures Choose(rules, s).Some? ==>
      var c := Choose(rules, s).value;
      && (forall i :: 0 <= i < |rules| && MatchLen(rules[i].pattern, s).Some? ==>
            MatchLen(rules[i].pattern, s).value <= c.len)
      && (forall i :: 0 <= i < c.index ==> MatchLen(rules[i].pattern, s) != Some(c.len))
  {
    var cs := Candidates(rules, s, |rules|);
    CandidatesSpec(rules, s, |rules|);
    if cs != [] {
      var p := LastMax(cs);
      LastMaxSpec(cs);
      forall i | 0 <= i < |rules| && MatchLen(rules[i].pattern, s).Some?
        ensures MatchLen(rules[i].pattern, s).value <= cs[p].len
        ensures i < cs[p].index ==> MatchLen(rules[i].pattern, s) != Some(cs[p].len)
      {
        var q := CandidateOf(rules, s, |rules|, i);
        if i < cs[p].index {
          assert p < q;
        }
      }
    }
  }

  /** The first probe offset at or after `j` where some rule matches, or `|s|`:
      the `len` at which token_invalid's loop stops. */
  function FirstProbe(rules: seq<Rule>, s: string, j: nat): (r: nat)
    requires j <= |s|
    ensures j <= r <= |s|
    ensures r < |s| ==> Choose(rules, s[r..]).Some?
    decreases |s| - j
  {
    if j == |s| || Choose(rules, s[j..]).Some? then j else FirstProbe(rules, s, j + 1)
  }

  /** No rule matches at any offset the probe skips. */
  lemma {:induction false} FirstProbeSkips(rules: seq<Rule>, s: string, j: nat)
    requires j <= |s|
    ensures forall k :: j <= k < FirstProbe(rules, s, j) ==> Choose(rules, s[k..]).None?
    decreases |s| - j
  {
    if j < |s| && Choose(rules, s[j..]).None? {
      FirstProbeSkips(rules, s, j + 1);
    }
  }

  /** FirstProbe is the only offset with its defining properties. */
  lemma {:induction false} FirstProbeIs(rules: seq<Rule>, s: string, j: nat, r: nat)
    requires j <= r <= |s|
    requires forall k :: j <= k < r ==> Choose(rules, s[k..]).None?
    requires r < |s| ==> Choose(rules, s[r..]).Some?
    ensures FirstProbe(rules, s, j) == r
    decreases r - j
  {
    if j < r {
      FirstProbeIs(rules, s, j + 1, r);
    }
  }

  /** Length of the Unknown token token_invalid emits at the front of `s`: up to
      the first offset where a rule matches again, PLUS that rule's match, which
      the probing token_valid call has already added to `consumed_len`. */
  function UnknownLen(rules: seq<Rule>, s: string): (n: nat)
    ensures |s| > 0 ==> 1 <= n <= |s|
    ensures |s| == 0 ==> n == 0
  {
    if |s| == 0 then 0
    else
      var j := FirstProbe(rules, s, 1);
      match Choose(rules, s[j..])
      case Some(c) => j + c.len
      case None => j
  }

  /** The token next_token emits for the remaining input `s` when `off`
      characters have been consumed before it. */
  function TokenAt(rules: seq<Rule>, s: string, off: nat): (t: Token)
    ensures t.span.start == off
    ensures |s| > 0 ==> off < t.span.end <= off + |s|
  {
    match Choose(rules, s)
    case Some(c) => Token(rules[c.index].kind, Span(off, off + c.len))
    case None => Token(Unknown, Span(off, off + UnknownLen(rules, s)))
  }

  /** The token sequence tokenize produces for `s` when `off` characters were
      consumed before the call. */
  function Lex(rules: seq<Rule>, s: string, off: nat): (ts: seq<Token>)
    ensures |ts| <= |s|
    ensures ts == [] <==> s == []
    decreases |s|
  {
    if s == [] then []
    else
      var t := TokenAt(rules, s, off);
      [t] + Lex(rules, s[t.span.Len()..], t.span.end)
  }

  /** A non-empty text lexes to its first token, which is not empty and not
      longer than the text, followed by the tokens of what is left. */
  lemma LexFront(rules: seq<Rule>, s: string, off: nat)
    requires s != []
    ensures var t := TokenAt(rules, s, off);
      && 0 < t.span.Len() <= |s|
      && Lex(rules, s, off) == [t] + Lex(rules, s[t.span.Len()..], t.span.end)
  {
  }

  /** The tokens are non-empty spans laid end to end from `a` to `b`. */
  predicate Tiles(ts: seq<Token>, a: nat, b: nat)
    decreases |ts|
  {
    if ts == [] then a == b
    else ts[0].span.start == a && a < ts[0].span.end && Tiles(ts[1..], ts[0].span.end, b)
  }

  /** Every span is ordered and lies inside a text of length `n`. */
  predicate Within(ts: seq<Token>, n: nat) {
    forall t :: t in ts ==> t.span.start <= t.span.end <= n
  }

  /** Concatenation of the source texts of the tokens. */
  function Texts(ts: seq<Token>, source: string): string
    requires Within(ts, |source|)
  {
    if ts == [] then [] else source[ts[0].span.start..ts[0].span.end] + Texts(ts[1..], source)
  }

  /** Tokenizing from offset `off` yields non-empty spans that start at `off`,
      each beginning where the previous one ended, and end at `off + |s|`. */
  lemma {:induction false} LexTiles(rules: seq<Rule>, s: string, off: nat)
    ensures Tiles(Lex(rules, s, off), off, off + |s|)
    decreases |s|
  {
    if s != [] {
      var t := TokenAt(rules, s, off);
      var rest := Lex(rules, s[t.span.Len()..], t.span.end);
      LexTiles(rules, s[t.span.Len()..], t.span.end);
      assert Lex(rules, s, off) == [t] + rest;
      assert ([t] + rest)[0] == t && ([t] + rest)[1..] == rest;
    }
  }

  /** Tiled spans stay between their first start and their last end. */
  lemma {:induction false} TilesWithin(ts: seq<Token>, a: nat, b: nat)
    requires Tiles(ts, a, b)
    ensures a <= b && Within(ts, b)
    ensures forall t :: t in ts ==> a <= t.span.start
    decreases |ts|
  {
    if ts != [] {
      TilesWithin(ts[1..], ts[0].span.end, b);
      assert forall t :: t in ts ==> t == ts[0] || t in ts[1..];
    }
  }

  /** Spans that tile `source[a..]` give back exactly that text. */
  lemma {:induction false} TilesText(ts: seq<Token>, source: string, a: nat)
    requires Tiles(ts, a, |source|)
    ensures Within(ts, |source|) && a <= |source|
    ensures Texts(ts, source) == source[a..]
    decreases |ts|
  {
    TilesWithin(ts, a, |source|);
    if ts != [] {
      TilesText(ts[1..], source, ts[0].span.end);
      assert source[a..] == source[a..ts[0].span.end] + source[ts[0].span.end..];
    }
  }

  /** A fresh lexer's tokens concatenate back to the input. */
  lemma LexReconstructs(rules: seq<Rule>, s: string)
    ensures Within(Lex(rules, s, 0), |s|)
    ensures Texts(Lex(rules, s, 0), s) == s
  {
    LexTiles(rules, s, 0);
    TilesText(Lex(rules, s, 0), s, 0);
  }

  /** The token at the front is Unknown exactly when no rule matches there. */
  lemma TokenAtUnknown(rules: seq<Rule>, s: string, off: nat)
    requires forall r :: r in rules ==> r.kind != Unknown
    ensures TokenAt(rules, s, off).kind == Unknown <==> Choose(rules, s).None?
  {
    if Choose(rules, s).Some? {
      assert rules[Choose(rules, s).value.index] in rules;
    }
  }

  /** A token of the lexed sequence is Unknown exactly when no rule matches
      where it starts (given that no rule of the table produces Unknown).
      The text is `source[off..]`, so a token's span indexes `source`. */
  lemma {:induction false} UnknownExactlyWhenNoMatch(rules: seq<Rule>, source: string, off: nat)
    requires off <= |source|
    requires forall r :: r in rules ==> r.kind != Unknown
    ensures forall t :: t in Lex(rules, source[off..], off) ==>
      off <= t.span.start <= |source| &&
      (t.kind == Unknown <==> Choose(rules, source[t.span.start..]).None?)
    decreases |source| - off
  {
    var s := source[off..];
    if s != [] {
      var t0 := TokenAt(rules, s, off);
      var e := t0.span.end;
      assert off < e <= |source| && s[t0.span.Len()..] == source[e..];
      var rest := Lex(rules, source[e..], e);
      assert Lex(rules, s, off) == [t0] + rest;
      UnknownExactlyWhenNoMatch(rules, source, e);
      TokenAtUnknown(rules, s, off);
    }
  }

  /** The tokenizer object: an ordered rule table and a running count of the
      characters consumed so far, which positions every span it emits. */
  class Lexer {
    const rules: seq<Rule>
    var consumedLen: nat
    var inputStr: string

    /** `Lexer::build`: a fresh lexer over the given rule table. */
    constructor Build(rules: seq<Rule>)
      ensures this.rules == rules && consumedLen == 0 && inputStr == []
    {
      this.rules := rules;
      consumedLen := 0;
      inputStr := [];
    }

    /** Tries every rule at the front of `input`; on a match, advances
        `consumedLen` by the chosen rule's length. */
    method TokenValid(input: string) returns (t: Option<Token>)
      modifies this`consumedLen
      ensures match Choose(rules, input)
        case None => t == None && consumedLen == old(consumedLen)
        case Some(c) =>
          && t == Some(Token(rules[c.index].kind, Span(old(consumedLen), old(consumedLen) + c.len)))
          && consumedLen == old(consumedLen) + c.len
    {
      var longest := Choose(rules, input);
      if longest.None? {
        return None;
      }
      var len := longest.value.len;
      var prevLen := consumedLen;
      consumedLen := consumedLen + len;
      assert len > 0;
      t := Some(Token(rules[longest.value.index].kind, Span(prevLen, consumedLen)));
    }

    /** The Unknown fallback: grows `len` one character at a time, probing
        the rest with TokenValid (which advances `consumedLen` when it
        succeeds), then adds `len` on top. */
    method TokenInvalid(input: string) returns (t: Token)
      modifies this`consumedLen
      ensures t == Token(Unknown, Span(old(consumedLen), old(consumedLen) + UnknownLen(rules, input)))
      ensures consumedLen == t.span.end
    {
      var len := 0;
      var prevLen := consumedLen;
      while len < |input|
        invariant len <= |input|
        invariant consumedLen == prevLen
        invariant forall k :: 1 <= k <= len ==> Choose(rules, input[k..]).None?
      {
        len := len + 1;
        var probe := TokenValid(input[len..]);
        if probe.Some? {
          assert FirstProbe(rules, input, 1) == len by {
            FirstProbeIs(rules, input, 1, len);
          }
          break;
        }
      }
      assert len == |input| && len > 0 ==> FirstProbe(rules, input, 1) == len by {
        if len == |input| && len > 0 {
          FirstProbeIs(rules, input, 1, len);
        }
      }
      consumedLen := consumedLen + len;
      t := Token(Unknown, Span(prevLen, consumedLen));
    }

    /** A recognised token if some rule matches, the Unknown fallback otherwise. */
    method NextToken(input: string) returns (t: Token)
      modifies this`consumedLen
      ensures t == TokenAt(rules, input, old(consumedLen))
      ensures consumedLen == t.span.end
    {
      var valid := TokenValid(input);
      if valid.Some? {
        t := valid.value;
      } else {
        t := TokenInvalid(input);
      }
    }

    /** Emits tokens until the remaining input is empty, dropping each token's
        length from the front of what remains. */
    method Tokenize(input: string) returns (val: seq<Token>)
      modifies this`consumedLen, this`inputStr
      ensures inputStr == input
      ensures val == Lex(rules, input, old(consumedLen))
      ensures consumedLen == old(consumedLen) + |input|
    {
      val := [];
      inputStr := input;
      var rem := input;
      while rem != []
        invariant val + Lex(rules, rem, consumedLen) == Lex(rules, input, old(consumedLen))
        invariant consumedLen + |rem| == old(consumedLen) + |input|
        invariant inputStr == input
        decreases |rem|
      {
        ghost var before := consumedLen;
        var token := NextToken(rem);
        LexFront(rules, rem, before);
        var len := token.span.Len();
        assert (val + [token]) + Lex(rules, rem[len..], consumedLen) == val + Lex(rules, rem, before);
        val := val + [token];
        rem := rem[len..];
      }
    }
  }
}
