# A verified model of a Brainfuck interpreter

This project models, in Dafny, the interpreter pipeline of a small Brainfuck
interpreter written in Rust. The pipeline has three stages.

- **Tokenizer** (`src/lexer.rs`, with the rule table of `src/main.rs`).
  - At every offset it picks the rule with the longest anchored match; on a tie the earlier-declared rule wins.
  - Where no rule matches it emits an `Unknown` token instead.
  - `consumedLen` gives every token its absolute span.
- **Tree builder and loop-region parser** (`Ast::build` in `src/ast.rs`, `Cursor::expect` in `src/cursor.rs`).
  - They turn tokens into a tree of `Expr` nodes with nested `Loop` bodies and track a (column, line) position.
  - They reject a top-level `]` and an `[` that is never closed.
- **Executor** (`Ast::run`). It walks the tree against a 30000-cell byte tape and a cell pointer.
  - Cell arithmetic wraps modulo 256, and the pointer is truncated to 8 bits.
  - `,` takes bytes from the front of an input queue.
  - Every loop iteration runs its body on a fresh copy of the queue as it stood when the loop was reached.

The files follow the program's structure:

| file | module | models |
|---|---|---|
| `wrappers.dfy` | `Wrappers` | `Option` and `Result` |
| `lexer.dfy` | `Lexer` | `src/lexer.rs`: spans, tokens, the three pattern shapes, the longest-match choice, the Unknown fallback, the `Lexer` class |
| `syntax.dfy` | `Syntax` | the `Expr` tree, the position, the two parse errors, and reference views of a token sequence |
| `cursor.dfy` | `Cursor` | `src/cursor.rs`: `Cursor::expect` |
| `tape.dfy` | `Tape` | the tape and pointer statics of `src/main.rs` (lines 13-14), wrapping byte and pointer arithmetic |
| `ast.dfy` | `Ast` | `src/ast.rs`: `Ast::new`, `Ast::build`, `Ast::run` |
| `interpreter.dfy` | `Interpreter` | `src/main.rs`: the rule table, the source-text choice, the wiring; end-to-end examples |

The reference views in `Syntax` are:

- the skeleton, meaning the commands and brackets in order;
- the summed position advance;
- a bracket-depth scan.

The stateful parts are methods proved equal to specification functions, which in turn carry the lemmas:

- `Lexer.Tokenize` is proved against `Lex`.
- `Cursor.Expect` is proved against `Region`.
- `Ast.Build` is proved against `BuildFrom`.
- `Execute` is proved against `Exec` / `RunLoop`.

Two behaviours of the original are modelled as written, not fixed:

- An Unknown token runs through the end of the first token recognised after it. The probing call in `token_invalid` has already advanced `consumed_len`, so `"@+"` lexes to one Unknown token over both characters and no `+`.
- Every loop iteration gets a fresh copy of the input queue. A `,` after a loop therefore reads the same byte it would have read before the loop.

`Span::len` (`src/lexer.rs:17-19`) is `Lexer.Span.Len`, defined only for ordered spans, where the unsigned subtraction of the original cannot underflow.

## Model

| member | source | states |
|---|---|---|
| Lexer.WordRunLen | src/main.rs:89-92 | The word-or-space run at the front never exceeds the text |
| Lexer.WordRunLenSpec | src/main.rs:89-92 | The run is maximal: every character in it is a letter, digit, `_` or space, and the character after it is not |
| Lexer.NewlineRunLen | src/main.rs:93-96 | The newline run at the front never exceeds the text |
| Lexer.NewlineRunLenSpec | src/main.rs:93-96 | The run is made of whole `\n` / `\r\n` units, and no further unit follows it |
| Lexer.MatchLen | src/main.rs:57-96 | Every anchored pattern match is non-empty and lies within the remaining text, which is what the `len > 0` assertion relies on |
| Lexer.Candidates | src/lexer.rs:99-106 | At most one candidate per rule |
| Lexer.CandidatesSpec | src/lexer.rs:99-106 | Each candidate is a real match of its rule; the reversed iteration lists them in strictly decreasing rule order; there are none exactly when no rule matches |
| Lexer.LastMax | src/lexer.rs:107 | `max_by_key` picks a valid position |
| Lexer.LastMaxSpec | src/lexer.rs:107 | The kept element has the greatest length, and every later element is strictly shorter (the last maximum wins) |
| Lexer.Choose | src/lexer.rs:98-107 | A chosen candidate names a rule of the table that really matches with that length |
| Lexer.ChooseIsLongestEarliest | src/lexer.rs:99-107 | token_valid finds nothing exactly when no rule matches; otherwise it picks a greatest match length, and no earlier-declared rule matches with that length |
| Lexer.FirstProbe | src/lexer.rs:130-135 | The probe offset where token_invalid's loop stops lies between the start and the end of the text, and some rule matches there unless it is the end |
| Lexer.FirstProbeSkips | src/lexer.rs:130-135 | No rule matches at any offset the loop probes before it stops |
| Lexer.FirstProbeIs | src/lexer.rs:130-135 | The stopping offset is the only one with those two properties |
| Lexer.UnknownLen | src/lexer.rs:127-141 | An Unknown token over a non-empty text covers at least one and at most all of its characters |
| Lexer.TokenAt | src/lexer.rs:93-96 | The next token starts at the consumed count and is non-empty and inside the remaining text |
| Lexer.Span.Len | src/lexer.rs:17-19 | The length added to the start gives the end, and it is 0 exactly for an empty span |
| Lexer.TokenAtUnknown | src/lexer.rs:93-96 | The next token is Unknown exactly when no rule matches at the front, given a table without Unknown rules |
| Lexer.LexTiles | src/lexer.rs:79-91 | The emitted spans are non-empty and laid end to end from the starting offset to its sum with the text length |
| Lexer.LexReconstructs | src/lexer.rs:79-91 | For a fresh lexer every span lies inside the input, and the token texts concatenate back to the input |
| Lexer.UnknownExactlyWhenNoMatch | src/lexer.rs:93-96 | Every emitted token starts inside the text and is Unknown exactly when no rule matches where it starts |
| Lexer.Lex | src/lexer.rs:79-91 | Never more tokens than characters, and no tokens exactly for the empty text |
| Lexer.LexFront | src/lexer.rs:83-89 | One loop round: the first token is non-empty and inside the text, and the rest of the output is the lexing of what follows it |
| Lexer.Lexer.Build | src/lexer.rs:71-77 | A fresh lexer holds the given table, has consumed nothing and has an empty input copy |
| Lexer.Lexer.TokenValid | src/lexer.rs:98-125 | Without a matching rule nothing is emitted and `consumedLen` is unchanged; otherwise the chosen rule's token spans from the old count to the count advanced by its length |
| Lexer.Lexer.TokenInvalid | src/lexer.rs:127-141 | The Unknown token spans from the old count over the unmatched characters plus the probing match, and `consumedLen` ends at its end |
| Lexer.Lexer.NextToken | src/lexer.rs:93-96 | Emits `TokenAt` of the remaining input and advances `consumedLen` to its end |
| Lexer.Lexer.Tokenize | src/lexer.rs:79-91 | Returns `Lex` of the input from the old count, stores the input, and advances `consumedLen` by the input length |
| Cursor.RegionFrom | src/cursor.rs:29-61 | A scan that succeeds yields a `Loop` node and resumes right after a `]` |
| Cursor.Region | src/cursor.rs:16-64 | On success `expect` yields a `Loop` node (never `None`) and leaves the iterator right after a `]` |
| Cursor.Expect | src/cursor.rs:16-64 | The loop with its recursion returns exactly what `Region` specifies |
| Cursor.RegionEndsAtClose | src/cursor.rs:29-56 | A region parses exactly when a matching `]` exists; it resumes right after that `]`; the only failure is an unmatched `[` |
| Cursor.RegionSkeleton | src/cursor.rs:31-50 | The children keep every command and bracket of the consumed tokens, in order, with one `Loop` per nested bracket pair |
| Cursor.LoopBodySkeleton | src/cursor.rs:43-49 | A loop body stands for exactly the tokens between its brackets |
| Cursor.NestedSkeleton | src/cursor.rs:43-45 | A nested `[` contributes one inner `Loop` whose brackets surround its body's tokens |
| Cursor.CommandSkeleton | src/cursor.rs:31-42 | A command token contributes its own command, and a comment, line break or unknown token contributes nothing |
| Cursor.RegionCommentFree | src/cursor.rs:38-42 | Nothing inside a loop body is a `Comment`, at any depth |
| Cursor.RegionAdvance | src/cursor.rs:25-59 | On success the outer position grows by the advance of every consumed token, the closing `]` included and nested regions counted once |
| Cursor.LoopChildSkeleton | src/cursor.rs:31-50 | The child of a non-bracket token inside a loop is comment-free and stands for that token's command, or nothing |
| Cursor.LoopChild | src/cursor.rs:31-50 | A token inside a loop gives at most one child, none exactly for brackets, comments, line breaks and unknown text, and the child is never a `Loop` or a `Comment` |
| Ast.TopChildVersusLoopChild | src/ast.rs:39-79 | Top level and loop body agree on every non-bracket token except comments and line breaks, which only the top level keeps, with their source text |
| Ast.TopChildSkeleton | src/ast.rs:39-79 | A top-level node stands for the same command as its token; comments, line breaks and unknown text stand for none |
| Ast.TopChild | src/ast.rs:39-79 | A top-level token gives at most one node, and none exactly for a bracket or unknown text |
| Ast.BuildFrom | src/ast.rs:33-83 | A successful build ends with at least as many nodes as it started with, and at most one more per remaining token |
| Ast.BuildSucceedsIffBalanced | src/ast.rs:33-83 | The build fails exactly when the brackets do not balance |
| Ast.BuildErrorFrom | src/ast.rs:36-80 | From any token, the build reports the error the bracket-depth scan predicts: an unmatched `]` at the position just after the first `]` met with no bracket open; otherwise only an unmatched `[` |
| Ast.BuildError | src/ast.rs:33-83 | From the start, the build succeeds exactly when the brackets balance; a stray `]` fails as an unmatched `]` at the position after it, counted over every token before it; every other unbalanced input fails as an unmatched `[` |
| Ast.BalancedPastRegion | src/cursor.rs:29-56 | The brackets from an `[` balance exactly when its region parses and the brackets after the region balance |
| Ast.ScanPastRegion | src/cursor.rs:53-56 | The region after an `[` fails only as an unmatched `[`, and only when no stray `]` follows; when it parses, the scan for a stray `]` resumes after it |
| Ast.BuildSkeleton | src/ast.rs:39-79 | A successful build keeps every command and bracket of the tokens, in order, with one `Loop` node per bracket pair |
| Ast.BuildLoopsCommentFree | src/ast.rs:61-77 | No top-level `Loop` node contains a `Comment` at any depth |
| Ast.BuildPosition | src/ast.rs:29-67 | After a successful build the column has grown by the length of every non-newline token and the line by the number of line breaks, loops and unknown text included |
| Ast.Step | src/ast.rs:90-96 | `+` and `-` change only the current cell, by one modulo 256; `>` and `<` move the pointer modulo 256 and leave the tape alone; `.` appends the current cell to the output; a comment does nothing |
| Ast.Exec | src/ast.rs:85-107 | A run keeps the tape size and the pointer bound, and only appends to the output |
| Ast.RunLoop | src/ast.rs:97-103 | A loop that finishes leaves the current cell at 0, and only appends to the output |
| Ast.PlusesAdd | src/ast.rs:92 | `n` increments add `n` to the current cell modulo 256 and change nothing else |
| Ast.PlusCycle | src/ast.rs:92 | 256 increments restore the state |
| Ast.InversePairs | src/ast.rs:92-95 | `+-`, `-+`, `><` and `<>` undo themselves, wrap-around included |
| Ast.CommaTakesFront | src/ast.rs:91 | `,` on an empty queue fails; otherwise it stores the first byte, and the next `,` sees the rest |
| Ast.ZeroCellSkipsLoop | src/ast.rs:99 | A loop reached with the current cell at 0 is skipped |
| Ast.LoopKeepsQueue | src/ast.rs:97-103 | A `,` after a finished loop reads the byte that was first in the queue when the loop was reached, whatever the body consumed |
| Ast.EchoBodyOnce | src/ast.rs:90-95 | One round of `>,.<-` stores the first queued byte in the next cell, writes it, and decrements the current cell |
| Ast.EveryIterationRereads | src/ast.rs:97-103 | The loop `[>,.<-]` run with the current cell at `n` writes the first queued byte `n` times: every iteration rereads the same byte from a fresh copy of the queue |
| Ast.LoopRereadsFront | src/ast.rs:97-103 | From a zero cell, `++[>,.<-]` with the input 7, 9 writes 7, 7: the second iteration reads the 7 again, not the 9 |
| Ast.ClearLoop | src/ast.rs:97-103 | `[-]` counts the current cell down to 0, one iteration per unit of fuel, and stops part-way when fuel runs out |
| Ast.ExecFuelMonotone | src/ast.rs:99 | A run that did not run out of fuel gives the same result with more fuel |
| Ast.RunLoopFuelMonotone | src/ast.rs:99-102 | The same for a single loop |
| Ast.Execute | src/ast.rs:85-107 | The loop with its inner `while` and recursion leaves the machine in the state, and returns the status, that `Exec` specifies |
| Ast.Ast.constructor | src/ast.rs:26-31 | No nodes, position (0, 1) |
| Ast.Ast.Build | src/ast.rs:33-83 | On success the node list and position are those `BuildFrom` specifies; otherwise the error is returned |
| Ast.Ast.Run | src/ast.rs:85-107 | Runs the tree on the machine as `Exec` specifies |
| Tape.Initial | src/main.rs:13-14 | 30000 cells, all 0, pointer 0, nothing written |
| Tape.WrapInc | src/ast.rs:92 | Adds one to a byte, 255 wrapping to 0 |
| Tape.WrapDec | src/ast.rs:93 | Subtracts one from a byte, 0 wrapping to 255 |
| Tape.PtrRight | src/ast.rs:94 | Moves the pointer right, 255 wrapping to 0 |
| Tape.PtrLeft | src/ast.rs:95 | Moves the pointer left, 0 wrapping to 255 through the 64-bit wrap and the 8-bit cast |
| Tape.Machine.Init | src/main.rs:13-14 | The fresh machine is the initial state |
| Interpreter.Rules | src/main.rs:56-97 | Ten rules, none of which produces Unknown |
| Interpreter.MatchStarts | src/main.rs:59-95 | Every pattern is anchored: a match begins at the first character |
| Interpreter.RulesDisjoint | src/main.rs:57-96 | No text is matched by two rules of the table |
| Interpreter.NoRuleMatches | src/main.rs:89-96 | A tab, `#` or lone `\r` matches no rule |
| Interpreter.ChooseByFirst | src/lexer.rs:98-107 | When the rule for the first character matches, token_valid picks it with its match length |
| Interpreter.CommandChoice | src/main.rs:57-88 | Each command character is a one-character match of its own rule |
| Interpreter.NothingMatches | src/main.rs:56-97 | A character no rule can begin with matches nothing |
| Interpreter.CommandToken | src/lexer.rs:93-125 | At a command character the lexer emits that command's one-character token |
| Interpreter.LexCommandsWith | src/lexer.rs:79-91 | Under a table that lexes commands as one-character tokens, a command-only text lexes to one token per character |
| Interpreter.LexCommands | src/lexer.rs:79-91 | A command-only text lexes to one single-character token per character |
| Interpreter.UnknownSwallowsNext | src/lexer.rs:127-141 | `"@+"` lexes to one Unknown token spanning (0, 2) and no `+` |
| Interpreter.SourceText | src/main.rs:39-54 | The file's text if given, else the `-e` text, else the empty text |
| Interpreter.RunTokens | src/main.rs:99-100 | The build and run are rejected exactly when the brackets do not balance, and the rejection is an unmatched `]` exactly when the depth scan meets a stray `]` |
| Interpreter.Pipeline | src/main.rs:98-100 | A source text is rejected exactly when the brackets of its tokens do not balance |
| Interpreter.Interpret | src/main.rs:98-100 | Tokenizing with a fresh lexer, building and running on a fresh machine gives the pipeline's verdict, with absent `--stdin` as no input |
| Interpreter.BuildAndRun | src/main.rs:99-100 | A rejected build runs nothing; otherwise the tree runs on a fresh machine |
| Interpreter.EmptySource | src/main.rs:52-54 | With neither a file nor `-e` there are no tokens, and the run does nothing |
| Interpreter.TopChildOfCommand | src/ast.rs:40-60 | A top-level command token becomes its same-named node |
| Interpreter.BuildFlat | src/ast.rs:36-60 | A bracket-free command text builds to one node per character, moving one column apiece |
| Interpreter.FlatPipeline | src/main.rs:98-100 | A bracket-free program always builds and runs exactly its commands in order |
| Interpreter.ExecIncrementTwiceAndWrite | src/ast.rs:90-92 | `++.` on a zero cell leaves 2 there and writes 2 |
| Interpreter.IncrementTwiceAndWrite | src/main.rs:98-100 | The program `++.` writes the byte 2 |
| Interpreter.ExecEchoFirstByte | src/ast.rs:90-91 | `,.` stores and writes the first queued byte |
| Interpreter.EchoFirstByte | src/main.rs:98-100 | The program `,.` with the input byte 65 writes 65 back |
| Interpreter.ReadPastInput | src/ast.rs:91 | The program `,` with no input stops with the queue exhausted |
| Interpreter.BuildStrayClose | src/ast.rs:47-58 | A lone `]` token is rejected at position (1, 1), after its length was counted |
| Interpreter.StrayClose | src/ast.rs:37-58 | The program `]` is rejected at (1, 1) and nothing runs |
| Interpreter.BuildUnclosedOpen | src/cursor.rs:53-56 | The tokens of `+[` are rejected as an unmatched `[` at (2, 1) |
| Interpreter.UnclosedOpen | src/cursor.rs:53-56 | The program `+[` is rejected as an unmatched `[` at (2, 1) |

## Left out

- Text is a sequence of characters, and a span counts characters. The original counts UTF-8 bytes (`c.len_utf8()`), so the two agree only on ASCII text.
- `\w` is approximated by ASCII letters, digits and `_`. The Unicode word class of the `regex` crate is not modelled, and neither is the regex engine itself: the ten patterns are hand-written matchers.
- The position is unbounded. The original's `u32` would overflow past 4 294 967 295 characters or lines.
- `Span::new`, `Span::as_range`, `Display for Span` and the single-variant `Outputs` enum are not modelled as separate members.
- Argument parsing, the file-exists check and file reading become parameters of `SourceText`. The missing-file diagnostic and exit are not modelled.
- The diagnostics of `src/debug.rs` are not modelled. The coloured message followed by `exit(0)` becomes a `ParseError` value carrying the position.
- The `Vec::remove` panic on an empty queue becomes the `InputExhausted` status rather than a crash.
- `Dot` appends the cell's byte to an output sequence. Writing to stdout is not modelled, nor is the two-byte UTF-8 encoding that `print!("{}", x as char)` gives values of 128 and above.
- Exec, RunLoop, Execute: a run that does not terminate in the original is cut off by `fuel`, one unit per loop iteration, and reports `OutOfFuel`. The original has no such bound, so these state nothing about runs that need more fuel than given. ExecFuelMonotone shows that enough fuel never changes a result.
- Ast.Ast.Build: requires every token span to lie inside the source. Slicing would panic otherwise, and the lexer's tokens always satisfy this (Lexer.LexReconstructs).
- The `static mut` tape and pointer are the fields of one `Machine` object passed to `run`. Concurrent access is not modelled.
