# Verification of the benchmark's measuring instruments

This project models the parts of the benchmark that decide what a number means: how the reads of an
agent are recovered from its shell commands, how retrieval is scored, which trials of a study are
admitted, which attempt stands for a cell and what it cost, and how checkpoints are scored. The model
is written in Dafny, and what each part promises is proved for all inputs.

Code that works step by step (loops over an index, lists and dictionaries that grow, a lexer with
fields, a file under a lock, a runner with a judge) is modelled as methods and classes that are proved
equal to functions; the properties are then proved of those functions as lemmas.

## The parts

- **Shell lexer** (`Shell*.dfy`). `ShellSyntax` says what the tokens of a command are, on the text that
  is left; `ShellLexer` is the lexer as it runs, with an index, a buffer, a token list and a queue of
  here-documents, and computes the same. On top: locality and composition, here-documents in order,
  conservation of length, four ways of quoting and the bare way that all read back (`ShellQuoting`), trees of
  words and substitutions, bare or inside double quotes (`ShellTrees`), which the matcher of parentheses steps
  over (`ShellMatcher`) and the lexer reads back (`ShellRoundTrip`, `ShellReread`) exactly within its bound on
  nesting, and what every single form of the syntax comes to (`ShellForms`). The lexer follows the quoting, command-substitution and here-document rules of sections 2.2, 2.6.3
  and 2.7.4 of the Shell Command Language in IEEE Std 1003.1-2017.
- **Read extractor** (`BashRead*.dfy`, `BashRequoting.dfy`, `BashForms.dfy`). Every read is the argument of a reader
  that the command, or one it executes, invokes; reads compose; quoting does not matter; and every form of a command
  reads exactly what it should.
- **Retrieval metrics** (`IrMetrics.dfy`, `IrMetricForms.dfy`, `IrMetricLaws.dfy`, `IrMetricBounds.dfy`,
  `Alignment.dfy`). The metrics as sums over ranks, bounds and their exact conditions for an arbitrary positive
  decreasing discount, and the canonicalization of paths.
- **Study capsule** (`StudySpecs.dfy`, `Receipts.dfy`, `ReceiptLog.dfy`, `TrialKeys.dfy`, `Capsule.dfy`,
  `PairedView.dfy`, `StudyLaws.dfy`, `MeanScores.dfy`, `ReadingRules.dfy`). The specification and its hash, the rules
  of both file formats field by field, the locked append-only log as a state machine of many processes, and the
  admission of one trial per slot.
- **Sampling** (`Sampler.dfy`, `SamplerLaws.dfy`, `SampleShares.dfy`). Largest remainders hand out exactly `n`, and
  the shares are proportional in plain numbers.
- **Costs** (`AttemptPolicy.dfy`, `Comparison.dfy`, `ComparisonLaws.dfy`, `ScoreTable.dfy`,
  `TraceBilling.dfy`, `TraceForms.dfy`, `TraceLaws.dfy`). The matched comparison, its agreement with the score
  table, and the bill of a trace, line by line and as a whole.
- **Scoring** (`ScoreContract.dfy`, `ScorerGuard.dfy`, `Runner.dfy`, `RunnerLaws.dfy`). The guards, the
  two tiers and the latch on the judge.
- Shared: `Wrappers.dfy`, `Sequences.dfy`, `Arithmetic.dfy`, `Sums.dfy`, `Sorting.dfy`, `Grouping.dfy`.

## What does not hold

The model keeps the code as it is. Where a promise fails, a lemma shows an input, and another says
exactly when it holds.

- nDCG and average precision exceed 1 when a path is retrieved twice after normalization. Alignment removes
  duplicates by components, while the metrics compare normalized paths, so two spellings of one path survive
  alignment (`AlignmentKeepsTwins`) and break both bounds (`DuplicatesBreakNdcg`,
  `DuplicatesBreakAveragePrecision`). The bounds hold, for every discount and every ranking, exactly when the
  ranks hold no more hits than there are relevant paths (`NdcgBoundIsExact`, `AveragePrecisionBoundIsExact`), and
  for any one discount nDCG at k does in every order exactly when no more hits fit among k ranks than relevant
  paths do (`NdcgBoundInEveryOrderIsExact`).
- `$'…'` inside `$(…)`: the matcher of parentheses takes an escaped quote for the closing one and may lose the
  word (`AnsiQuoteHidesTheEnd`). Of all literals that the lexer reads back by themselves, in any of the five
  styles, the matcher steps over exactly those that are not `$'…'` around a quote
  (`LiteralIsSteppedOverExactly`), and `$(…)` around one of them is read back in exactly these cases
  (`LiteralReadsBackExactly`).
- Double quotes and substitutions that nest deeper than the bound of 64 levels: the lexer emits what it has read so
  far and drops the rest of the command. A printed tree is read back exactly if it stays within the bound
  (`LexOfPrintedExactly`); 32 substitutions in double quotes inside each other do, 33 do not
  (`NestingIsBounded`).
- The extractor's table of redirects lists `<&`, but the lexer has no such operator: it reads `<&` as a redirect
  followed by the end of a command (`LessAmpersandIsTwo`). All other redirects read as intended (`RedirectReads`).
- `TrialID.key` does not identify trials whose names hold a slash (`SlashedKeysCollide`,
  `KeysAgreeExactly`); building a capsule then rejects more than repeated trials, for exactly the
  specifications named in `KeysIdentifyTrialsExactly`.
- `append_receipt` looks neither at what it appends nor at the end of the file. Any receipt for a new trial is
  appended to a file that can be read. The file can be read afterwards if and only if that receipt was well formed
  and the last line had its line end or held nothing but white space (`AnyNewReceiptIsAppended`; with a concrete
  receipt in `MisversionedReceiptIsAppended`, with a concrete file whose one receipt is lost in
  `UnendedLineIsLost`). Nothing is ever appended to a file that cannot be read, for this or any other reason
  (`UnreadableFileNeverGrows`, `MalformedEntryBlocksTheLog`). A file made by appends alone has all its line ends
  (`EntriesAreNeverChanged`).
- `schema_version` is compared by equality, so a receipt or a specification with `true` or `1.0` is read as
  version 1 (`TrueIsReadAsVersionOne`, `TrueIsReadAsSpecVersionOne`), and these are the only other values that
  are (`VersionsEqualToOneAreRead`, `SpecVersionsEqualToOneAreRead`). What was read would be written with the
  version its file gave exactly when that was the integer (`VersionSurvivesExactly`,
  `SpecVersionSurvivesExactly`).
- A run whose judge fails scores zero on the checkpoints from the failure on and is not flagged as an
  infrastructure failure; only the detail says so (`FailedJudgeScoresNothingUnflagged`). A run is flagged exactly
  when a verifier reached no verdict (`FlagIsTheFirstMissingVerdict`).
- `run_all` decides `passed` by the final score alone; what a verifier declared under `passed`, which the guard
  preserves, is dropped. A verdict with half of the score that declares a failure is reported as passed
  (`DeclaredFailureIsReportedPassed`). The two agree exactly when the verifier declared a pass if and only if the
  score that the verdicts and the judge's answers foretell is positive (`PassedAgreesExactly`,
  `JudgedScoreIsForeseen`); without a judge that is the verifier's own score.
- The bill of a trace depends on the order of its lines exactly where records of one request that report its
  largest output differ otherwise (`TiesMatter`), and repeating lines is free in exactly the other traces
  (`RepeatingIsFreeExactly`).

## Model

| member | source | states |
|---|---|---|
| `ShellLexer.LexCommand` | lib/eb_metrics/shell_lex.py:109-207 | The main loop, run with an index, a word buffer, a token list and a here-document queue, yields exactly the tokens of the specification `Lex`, also when it breaks off or returns early on malformed input. |
| `ShellLexer.Lexer.Flush` | lib/eb_metrics/shell_lex.py:124-134 | Closing a word emits it once, empties the buffer, and makes it the delimiter of a here-document that was waiting for one. |
| `ShellLexer.Lexer.Advance` | lib/eb_metrics/shell_lex.py:136-204 | One turn of the loop makes the same move, from the same state to the same state with the same new tokens, as one step of the specification, and an index it goes on at lies further on. |
| `ShellLexer.Lexer.ScanAnsiC` | lib/eb_metrics/shell_lex.py:252-271 | The index past a `$'…'` run and the text it adds; nothing when it never closes. The index moves past both delimiters and stays within the command. |
| `ShellLexer.Lexer.ScanDouble` | lib/eb_metrics/shell_lex.py:214-249 | The index past a double-quoted run, the text it adds, and the substitutions inside it, which stay emitted even when the run never closes. |
| `ShellLexer.Lexer.ScanBacktick` | lib/eb_metrics/shell_lex.py:274-298 | The index past a backtick substitution and its unescaped inner text; no token when it never closes. |
| `ShellLexer.Lexer.ScanDollarParen` | lib/eb_metrics/shell_lex.py:301-316 | The index past `$(…)` and its inner text as one token; arithmetic emits none. |
| `ShellLexer.Lexer.FindClosingParen` | lib/eb_metrics/shell_lex.py:319-354 | The index of the parenthesis that closes the one it starts at, found through nested quotes and substitutions. The recursion through `ScanDouble` and `ScanDollarParen` terminates on the remaining length alone; the nesting bound plays no part in it. |
| `ShellLexer.SkipHeredocBody` | lib/eb_metrics/shell_lex.py:357-374 | The index after the line that ends a here-document body, or the end of the command. |
| `ShellLexer.Lexer.SkipHeredocs` | lib/eb_metrics/shell_lex.py:145-148 | All announced bodies are skipped, first announced first, and the queue is empty afterwards. |
| `ShellLocality.LongestOperatorWins` | lib/eb_metrics/shell_lex.py:81-90 | The operator found is at least as long as any operator of the table that the text starts with: the order of the table makes the first match the longest. |
| `ShellLength.LexConserves` | lib/eb_metrics/shell_lex.py:109-354 | The token texts together are no longer than the command, and every substitution text is strictly shorter than the command. |
| `ShellComposition.LexComposes` | lib/eb_metrics/shell_lex.py:109-207 | A command may be cut after any blank at which no word, comment or here-document is open: the tokens of the whole are those of the parts, for every continuation. |
| `ShellComposition.LexComposesAcross` | lib/eb_metrics/shell_lex.py:75-90 | Joining two parts with a separator adds exactly its own token between theirs, unless it begins a longer operator with what follows. |
| `ShellComposition.BodiesAreSkipped` | lib/eb_metrics/shell_lex.py:357-374 | Bodies whose lines differ from their delimiters are skipped up to and including the delimiter, in the order of announcement. |
| `ShellComposition.HereDocBodiesAreSilent` | lib/eb_metrics/shell_lex.py:142-148 | Whatever the bodies owed by a line contain, the tokens are those of the line, a newline, and those of what follows the last body. |
| `ShellHereDocs.HereDocsRoundTrip` | lib/eb_metrics/shell_lex.py:195-200 | The same from the announcement on: any number of `<<` and `<<-` operators on one line, delimiters quoted in any style or bare, bodies in order; the tokens are the announcements, the newline and the rest. |
| `ShellQuoting.PieceJoins` | lib/eb_metrics/shell_lex.py:153-204 | A text printed in single quotes, double quotes, `$'…'`, with backslashes, or bare where it needs no quotes, adds exactly itself to the open word, in any state and before any continuation. |
| `ShellQuoting.OneWord` | lib/eb_metrics/shell_lex.py:109-298 | Any run of such pieces, in any mixture of styles, is one word whose text is their texts joined. |
| `ShellQuoting.BacktickRoundTrip` | lib/eb_metrics/shell_lex.py:274-298 | A text escaped for backticks and put between them is the text of the one substitution token, and the word it stands in holds the mark alone. |
| `ShellForms.CommentIsSilent` | lib/eb_metrics/shell_lex.py:149-152 | After any part of a command that ends cleanly, a `#` hides the rest of its line: the tokens are those of that part, the newline, and those of the next lines. |
| `ShellForms.HashInWordIsText` | lib/eb_metrics/shell_lex.py:149-152 | Inside a word a `#` is a character like any other. |
| `ShellForms.ContinuationJoins` | lib/eb_metrics/shell_lex.py:172-180 | A backslash before a line end vanishes with it, inside a word and between words. |
| `ShellForms.LastBackslashIsDropped` | lib/eb_metrics/shell_lex.py:172-174 | A backslash that ends the command is dropped and the word before it kept. |
| `ShellForms.BlanksEndWords` | lib/eb_metrics/shell_lex.py:139-141 | A space, a tab or a carriage return ends a word and is nothing by itself. |
| `ShellForms.OperatorsSplitWords` | lib/eb_metrics/shell_lex.py:195-204 | Each of the fifteen operators that announce no here-document ends the word before it and is one token, without blanks around it. |
| `ShellForms.UnclosedWordIsLost` | lib/eb_metrics/shell_lex.py:153-194 | A single, double or ANSI-C quote, a backtick or a parenthesis that never closes loses its word and all that comes after it; the words before stay. |
| `ShellForms.UnclosedQuoteKeepsSubstitutions` | lib/eb_metrics/shell_lex.py:214-249 | A double quote that never closes keeps the substitutions that were read inside it, and nothing else. |
| `ShellForms.AnsiEscapesAre` | lib/eb_metrics/shell_lex.py:102-106 | The table of escapes inside ANSI-C quotes: ten letters stand for a control character, any other character for itself. |
| `ShellForms.DoubleEscapesAre` | lib/eb_metrics/shell_lex.py:214-249 | Inside double quotes a backslash escapes four characters, joins lines, and stays before any other character. |
| `ShellForms.BacktickEscapesAre` | lib/eb_metrics/shell_lex.py:274-298 | Inside backticks a backslash escapes three characters and stays before any other. |
| `ShellForms.BacktickInDoubleQuotes` | lib/eb_metrics/shell_lex.py:214-249 | A backtick substitution is live inside double quotes. |
| `ShellForms.PlainTextIsHandedOver` | lib/eb_metrics/shell_lex.py:301-354 | The text of `$(…)` without a backslash, a quote or a parenthesis is handed over as it is: comments, backticks and line ends mean nothing to the matcher. |
| `ShellForms.PlainTextInDoubleQuotes` | lib/eb_metrics/shell_lex.py:214-249 | Inside double quotes everything stands for itself but a double quote, a backslash, a backtick and `$(`. |
| `ShellForms.PlainTextInBackticks` | lib/eb_metrics/shell_lex.py:274-298 | Between backticks everything stands for itself but a backtick and a backslash. |
| `ShellForms.ArithmeticIsSilent` | lib/eb_metrics/shell_lex.py:301-316 | `$((…))` leaves a mark in the word and no token, around any printed command within the bound. |
| `ShellForms.TerminatesExactly` | lib/eb_metrics/shell_lex.py:357-374 | A line ends a here-document exactly if it is the delimiter, after tabs where these are stripped, and before carriage returns. |
| `ShellForms.UnendedBodyTakesAll` | lib/eb_metrics/shell_lex.py:357-374 | Without such a line a here-document takes the rest of the command. |
| `ShellForms.DelimiterMayComeLater` | lib/eb_metrics/shell_lex.py:124-148 | A here-document operator at the end of a line takes its delimiter from a later one. |
| `ShellForms.DelimiterIsAwaited` | lib/eb_metrics/shell_lex.py:195-200 | The operator waits for its delimiter over blanks and over other operators. |
| `ShellMatcher.SkipCommand` | lib/eb_metrics/shell_lex.py:319-354 | The matcher steps over a printed command whole, at any nesting and any level, exactly if the command needs no more levels than are left; otherwise it finds no end. |
| `ShellMatcher.SubstitutionOfPrinted` | lib/eb_metrics/shell_lex.py:301-316 | A substitution around a printed command is consumed whole and hands over the printed text, at any level, unless it is too deep. |
| `ShellMatcher.InnersGoOn` | lib/eb_metrics/shell_lex.py:214-249 | Inside double quotes, texts and substitutions add and emit exactly themselves as far as the bound lets them, and nothing beyond it. |
| `ShellMatcher.LiteralIsSteppedOverExactly` | lib/eb_metrics/shell_lex.py:319-354 | Of all literals that the lexer reads back, in any style, the matcher steps over exactly those that are not `$'…'` around a quote, before every continuation and at every nesting. |
| `ShellRoundTrip.PrintedCommandLexes` | lib/eb_metrics/shell_lex.py:109-211 | For trees of words, quoted or bare literals and `$(…)`, bare or inside double quotes, to any depth, joined by operators: the lexer emits the tree's own tokens and goes on with what follows if the tree fits the bound; otherwise it emits those up to the first part that does not, and nothing more. |
| `ShellRoundTrip.LexOfPrintedExactly` | lib/eb_metrics/shell_lex.py:109-354 | A printed tree lexes to its own tokens if and only if it fits the bound on nesting. |
| `ShellRoundTrip.NestingIsBounded` | lib/eb_metrics/shell_lex.py:214-354 | `"$("$(…)")"`: 32 substitutions in double quotes inside each other are read, and of 33 or more nothing is. |
| `ShellRoundTrip.LiteralReadsBackExactly` | lib/eb_metrics/shell_lex.py:301-354 | `$(…)` around a literal lexes to the literal as its text and to a word that is its mark, if and only if the literal is not `$'…'` around a quote. |
| `ShellReread.RereadPrinted` | lib/eb_metrics/shell_lex.py:301-316 | Printing a tree within the bound, lexing it, and lexing every substitution text in turn gives back the shape of the tree. |
| `ShellReread.TreeIsRecovered` | lib/eb_metrics/shell_lex.py:109-211 | Two trees within the bound print to texts that reread alike if and only if they are the same but for how their literals are split up and quoted: the text determines the tree. |
| `ShellRoundTrip.AnsiQuoteHidesTheEnd` | lib/eb_metrics/shell_lex.py:319-354 | A concrete command: `$($'\'')` lexes to nothing, because the escaped quote hides the end of the substitution. |
| `BashReader.ReadFiles` | lib/eb_metrics/bash_reads.py:130-154 | The recursive extractor with its loops yields exactly the files of the specification `Reads`, at any depth. |
| `BashReader.SubCommandReadFiles` | lib/eb_metrics/bash_reads.py:157-168 | The reads of every substitution, one level deeper, then those of the program. |
| `BashReader.ProgramReadFiles` | lib/eb_metrics/bash_reads.py:171-200 | Dispatch on the program after wrappers: `sh -c`, `find -exec`, readers, and nothing else. |
| `BashReader.GatherWords` | lib/eb_metrics/bash_reads.py:203-232 | The words of a command with redirect operands, here-document words and descriptor numbers dropped. |
| `BashReader.StripLeading` | lib/eb_metrics/bash_reads.py:235-255 | What remains after assignments, keywords and wrappers with their flags. |
| `BashReader.GatherArgs` | lib/eb_metrics/bash_reads.py:288-325 | The file arguments of a reader: flags, values of flags and the pattern of a pattern command dropped, all that follows `--` taken as operands. |
| `BashReader.ScriptReadFiles` | lib/eb_metrics/bash_reads.py:258-263 | The reads of the script of the first `-c` that has a word after it, one level deeper. |
| `BashReader.ExecReadFiles` | lib/eb_metrics/bash_reads.py:266-285 | The reads of every command that `find` executes, each ending before `;` or `+`. |
| `BashReadLaws.ReadsAreGenuine` | lib/eb_metrics/bash_reads.py:130-342 | No read is made up: every file stands, word for word, as an argument of a reader that is invoked by the command or by one reached from it, and names a concrete path without mark, placeholder or glob. One command reaches another only through a substitution token, or as the script that an invoked shell program takes after its first usable `-c`; what is invoked is the words of a sub-command, or the command of an invoked `find`. |
| `BashReadLaws.ReadsCompose` | lib/eb_metrics/bash_reads.py:130-168 | A command split at any of the ten separators reads what its parts read, in order. |
| `BashReadLaws.TokensReadsCompose` | lib/eb_metrics/bash_reads.py:136-154 | The same for token lists cut at any separator token. |
| `BashRequoting.RequotingKeepsReads` | lib/eb_metrics/bash_reads.py:203-232 | Two printed trees within the bound that differ only in how their literals are split up and quoted, or in whether a substitution stands in double quotes, read the same files, at any depth of substitution. Operators are those that neither nest nor announce a here-document. |
| `BashRequoting.RequotedWordKeepsReads` | lib/eb_metrics/bash_reads.py:130-154 | In any command whatever, parentheses and here-documents included: a word after a blank may be written in any other of the four ways to quote, bare where it needs none, or in any mixture of them, and the reads stay the same, whatever comes after it. |
| `BashRequoting.PlainReadIsExact` | lib/eb_metrics/bash_reads.py:288-325 | A reader applied to operands reads exactly those operands that name a concrete path, in order, whatever characters they contain and however each is quoted or left bare, as in `cat src/a.py`. |
| `BashForms.PatternIsNotRead` | lib/eb_metrics/bash_reads.py:288-325 | A search with its pattern and files, each quoted or bare in any way, reads exactly those files that name a concrete path: what is searched for is not read. |
| `BashForms.ArgumentsAreRead` | lib/eb_metrics/bash_reads.py:288-325 | For any mixture of flags, flags with values, flags that give the pattern, operands, and words after `--`: the files are the operands and the words after `--`, without the first of them where that is the pattern. |
| `BashForms.LastFlagIsNoFile` | lib/eb_metrics/bash_reads.py:288-325 | A last flag whose value is missing gives no file. |
| `BashForms.ReaderIsRead` | lib/eb_metrics/bash_reads.py:130-200 | The same of a printed command, whatever the program and its arguments are quoted like. |
| `BashForms.WordsAreRead` | lib/eb_metrics/bash_reads.py:157-232 | A command of words only reads what the program with exactly these words as its arguments reads. |
| `BashForms.ShellReads` | lib/eb_metrics/bash_reads.py:258-263 | `sh … -c script …` reads what the script reads, one level deeper; without a word after a `-c` it reads nothing. |
| `BashForms.FindReads` | lib/eb_metrics/bash_reads.py:266-285 | `find` reads what the command after each `-exec` or `-execdir` reads, one level deeper, and nothing else. |
| `BashForms.PrefixIsStripped` | lib/eb_metrics/bash_reads.py:235-255 | Assignments and keywords before a program change nothing. |
| `BashForms.WrapperIsStripped` | lib/eb_metrics/bash_reads.py:235-255 | Nor does a wrapper, by whatever path, with its flags. |
| `BashForms.OtherProgramsReadNothing` | lib/eb_metrics/bash_reads.py:171-200 | A program that is no shell, no reader and not `find` reads nothing. |
| `BashForms.SubstitutionsAreRead` | lib/eb_metrics/bash_reads.py:157-168 | A printed program within the bound reads what its substitutions read, one level deeper and in order, and then what it reads itself, with a mark for each of them. |
| `BashForms.ChainIsReadToTheBound` | lib/eb_metrics/bash_reads.py:130-154 | A file at the end of a chain of substitutions is read through four of them and not through five. |
| `BashForms.RedirectReads` | lib/eb_metrics/bash_reads.py:203-232 | Of every redirect but `<&`: a program reads the operand of `<`, `>` or `>>` with its arguments, not that of a descriptor, a here-document or a here-string, and not the number before the redirect. |
| `BashForms.LessAmpersandIsTwo` | lib/eb_metrics/bash_reads.py:203-232 | `<&` lexes to two operators, of which the second ends the command. |
| `BashForms.CommentIsNotRead` | lib/eb_metrics/bash_reads.py:130-154 | A comment reads nothing, whatever it says, and the next line is read again. |
| `BashForms.ConcretePathsAre` | lib/eb_metrics/bash_reads.py:328-342 | A word names a concrete path exactly if it holds no mark, no `*`, no `?` and no `{}`. |
| `BashForms.AssignmentsAre` | lib/eb_metrics/bash_reads.py:235-255 | A word is an assignment exactly if it is a name, `=` and anything. |
| `BashForms.BaseNameIs` | lib/eb_metrics/bash_reads.py:171-200 | A program is known by what follows the last slash of its word. |
| `IrMetrics.ComputeMrr` | lib/eb_metrics/ir_metrics.py:137-142 | The loop stops at the first hit and returns the reciprocal of its rank, or zero. |
| `IrMetrics.ComputeNdcg` | lib/eb_metrics/ir_metrics.py:145-158 | The loop computes the quotient of the gain at the hits by the ideal gain, or zero where there is no ideal. |
| `IrMetrics.ComputeAveragePrecision` | lib/eb_metrics/ir_metrics.py:161-173 | The loop computes the sum of precisions at the hits over the number of relevant paths. |
| `IrMetricForms.ReciprocalRankIs` | lib/eb_metrics/ir_metrics.py:137-142 | A first hit at rank i, counting from 1, scores 1/i, and no hit scores nothing. |
| `IrMetricForms.PrecisionIs` | lib/eb_metrics/ir_metrics.py:98-110 | Precision at k is the number of ranks up to k that hold a relevant path, over k even where fewer were retrieved. |
| `IrMetricForms.RecallIs` | lib/eb_metrics/ir_metrics.py:113-125 | Recall at k is the share of the relevant paths found among the first k, which for a negative k are all but the last -k. |
| `IrMetricForms.FoundOfConcat` | lib/eb_metrics/ir_metrics.py:113-125 | What is found of a list is what is found of its parts together. |
| `IrMetricForms.FoundByOne` | lib/eb_metrics/ir_metrics.py:113-125 | A single path finds its normal form if that is relevant, and otherwise nothing. |
| `IrMetricForms.NdcgIs` | lib/eb_metrics/ir_metrics.py:145-158 | nDCG is the sum of disc(i) over the ranks below k that hold a relevant path, over the sum of disc(i) for i below min(k, number of relevant). |
| `IrMetricForms.AveragePrecisionIs` | lib/eb_metrics/ir_metrics.py:161-173 | Average precision is the sum, over the ranks that hold a relevant path, of the share of such ranks up to there, over the number of relevant paths. |
| `IrMetricForms.NothingToFind` | lib/eb_metrics/ir_metrics.py:98-186 | Without relevant paths recall, file recall and average precision are 1, and precision, F1, nDCG and the reciprocal rank 0. |
| `IrMetricForms.NothingRetrieved` | lib/eb_metrics/ir_metrics.py:98-186 | With relevant paths and nothing retrieved the metrics are 0, and so are precision and nDCG at a cutoff that is not positive. |
| `IrMetricLaws.HitsAreFound` | lib/eb_metrics/ir_metrics.py:98-173 | Counting hits over ranks and counting found paths over the relevant set agree, where retrieved paths are distinct after normalization. |
| `IrMetricLaws.DcgAtMostIdeal` | lib/eb_metrics/ir_metrics.py:145-158 | For any positive strictly decreasing discount the gain of `h` hits is at most that of `h` hits at the top, with equality exactly when they are at the top. |
| `IrMetricLaws.NdcgIsAFraction` | lib/eb_metrics/ir_metrics.py:145-158 | nDCG lies in [0, 1], and is 1 exactly when the first min(k, number of relevant) ranks exist and are all relevant. |
| `IrMetricBounds.NdcgBoundIsExact` | lib/eb_metrics/ir_metrics.py:145-158 | nDCG is at most 1 for every discount if and only if the first k ranks hold no more hits, repetitions counted, than there are relevant paths. |
| `IrMetricBounds.NdcgBoundInEveryOrderIsExact` | lib/eb_metrics/ir_metrics.py:145-158 | For any one positive decreasing discount, nDCG at k is at most 1 in every order of the retrieved paths if and only if min(hits, k) ≤ min(k, number of relevant). |
| `IrMetricBounds.AveragePrecisionBoundIsExact` | lib/eb_metrics/ir_metrics.py:161-173 | Average precision is at most 1 in every order of the retrieved paths if and only if they hold no more hits than there are relevant paths. |
| `IrMetricBounds.AlignmentKeepsTwins` | lib/eb_metrics/retrieval_extraction.py:401-413 | Alignment keeps two spellings that normalize alike but whose components differ and of which the second does not end in the first. |
| `IrMetricBounds.DuplicatesBreakNdcg` | lib/eb_metrics/ir_metrics.py:145-158 | On an aligned ranking with two spellings of the one relevant path, nDCG exceeds 1 for every discount. |
| `IrMetricBounds.DuplicatesBreakAveragePrecision` | lib/eb_metrics/ir_metrics.py:161-173 | On the same ranking average precision is 2. |
| `IrMetricLaws.F1IsDice` | lib/eb_metrics/ir_metrics.py:128-134 | F1 at k is 2h / (k + number of relevant), for h relevant paths found. |
| `IrMetricLaws.AveragePrecisionIsBetween` | lib/eb_metrics/ir_metrics.py:161-186 | Reciprocal rank over the number of relevant paths ≤ average precision ≤ file recall ≤ 1. |
| `IrMetricLaws.RecallGrows` | lib/eb_metrics/ir_metrics.py:113-125 | A larger cutoff never lowers recall, and one that reaches the end gives the file recall. |
| `IrMetricLaws.PromotionNeverHurts` | lib/eb_metrics/ir_metrics.py:137-173 | Moving a relevant path one rank up, past an irrelevant one, never lowers nDCG or the reciprocal rank and strictly raises average precision. |
| `Alignment.AlignRetrieved` | lib/eb_metrics/retrieval_extraction.py:383-414 | The loop with its set of seen keys yields the aligned list of the specification. |
| `Alignment.MatchingIs` | lib/eb_metrics/retrieval_extraction.py:401-409 | A path matches a required one exactly if its components are some others followed by those of the required path, of which there are some. |
| `Alignment.CanonIsFirstMatch` | lib/eb_metrics/retrieval_extraction.py:401-409 | A path is rewritten exactly if it ends in the components of some required path, and then to the first such path. |
| `Alignment.CanonIsStable` | lib/eb_metrics/retrieval_extraction.py:401-409 | A canonical path is its own canonical path; this needs the suffix relation to be transitive. |
| `Alignment.AlignedKeysAreDistinct` | lib/eb_metrics/retrieval_extraction.py:410-413 | No two aligned paths have the same components, and none has no components. |
| `Alignment.AlignKeepsFirstSights` | lib/eb_metrics/retrieval_extraction.py:383-414 | The aligned list holds the canonical paths of exactly the ranks at which components are first seen, in the order of the ranks. |
| `Alignment.AlignIsIdempotent` | lib/eb_metrics/retrieval_extraction.py:383-414 | Aligning an aligned list changes nothing. |
| `Receipts.ReceiptRoundTrip` | lib/eb_study/receipt.py:169-282 | What is written for a receipt reads back as the same receipt if and only if it is well formed; otherwise it does not read back at all. |
| `Receipts.ReadReceiptsAreWellFormed` | lib/eb_study/receipt.py:192-282 | Whatever is read is well formed: fields, ranges, and the provenance its status demands. |
| `ReadingRules.ReceiptsAreReadExactly` | lib/eb_study/receipt.py:192-282 | An object is read as a receipt if and only if it has no field but the eighteen and every field is as it must be: a valid trial has all six texts of its provenance, a score and usage and no class of failure, any other names its failure and has no score. |
| `ReadingRules.ScoreIsRead` | lib/eb_study/receipt.py:436-463 | A score without a point is read as the same number. |
| `Receipts.VersionsEqualToOneAreRead` | lib/eb_study/receipt.py:199-204 | A well-formed receipt is read back from a file that gives any version equal to 1 for the source's comparison, `true` and `1.0` among them, and from no other. |
| `Receipts.TrueIsReadAsVersionOne` | lib/eb_study/receipt.py:199-204 | A receipt that is read back from a file with `true`, and from one with `1.0`, as its version. |
| `Receipts.VersionSurvivesExactly` | lib/eb_study/receipt.py:169-204 | What was read would be written with the version its file gave exactly when the file gave the integer 1. |
| `ReceiptLog.ParseLines` | lib/eb_study/receipt.py:323-336 | The loop returns every receipt in order, or the first line that is not one with its number. |
| `ReceiptLog.LogFile.Append` | lib/eb_study/receipt.py:290-320 | A refused append leaves the file as it was; an accepted one writes one line and its end at the end of the file, which is glued to the last line where that has no end. It is refused if the file cannot be parsed or holds the trial already. |
| `ReceiptLog.LogFile.Read` | lib/eb_study/receipt.py:339-354 | Reading returns what parsing the file gives. |
| `ReceiptLog.ReadIsWhatWasAppended` | lib/eb_study/receipt.py:290-354 | A file of appended receipts reads back as them, in order, if and only if all of them are well formed. |
| `ReceiptLog.ParseOfConcat` | lib/eb_study/receipt.py:323-336 | A file reads as its parts one after the other: a blank line adds nothing, and a line that is no receipt hides all that comes after it. |
| `ReceiptLog.ParseStopsAtFirst` | lib/eb_study/receipt.py:323-336 | A file whose lines are blank or receipts is read; the first other line is reported by its number, as no JSON or by what is wrong with it. |
| `ReceiptLog.OneLineReadsAs` | lib/eb_study/receipt.py:323-336 | A blank line reads as nothing and a line with a receipt as that receipt. |
| `ReceiptLog.ParseOfPut` | lib/eb_study/receipt.py:304-336 | A file to which a receipt is written can be read if and only if it could before, the receipt is well formed, and the last line had its end or was white space; then it reads as before followed by the receipt. |
| `ReceiptLog.StepKeepsInv` | lib/eb_study/receipt.py:290-320 | On a file that held anything before: every acquire, scan, check, write, release or death of any process keeps the lock exclusive, the written entries distinct and new, and what each process has learnt of the file true. |
| `ReceiptLog.EveryInterleavingIsSafe` | lib/eb_study/receipt.py:290-354 | From any file, in every interleaving of any number of processes: no written entry repeats a trial of another or of one that was there, and the file can be read if and only if it could before, all that was written is well formed, and the first of it did not meet a line without an end; then it reads as what was there followed by what was written. |
| `ReceiptLog.EndedFilesOnlyGrow` | lib/eb_study/receipt.py:290-354 | Where every line has its end the file is only added to, and it stays that way. |
| `ReceiptLog.EntriesAreNeverChanged` | lib/eb_study/receipt.py:290-320 | At any later moment the file starts with every line that had its end; on a file that appends alone made from nothing, that is everything it held. |
| `ReceiptLog.OnlyOneInside` | lib/eb_study/receipt.py:300-320 | Between acquiring and releasing the lock a process is alone. |
| `ReceiptLog.LockIsNeverStuck` | lib/eb_study/receipt.py:300-320 | At any moment of any run whoever holds the lock can go on, or die, which frees the lock and leaves the file as it is; and a free lock can be taken by anyone who waits. |
| `ReceiptLog.ExactlyOneEntryPerFinishedProcess` | lib/eb_study/receipt.py:290-320 | With well-formed receipts, on a file that can be read and written to, with distinct trials: the file reads back, and a process that finished leaves exactly one entry for its trial, its own if it succeeded. |
| `ReceiptLog.AnyNewReceiptIsAppended` | lib/eb_study/receipt.py:290-320 | Acquire, scan, check, write and release append any receipt for a new trial to a file that can be read, and it can be read afterwards if and only if the receipt is well formed and the last line had its end or was white space. |
| `ReceiptLog.UnendedLineIsLost` | lib/eb_study/receipt.py:304-320 | That run with a well-formed receipt, on a file whose one receipt has no line end: the line is lost and the file cannot be read. |
| `ReceiptLog.MisversionedReceiptIsAppended` | lib/eb_study/receipt.py:290-320 | That run, from an empty file, with a receipt that is not well formed. |
| `ReceiptLog.UnreadableFileNeverGrows` | lib/eb_study/receipt.py:290-336 | Whatever made a file unreadable, no run of any processes adds to it. |
| `ReceiptLog.MalformedEntryBlocksTheLog` | lib/eb_study/receipt.py:290-336 | After an entry that is not well formed, or that met a line without an end, the file cannot be read and nothing is ever appended again. |
| `TrialKeys.KeysAgreeExactly` | lib/eb_study/spec.py:119-121 | Two trials share a key exactly when repetition, attempt and the joined text of study, task and arm agree. |
| `TrialKeys.KeySpells` | lib/eb_study/spec.py:119-121 | A key is the three names and the two numbers, these in decimal without leading zeros after `rep` and `att`, joined by slashes. |
| `TrialKeys.SlashFreeKeysAreUnique` | lib/eb_study/spec.py:119-121 | Keys identify trials whose names hold no slash. |
| `TrialKeys.SlashedKeysCollide` | lib/eb_study/spec.py:119-121 | With a slash in a name, two different trials of one study share a key. |
| `StudySpecs.SpecRoundTrip` | lib/eb_study/spec.py:162-266 | What is written for a specification reads back as the same specification, for exactly the specifications a file can declare. |
| `StudySpecs.ReadSpecsAreSpecs` | lib/eb_study/spec.py:162-233 | Whatever is read is such a specification: distinct arms and tasks, a declared baseline, known policy and token source, positive counts. |
| `ReadingRules.SpecsAreReadExactly` | lib/eb_study/spec.py:162-233 | An object is read as a specification if and only if it has exactly the fifteen fields and every field is as it must be, the baseline among distinct arms included. |
| `StudySpecs.SpecVersionsEqualToOneAreRead` | lib/eb_study/spec.py:173-181 | A specification is read back from a file that gives any version equal to 1 for the source's comparison and from no other, and the file is what would be written, and hashed, exactly when it gave the integer. |
| `StudySpecs.TrueIsReadAsSpecVersionOne` | lib/eb_study/spec.py:173-181 | A specification that is read back from a file with `true`, and from one with `1.0`, as its version. |
| `StudySpecs.SpecVersionSurvivesExactly` | lib/eb_study/spec.py:173-181 | Whatever was read, its version is the one that would be written exactly when its file gave the integer 1. |
| `StudySpecs.FrozenIsSpec` | lib/eb_study/spec.py:162-233 | A specification that was read satisfies everything the capsule relies on. |
| `StudySpecs.BelongsToFile` | lib/eb_study/capsule.py:221-262 | A receipt belongs to the study of a specification exactly if it agrees with the fields of its file, and with contract, harness and token source where it is valid; the policy is the one the file names. |
| `StudySpecs.HashIdentifiesSpec` | lib/eb_study/spec.py:269-276 | With a digest that has no collisions among written specifications, two specifications share a hash exactly if they agree in every frozen field. |
| `StudySpecs.EditedSpecOrphansReceipts` | lib/eb_study/spec.py:269-276 | A receipt that belongs to a specification belongs to an edited one exactly if nothing was edited. |
| `StudySpecs.CompiledTrialsAreDeclared` | lib/eb_study/spec.py:302-325 | A trial id is compiled for exactly the declared slots and attempts, and is never undeclared to the capsule. |
| `StudySpecs.SlotsAreTheDesign` | lib/eb_study/spec.py:292-300 | There are tasks × arms × repetitions slots, none listed twice. |
| `Capsule.Build` | lib/eb_study/capsule.py:115-130 | The loop accepts, or names the first problem in receipt order. |
| `Capsule.BuildAcceptsExactly` | lib/eb_study/capsule.py:115-130 | A capsule is built from exactly the lists whose receipts all belong and have distinct keys; no trial occurs twice in it. |
| `StudyLaws.BelongingIsExact` | lib/eb_study/capsule.py:221-262 | A receipt belongs to a study exactly if none of seven things sets it apart, of which contract, harness and token source are looked at in valid receipts only; otherwise the first of them is reported. |
| `StudyLaws.BuildStopsAtFirst` | lib/eb_study/capsule.py:115-130 | Building a capsule reports the first receipt that does not belong or repeats a key, and of both the former. |
| `Capsule.KeysIdentifyTrialsExactly` | lib/eb_study/capsule.py:115-130 | Rejecting equal keys rejects only repeated trials, for exactly the specifications in which no two cells join to the same text. |
| `Capsule.AdmitTrials` | lib/eb_study/capsule.py:191-218 | Grouping and choosing by loops yields the admitted trials of the specification, or the error of a slot with two valid attempts under `all_valid_repetitions`. |
| `PairedView.PairedValid` | lib/eb_study/capsule.py:137-187 | The view, or why there is none: an arm without trials, no complete task, or a failed admission; the first two only where the caller did not allow them. |
| `StudyLaws.RefusalIsExact` | lib/eb_study/capsule.py:137-218 | In terms of the receipts: there is no view where two valid ones share a slot under `all_valid_repetitions`, nor, unless that was allowed, where a declared arm has none or every task lacks one; the first reason is reported. |
| `StudyLaws.TrialsAreInOrder` | lib/eb_study/capsule.py:178-181 | The trials of the view are listed by task, then by arm, then by repetition. |
| `StudyLaws.AdmittedIsEarliest` | lib/eb_study/capsule.py:191-218 | A slot is admitted exactly if it has a valid receipt, and then by the earliest attempt among them. |
| `StudyLaws.MissingIs` | lib/eb_study/capsule.py:149-160 | An exclusion lists exactly the slots of its task for which nothing was admitted, each once. |
| `StudyLaws.TasksArePartitioned` | lib/eb_study/capsule.py:137-187 | Kept and excluded tasks partition the tasks of the study, and each exclusion names its missing slots. |
| `StudyLaws.ViewFillsTheRectangle` | lib/eb_study/capsule.py:137-187 | The view holds exactly one trial for every kept task, arm and repetition, and nothing else. |
| `StudyLaws.ViewHoldsMeasurements` | lib/eb_study/capsule.py:137-262 | Every trial of the view is valid, scored in [0, 1], of this specification, task manifest, harness, contract and token source, and the earliest valid attempt at its slot. |
| `StudyLaws.AdmissionReadsTrialsOnly` | lib/eb_study/capsule.py:191-218 | Two lists of receipts with the same valid trials are admitted alike, whatever else they say. |
| `StudyLaws.AdmissionIsOrderIndependent` | lib/eb_study/capsule.py:191-218 | Permuting the receipts changes nothing. |
| `StudyLaws.AdmissionIsScoreBlind` | lib/eb_study/capsule.py:191-218 | Changing scores, costs, hashes or times changes no admitted trial. |
| `StudyLaws.AdmissionIsStable` | lib/eb_study/capsule.py:191-218 | Appending receipts never loses a slot, never moves one to a later attempt, and never makes a complete task incomplete. |
| `MeanScores.MeanCoversEveryRepetition` | lib/eb_study/capsule.py:54-71 | The mean of every cell of a kept task is over exactly the declared number of scores and lies in [0, 1]. |
| `MeanScores.MeanAveragesRepetitions` | lib/eb_study/capsule.py:54-71 | The mean of a cell of a kept task is the sum of the scores of its trials for repetition 1 to R, over R. |
| `MeanScores.NoScoreNoMean` | lib/eb_study/capsule.py:54-71 | There is no mean exactly where no trial of the cell has a score. |
| `Sampler.Floors` | scripts/reproducibility_check.py:160-164 | Every stratum is given the integer part of its quota, and its remainder is listed in the order of the strata. |
| `Sampler.RoundUp` | scripts/reproducibility_check.py:169-177 | One more along the ranked remainders until exactly `n` are handed out; no stratum is skipped for want of members. |
| `Sampler.Allocate` | scripts/reproducibility_check.py:156-187 | Exactly `n` are handed out, each stratum its quota rounded down or up and never more than its size, larger remainders first; the branch that takes some back is never reached. |
| `Sampler.SelectStratifiedSample` | scripts/reproducibility_check.py:132-192 | Nothing for n ≤ 0, all ids in order for n ≥ the number of tasks, and otherwise the sorted ids drawn under such an allocation. |
| `SamplerLaws.SampleIsExact` | scripts/reproducibility_check.py:132-192 | For 0 < n < the number of tasks the sample has exactly n ids of tasks, in order, and none twice where task ids are distinct. |
| `SamplerLaws.SampleIsProportional` | scripts/reproducibility_check.py:156-187 | Of every stratum the sample names its quota rounded down or up, up only where there is a remainder, and never more than its size. |
| `SampleShares.SharesAreProportional` | scripts/reproducibility_check.py:156-187 | Of the `size` tasks of one suite and difficulty the sample names size · n / total rounded down, or one more where that is no whole number, and never more than there are. |
| `SamplerLaws.LargerRemaindersAreServedFirst` | scripts/reproducibility_check.py:169-177 | Whenever a stratum is rounded up, so is every stratum with a strictly larger remainder. |
| `SampleShares.RaisedInOrder` | scripts/reproducibility_check.py:169-177 | If a suite and difficulty is given one more, so is every other whose size · n leaves a larger remainder by the total, and every other with the same remainder whose tasks come first in the list. |
| `SamplerLaws.SmallestIdsAreTaken` | scripts/reproducibility_check.py:188-191 | Within a stratum the tasks with the smallest ids are taken. |
| `Grouping.GroupBy` | scripts/cost_tracker.py:1062-1066 | Every group lists the items with its key in order, groups are non-empty, and keys are listed once, in the order in which they are first seen. |
| `Grouping.GroupsHoldEverything` | scripts/reproducibility_check.py:149-153 | The sizes of the groups add up to the number of items. |
| `Sorting.SortIsStable` | scripts/reproducibility_check.py:169-177 | Sorting is stable: an element that stands before another and does not come after it in the order stays before it. |
| `Sorting.StringLeIsLexicographic` | scripts/lib/attempt_policy.py:382-400 | The order of texts: one is the beginning of the other, or has the smaller character at the first place where they differ. |
| `AttemptPolicy.EarliestIsLeast` | scripts/cost_tracker.py:1085-1091 | The attempt chosen is one of the attempts and no other has a smaller sort key. |
| `AttemptPolicy.KeysAreChronological` | scripts/lib/attempt_policy.py:382-400 | A key comes first that can be dated where the other cannot, then the one with the earlier moment, then, at the same moment, the one whose directory comes first as a text. |
| `AttemptPolicy.EarliestIsFirst` | scripts/cost_tracker.py:1085-1091 | Of attempts with the same least key the first is chosen. |
| `AttemptPolicy.SameKeysSameChoice` | scripts/lib/attempt_policy.py:382-400 | Two readers that see attempts with the same keys, whatever else they know of them and in whatever order, choose attempts with the same key. |
| `AttemptPolicy.DatedBeforeUndated` | scripts/lib/attempt_policy.py:248-272 | An attempt that cannot be dated is never chosen over one that can. |
| `Comparison.ComparisonAttempts` | scripts/cost_tracker.py:1115-1168 | Arms are the modes of all attempts in scope, matched tasks those that every arm scored, excluded tasks those that some arm but not every arm scored, and the rows the attempts picked for matched tasks by arms, all in order. |
| `ComparisonLaws.ComparisonIsRectangle` | scripts/cost_tracker.py:1115-1168 | There are tasks × arms rows, and the row of task i and arm j is an attempt at that cell that was paid for and scored. |
| `ComparisonLaws.MatchIsExact` | scripts/cost_tracker.py:1157-1168 | A task is compared exactly if there are arms and each of them scored it without a label; tasks and arms are listed in the order of texts. |
| `ComparisonLaws.EveryScoredTaskIsNamed` | scripts/cost_tracker.py:1144-1168 | Every attempt without a label in one of the seven modes gives an arm, and if it was scored its task is either compared or excluded; no other attempt is a row. |
| `ComparisonLaws.RowIsPick` | scripts/cost_tracker.py:1142-1168 | Nothing else is a row: every row is the attempt picked for its cell, of a matched task and a known arm. |
| `ComparisonLaws.RowIsEarliest` | scripts/cost_tracker.py:1069-1091 | Of the scored attempts in scope at the cell of a row none can be dated where the row cannot, none is earlier, and none at the same moment has a directory that comes first as a text. |
| `ComparisonLaws.SilentArmEmptiesTheMatch` | scripts/cost_tracker.py:1115-1168 | An arm that ran but scored nothing keeps its seat: nothing matches, and every task another arm scored is named as excluded. |
| `ComparisonLaws.ComparisonReadsIdentitiesOnly` | scripts/cost_tracker.py:1069-1168 | Reordering or repeating attempts, or changing scores, costs and tokens, leaves the arms, the matched and excluded tasks and the run chosen for every cell. |
| `ComparisonLaws.Buckets` | scripts/cost_tracker.py:1009-1059 | There is one bucket for every value of the dimension that occurs, and it totals the items with that value. |
| `ComparisonLaws.BucketOfConcat` | scripts/cost_tracker.py:1009-1033 | A bucket of one attempt has its cost, its input and its output tokens; the bucket of a list adds up those of its parts. |
| `ComparisonLaws.SlicesConserve` | scripts/cost_tracker.py:1036-1059 | Whatever a view is sliced by, its slices together account for every dollar and every token once. |
| `ComparisonLaws.ArmsCountTheSameTasks` | scripts/cost_tracker.py:972-1006 | Every arm of the comparison counts all the matched tasks, and within an arm counting tasks is counting attempts. |
| `ScoreTable.LoadAllResults` | scripts/analyze_scores.py:323-404 | All files are scanned before failing; the error counts the unreadable ones; otherwise each labelled cell is collapsed to its earliest attempt. |
| `ScoreTable.ScanOfConcat` | scripts/analyze_scores.py:323-380 | The results and the number of unreadable files of a scan are those of its parts together. |
| `ScoreTable.ScanOfOne` | scripts/analyze_scores.py:323-380 | A file that was read gives its result, one that was skipped nothing, and one that was unreadable counts as one. |
| `ScoreTable.CollapsedIsEarliest` | scripts/analyze_scores.py:374-404 | The result kept for a task, mode and label is one of theirs, and no other of theirs is dated where it is not, is earlier, or has at the same moment a directory that comes first. |
| `ScoreTable.EveryCellIsKeptOnce` | scripts/analyze_scores.py:374-404 | For every result exactly one is kept with its task, mode and label. |
| `ScoreTable.ScoresAndCostsAreOfTheSameRun` | scripts/analyze_scores.py:374-404 | For an unlabelled cell of which both readers saw the same attempts, the score table's one result and the cost comparison's row are of the same run. |
| `TraceBilling.ScanTrace` | scripts/cost_tracker.py:335-456 | The scan with its dictionary bills, for every field, the final snapshot of each request plus every line that names none, counts them, and reports the first real model and the newest timestamp. |
| `TraceForms.FirstOfRequestAdds` | scripts/cost_tracker.py:422-431 | The first line of a request, known by its request id or else by that of its message, adds its usage and one request. |
| `TraceForms.FurtherLineReplaces` | scripts/cost_tracker.py:427-431 | A further line of a request with no less output than the last of its largest adds the difference to that one, a line with less adds nothing, and neither adds a request. |
| `TraceForms.LineOfItsOwnAdds` | scripts/cost_tracker.py:422-431 | An assistant line with usage that belongs to no request adds it, as a request of its own. |
| `TraceForms.OtherLinesAddNothing` | scripts/cost_tracker.py:368-420 | A line that is blank, malformed, no object, no assistant's or without usage adds nothing. |
| `TraceForms.ModelIsFirstNamed` | scripts/cost_tracker.py:405-416 | The model is the first one that an assistant line names which is no API error and not synthetic. |
| `TraceForms.NewestIsFirstLatest` | scripts/lib/attempt_policy.py:275-298 | The trace is dated by the first of its lines, of any kind, whose moment no line exceeds. |
| `TraceLaws.FinalIsLatestMaximum` | scripts/cost_tracker.py:427-431 | A request is left with the latest of its records that report the most output. |
| `TraceLaws.BillIsOrderIndependent` | scripts/cost_tracker.py:335-456 | Where the records of each request that report its largest output agree, the lines of a trace may come in any order; ties below the largest output do not matter. |
| `TraceLaws.RepeatingIsFree` | scripts/cost_tracker.py:345-352 | In such a trace, repeating the line of a request anywhere changes nothing. |
| `TraceLaws.RepeatingIsFreeExactly` | scripts/cost_tracker.py:345-352 | Appending any line of a request once more changes nothing in exactly these traces. |
| `TraceLaws.ZeroOutputIsFree` | scripts/cost_tracker.py:348-352 | A record without output, anywhere, changes nothing for a request that has output. |
| `TraceLaws.KeylessIsBilledOnce` | scripts/cost_tracker.py:422-431 | A line that names no request adds its usage and one request, wherever it stands. |
| `TraceLaws.TiesMatter` | scripts/cost_tracker.py:427-431 | Every order of the lines of a trace gives the same bill if and only if the records of each request that report its largest output report the same usage. |
| `TraceLaws.NewestIsLatest` | scripts/lib/attempt_policy.py:275-298 | The timestamp of a trace is that of one of its lines, and no line is later. |
| `ScoreContract.MeanIsFraction` | lib/eb_verify/score_contract.py:101-123 | With weights that are not negative the mean of fractions is a fraction. |
| `ScoreContract.MeanIsMonotone` | lib/eb_verify/score_contract.py:101-123 | Lowering scores never raises the mean. |
| `ScoreContract.MeanIsQuotient` | lib/eb_verify/score_contract.py:101-123 | The mean is the sum of score times weight over the sum of the weights, both over the indices of the list, and zero where there is no weight. |
| `ScoreContract.RaisedScore` | lib/eb_verify/score_contract.py:101-123 | Raising one score by d raises the mean by d times its weight over the sum of the weights. |
| `ScoreContract.MeanOfSameScore` | lib/eb_verify/score_contract.py:101-123 | A score shared by all is the mean, whatever the weights add up to. |
| `ScorerGuard.GuardCheckpointVerdict` | lib/eb_verify/scorer_guard.py:342-447 | A verdict is reached exactly when no check fails, and the first that fails names the cause; the score is brought into [0, 1], `passed` is the verifier's own where it is a boolean, and every other field is untouched. |
| `ScorerGuard.VerdictIsExact` | lib/eb_verify/scorer_guard.py:342-447 | A verdict is reached exactly where the errors do not show a failed import of the harness and the output is an object whose score is a number from 0 to 1, give or take a millionth, and whose detail reports nothing broken; the score is then brought into [0, 1]. |
| `ScorerGuard.CauseIs` | lib/eb_verify/scorer_guard.py:342-447 | Otherwise the cause is the first of: a failed import, no output, no object, no score, no valid score, a reported crash. |
| `ScorerGuard.GuardIsIdempotent` | lib/eb_verify/scorer_guard.py:437-447 | Guarding a verdict again gives the same verdict. |
| `ScorerGuard.GuardVerifierOutput` | lib/eb_verify/scorer_guard.py:182-309 | Scores pass unchanged exactly when every checkpoint attests that its verifier ran, declares no failure and carries no invalid score; otherwise the first fault in order decides. |
| `ScorerGuard.SoundnessIs` | lib/eb_verify/scorer_guard.py:141-309 | A checkpoint passes exactly if `verifier_ran` is true and nothing else, its detail, shown as a text, holds neither of two signatures anywhere, and its score, if any, is a number from 0 to 1 give or take a millionth. |
| `ScorerGuard.FaultIs` | lib/eb_verify/scorer_guard.py:252-305 | Of a checkpoint that does not pass it is reported that its verifier did not run, or else that it broke, or else that its score is none. |
| `ScorerGuard.SignatureIs` | lib/eb_verify/scorer_guard.py:174-179 | The signature of a detail is the first of the two texts that occurs somewhere in it. |
| `Runner.CheckpointRunner.RunAll` | lib/eb_verify/runner.py:344-482 | The loop with its latch gives the results, total, gates and flag of the specification, and asks the judge exactly about the checkpoints the specification lists. |
| `RunnerLaws.GuardedScoresAreFractions` | lib/eb_verify/runner.py:213-242 | What the guard lets through reaches the runner as a score in [0, 1], with the `passed` that the verifier declared, or that its score says where it declared no truth value; anything else reaches it as an error. |
| `RunnerLaws.ScoreIsCapped` | lib/eb_verify/runner.py:372-425 | Whatever the judge does, a checkpoint scores at most what its verifier gave, passes exactly when it scores, and carries an infrastructure error exactly when its verifier reached no verdict; without a judge its score and its detail are the verifier's. |
| `RunnerLaws.PassedAgreesExactly` | lib/eb_verify/runner.py:393-423 | A run and a verifier agree on whether a checkpoint passed exactly when the verifier declared a pass if and only if its score, or with a judge the score foreseen, is positive. |
| `RunnerLaws.JudgedScoreIsForeseen` | lib/eb_verify/runner.py:393-419 | With `k` verdicts before it, a checkpoint scores nothing if one of the first `k` answers is a failure, and otherwise what the next answer decides: the scores of a judged run follow from verdicts and answers alone. |
| `RunnerLaws.DeclaredFailureIsReportedPassed` | lib/eb_verify/runner.py:413-423 | A verifier that prints half of the score and `passed: false` is guarded to that verdict, and the run reports the checkpoint as passed. |
| `RunnerLaws.AnswerDecidesTheScore` | lib/eb_verify/runner.py:393-419 | A judgement makes the score the smaller of the two and is noted with both, no judgement leaves the verifier's, a failure makes it zero and is noted; checkpoints without a verdict are never judged. |
| `RunnerLaws.JudgeStopsAtFirstFailure` | lib/eb_verify/runner.py:361-400 | Over every run the judge is asked in order, once per checkpoint, and never again after its first failure. |
| `RunnerLaws.JudgeIsAskedUntilItFails` | lib/eb_verify/runner.py:393-400 | While it has not failed it has been asked about every checkpoint with a verdict. |
| `RunnerLaws.NoScoreAfterFailure` | lib/eb_verify/runner.py:402-411 | From the failure on every checkpoint scores nothing, and its detail is the verifier's and the reason. |
| `RunnerLaws.FlagIsTheFirstMissingVerdict` | lib/eb_verify/runner.py:430-470 | A run is flagged exactly when some verifier reached no verdict, with the first such error; its total is zero and no gate applies. |
| `RunnerLaws.TotalIsFraction` | lib/eb_verify/runner.py:430-462 | The total of every run is in [0, 1]. |
| `RunnerLaws.TotalIsWeightedMean` | lib/eb_verify/runner.py:430-462 | Where every verifier reached a verdict, the total is the sum of score times declared weight over the sum of the weights; but where citations must be grounded and an artifact is invalid it is zero, and the one gate lists the kinds of the invalid artifacts. |
| `RunnerLaws.InvalidOfConcat` | lib/eb_verify/runner.py:443-456 | That gate lists the kinds of the invalid artifacts one by one, in their order. |
| `RunnerLaws.InvalidOfOne` | lib/eb_verify/runner.py:443-456 | A valid artifact adds nothing to it and an invalid one its kind. |
| `RunnerLaws.JudgeOnlyLowersTheTotal` | lib/eb_verify/runner.py:344-462 | Whatever the judge answers, the total is at most that of the same run without a judge, and the flag is the same. |
| `RunnerLaws.FailedJudgeScoresNothingUnflagged` | lib/eb_verify/runner.py:402-411 | A judge that fails on its first call scores a run zero without flagging it. |

## Left out

- JSON and TOML text: the model starts from parsed values, so number syntax, duplicate keys and decoding errors are not in it.
- Hashing: a digest is a function of what is written; where hashes must identify, it is assumed to be free of collisions.
- Files, clocks, globbing, subprocesses and sandboxes: what they return is a parameter.
- Writing to the log is one step; a write torn by a crash in the middle of a line is not modelled. What a last line without its end does is.
- Floating point: scores, means and discounts are reals, `1/log2(i + 2)` any positive strictly decreasing discount, quotas exact quotients and costs integers of millionths of a dollar; rounding to four or six decimals is not modelled.
- `normalize_path` and `_path_components` are arbitrary functions; nothing is claimed about them beyond that.
- `retrieved_files_from_trace`: extracting paths from tool calls by patterns is not part of this model; retrieved paths are given.
- `context_efficiency` and `retrieval_rollup.py`: means over cells, which would add easy members only.
- The tables of programs, wrappers and flags of the extractor are a parameter; every law holds for all tables.
- Digits are ASCII digits where the source asks `str.isdigit`, and names of variables are ASCII as in its pattern.
- Texts of error messages and logging are not modelled; errors are named by kind, and the rules for single fields of a receipt or a specification that share a kind are not told apart.
- A specification whose task list holds a list or an object makes the source fail with a type error rather than a specification error; here it is a bad task list.
- Parsing of timestamps is a parameter that gives a moment; its failure is the moment (1, 0).
- The LLM judge is a sequence of answers that is not known before it is asked; whether its input is applicable is one of the answers.
- `run_all`: a detail that is not a text, health checks, validators of artifacts and `reward.txt` are not modelled; `tier1` and `artifacts` hold their outcomes, and the formatted scores in a detail are values.
- `guard_checkpoint_verdict`: numbers too large for a float and inputs nested too deeply for the parser are not modelled.
- `scan_trace`: fields of a usage record are integers; a record with another value, which makes the source fail, is not modelled.
- `_bucket`: averages, rounding and the reconciliation with the vendor's bill are not modelled, nor is the order of keys in a report.
- `load_all_results`: reading one results file is a given outcome per file.
- `AllAttempts`, `cost_usd` and `count_by_status`: sums over all receipts, which would add easy members only.
- `is_zero_cost_pre_agent_mcp_failure`, `cache_isolated_receipt_costs` and `read_task_score`: readers of single values, left out for the same reason.
- ComparisonLaws.Buckets: states which items a bucket totals, not its averages, their rounding or the reconciliation with the vendor's bill, which are not modelled.
- IrMetricLaws.RecallGrows: cutoffs are natural numbers; for negative ones, where a slice counts from the end, recall is modelled but its growth is not stated.
