# quick-regex, modelled in Dafny

quick-regex is a command-line find-and-replace tool. This project models
the parts of it that decide what the tool does with its input. Regular
expressions themselves are not evaluated.

- **Legacy template expander** (module `LegacyTemplate`). The CommonJS
  entry point rewrites every `${N}` in the `--replace` string against the
  capture array of one match. A backslash before `${N}` keeps the
  reference literally. An index at or beyond the capture count is left
  as it is. An unmatched group, or an in-range number written with a
  leading zero, gives the empty string. `Expand` is the whole rewrite;
  `RefAt` recognises one reference and `Substitute` is the callback's
  value for it. These functions carry no contract of their own: the
  `Expand…` and `RefAt…` lemmas characterise them.
- **Rule building** (module `Substitutions`). The ES-module entry point
  turns `-m`/`-r`, the substitutions file and the `-s` values into an
  ordered list of rules, and gives every rule the same flag string:
  - a rule string containing `|||` is a replacement, split at its first
    `|||`;
  - any other rule string is a grep rule, inverted by a leading `!`;
  - `\!` keeps a literal leading `!`.
  
  The substitutions file is read by trimming trailing line breaks,
  splitting at LF or CRLF, and dropping empty lines. The functions
  `SplitLimit2` (the two-part split), `StripTrailingBreaks`, `SplitCrLf`,
  `NonEmpty` (the filter) and `SubsFileLines` (the whole read) model
  these steps. `HasMainRule` is the condition for the `-m`/`-r` rule and
  `MainRule` is that rule; `BuildRules` states where it goes.
- **Output escapes** (module `OutputEscapes`). With `--format`, the text
  `\e` becomes ESC in each line written. With `--whitespace-escapes`,
  `\n`, `\t` and `\r` become LF, TAB and CR. Each rewrite is one global
  left-to-right pass. `ReplacePair` is one such pass and `FormatOutput`
  applies the passes in the tool's order; the `ReplacePair…` and
  `FormatOutput…` lemmas characterise them.
- **Streaming line reader** (module `LineReader`). `readLines` appends
  each chunk to a buffer and cuts the buffer after every LF. It hands
  complete lines to the consumer and keeps the unterminated tail back
  until more input arrives. At end of input it hands over what is left.
  `SplitAfterNewlines` is the `split`, `LineTest` the end-of-line test,
  `ProcessBuffer` the shared step, and `OnData` and `OnEnd` the two
  event handlers. The lemmas and the `ReadLines` method state what they
  do, against the reference cut `LinesOf`.
- **Option parser** (module `ArgParser`):
  - the option table that `flag`/`string`/`bool`/`help` build;
  - the configuration passed to the `arg` library;
  - the loop that copies each parsed option to its friendly name;
  - the decision to show help.

  `RegisterAliases`, `DeclareFlag`, `DeclareString`, `DeclareBool` and
  `DeclareHelp` build the table. `Config` is the configuration, a plain
  record that is always permissive and carries `argv` as given.
  `RenameKeys` is the copying loop and `Parse` the whole call. The
  `…Spec`, `RenameKeys…` and `ParseShowsHelp` lemmas characterise them.

Module `Text` holds shared vocabulary: an `Option` type, decimal digits,
`join('')` of a list of strings, and the position of the first LF.

JavaScript strings are modelled as `seq<char>`. A RegExp is modelled as
its source text and flag string. Each regular-expression operation the
tool applies to its own data is written out as a function, which lists
the cases the expression accepts:
- `/(\\?)\$\{(\d+)\}/g`;
- `/[|]{3}/`;
- `/^\\(\\*)!/`;
- `/[\r\n]+$/`;
- `/\r?\n/`;
- `/(?<=\r?\n)/`;
- `/\n$/m`;
- `/\\e/g` and the three whitespace escapes.

## Model

| member | source | states |
|---|---|---|
| LegacyTemplate.DigitRunSpec | src/index.js:43 | `\d+` takes the longest run of digits: the result is a digit prefix of the text, and the character after it, if any, is not a digit |
| LegacyTemplate.RefAtSpelling | src/index.js:43 | a recognised reference is spelled `${`, its non-empty digit string, `}`, at the start of the text |
| LegacyTemplate.RefAtReference | src/index.js:43 | `${d}` is recognised with exactly the digit string `d`, whatever follows the `}` |
| LegacyTemplate.NatToDigits | src/index.js:46 | the decimal spelling of `n` is a canonical array-index key whose numeric value is `n` |
| LegacyTemplate.ExpandReference | src/index.js:45-46 | an unescaped `${d}` is replaced by the callback's value and scanning resumes after its `}` |
| LegacyTemplate.ExpandInRange | src/index.js:46 | an in-range index written as an array index becomes the group's text, or `''` if the group did not participate |
| LegacyTemplate.ExpandOutOfRange | src/index.js:46 | an index at or beyond the capture count (`args.length - 2`) leaves `${d}` verbatim |
| LegacyTemplate.ExpandLeadingZero | src/index.js:46 | an in-range index written with a leading zero reads a key that is not an index and yields `''` |
| LegacyTemplate.ExpandEscaped | src/index.js:43-46 | `\${d}` loses its backslash and keeps `${d}`, whatever the index |
| LegacyTemplate.ExpandWholeMatch | src/index.js:45-46 | `${0}` is the whole match |
| LegacyTemplate.ExpandGroup | src/index.js:46 | `${n}` with `n` below the capture count is group `n`'s text, `''` when it is unmatched |
| LegacyTemplate.ExpandLiteralPrefix | src/index.js:43-46 | text without `$` or `\` is copied verbatim and does not change how the rest expands |
| LegacyTemplate.ExpandDollarFree | src/index.js:43-46 | a replacement string without `$` comes back unchanged, backslashes included |
| LegacyTemplate.ExpandWithoutReferences | src/index.js:43-46 | a replacement string where no position starts a reference comes back unchanged |
| LegacyTemplate.ExpandNonDigitAfterBrace | src/index.js:43 | `${` followed by a non-digit is ordinary text |
| Substitutions.Flags | src/index.mjs:49 | the flags are `g`, then `i` exactly when case is ignored, then `m` exactly when not in one-line mode, each at most once |
| Substitutions.FindSep | src/index.mjs:47-48 | the search finds the leftmost triple bar at or after the start position, or reports that none is there |
| Substitutions.UnescapeBang | src/index.mjs:57 | a leading run of backslashes followed by `!` loses exactly one backslash; any other string is unchanged |
| Substitutions.ProcessSub | src/index.mjs:46-62 | it is a replacement rule exactly when the string contains the triple bar. The pattern is the text before the first separator and the replacement is the text up to the next one or the end. Otherwise it is a grep rule, inverted exactly when the string starts with `!`, which is dropped. An escaped leading `!` loses one backslash. Every rule gets the shared flags |
| Substitutions.ReplaceRuleRoundTrip | src/index.mjs:47-51 | the pattern, a triple bar and the replacement, written in that order, give back that replacement rule when neither part contains the triple bar and the pattern does not end in a bar |
| Substitutions.GrepRuleRoundTrip | src/index.mjs:52-61 | the written form of any grep rule without the triple bar (`!` to invert, an extra `\` to protect a leading `!`) gives back that rule |
| Substitutions.StripTrailingBreaks | src/index.mjs:77 | the maximal run of CR/LF at the end is removed and nothing else |
| Substitutions.SplitCrLf | src/index.mjs:77 | splitting at LF (with a preceding CR) leaves at least one piece and no LF in any piece |
| Substitutions.SplitCrLfJoin | src/index.mjs:77 | the split is the inverse of joining lines, blank ones included, that have no LF and do not end in CR, with either LF or CRLF |
| Substitutions.StripBreakTail | src/index.mjs:77 | stripping removes exactly an appended run of line breaks from text that does not end in one |
| Substitutions.NonEmptySpec | src/index.mjs:77 | the filter keeps only non-empty strings, all taken from the input, and keeps every non-empty string of the input; a one-string list is kept exactly when its string is non-empty |
| Substitutions.NonEmptyAppend | src/index.mjs:77 | filtering two lists joined gives the two filtered lists joined, so the kept strings stay in input order; with the one-string case this fixes the filter completely |
| Substitutions.NonEmptyKeepsAll | src/index.mjs:77 | the filter leaves a list with no empty string unchanged |
| Substitutions.SubsFileLinesShape | src/index.mjs:76-77 | the rule strings read from a file are non-empty and LF-free, and a file with only whitespace gives none |
| Substitutions.SubsFileRoundTrip | src/index.mjs:73-83 | a file written one rule per line, with blank lines anywhere before the last rule, reads back as its non-blank lines in file order, given that some line has non-whitespace text. With no blank line it reads back as exactly those lines. This holds with LF or CRLF line ends and any trailing run of line breaks |
| Substitutions.AppendProcessed | src/index.mjs:89-93 | processing a list of rule strings keeps the rules already there and appends one rule per string, in order |
| Substitutions.BuildRules | src/index.mjs:64-93 | the rule list is the `-m`/`-r` rule, then the file's rules in file order, then the `-s` rules in argument order. The first rule is the replacement of `-m` by `-r` with the shared flags whenever `-m` is non-empty and `-r` is given (even as `''`); otherwise the list starts with the file's rules |
| OutputEscapes.ReplacePairRemovesAll | src/index.mjs:156 | after a pass no backslash-letter pair of that letter is left, including none formed by a removal |
| OutputEscapes.ReplacePairKeepsNoPair | src/index.mjs:159 | a later pass introduces no pair of another letter, so earlier passes stay effective |
| OutputEscapes.ReplacePairIdentity | src/index.mjs:155-160 | text with no pair for the letter passes through unchanged |
| OutputEscapes.ReplacePairLength | src/index.mjs:155-160 | a pass never lengthens the text, and it shortens any text that holds a pair |
| OutputEscapes.ReplacePairChanges | src/index.mjs:155-160 | a pass changes the text exactly when the text contains a pair |
| OutputEscapes.ReplacePairInverse | src/index.mjs:156 | a pass undoes writing each control character as its escape, on text with no pair of its own |
| OutputEscapes.EscapeKeepsNoPair | src/index.mjs:159 | escaping for one letter creates no pair for any other letter |
| OutputEscapes.FormatOutputClean | src/index.mjs:155-160 | with `--format` no `\e` survives; with `--whitespace-escapes` no `\n`, `\t` or `\r` survives |
| OutputEscapes.FormatOutputNoBackslash | src/index.mjs:155-160 | text without backslashes is written unchanged under every combination of switches |
| OutputEscapes.FormatOutputRoundTrip | src/index.mjs:155-160 | with both switches on, any backslash-free text is what its escaped spelling is written as |
| LineReader.SplitAfterNewlinesShape | lib/readInput.mjs:28 | the pieces join back to the buffer. Every piece but the last is a complete line. The last piece has an LF at most at its end. No piece of a non-empty buffer is empty |
| LineReader.LineTestAtEnd | lib/readInput.mjs:29 | on the last piece, the multiline `\n$` test holds exactly when the piece ends with LF |
| LineReader.KeepLast | lib/readInput.mjs:31-33 | when it fails the test, the pieces handed over are complete lines, the piece kept back has no LF, and together they are the whole buffer |
| LineReader.ProcessBufferSpec | lib/readInput.js:21-29 | the lines handed over, followed by the kept buffer, are the old buffer. The kept buffer has no LF. Without `end`, only complete lines are handed over. With `end`, the buffer is emptied |
| LineReader.OnEndFlushes | lib/readInput.mjs:40-43 | at end of input an LF-free buffer is handed over as one line (possibly empty) and cleared |
| LineReader.DataStep | lib/readInput.mjs:36-39 | a `data` event keeps two facts true: everything handed over is complete lines, and that text followed by the buffer is all input so far |
| LineReader.LinesOfWellSplit | lib/readInput.mjs:28 | complete lines followed by one LF-free remainder are exactly what cutting their concatenation after every LF gives |
| LineReader.LinesOfSplit | lib/readInput.mjs:28 | cutting after every LF differs from the `split` only by an empty last piece after a final LF |
| LineReader.ReadStep | lib/readInput.mjs:36-39 | after one more `data` event there is one more call without `end`, everything handed over is complete lines, and it, followed by the buffer, spells all input so far |
| LineReader.ReadFinish | lib/readInput.mjs:40-43 | the `end` event after the last chunk hands over the remainder as one line, and the lines of all calls are the input cut after every LF |
| LineReader.ReadLines | lib/readInput.mjs:23-48 | there is one call per chunk without `end` and one final call with `end` and a single line. All lines handed over, taken together, are the whole input cut after every LF, independent of the chunk boundaries |
| ArgParser.RegisterAliasesSpec | lib/argParser.js:15-19 | every alias maps to the main spelling, other entries are unchanged, and the table's keys grow by exactly the aliases |
| ArgParser.DeclareFlagSpec | lib/argParser.js:10-21 | the friendly name is recorded for the main spelling and every alias resolves to it. The main spelling carries the type unless it is also listed as an alias. Nothing else in either table changes |
| ArgParser.DeclareHelpSpec | lib/argParser.js:25-28 | `help` stores its text and declares a boolean whose friendly name is `help`, under the given spellings |
| ArgParser.RenameKeysDomain | lib/argParser.js:34-40 | the result holds exactly the keys some parsed option writes, under its own spelling or its friendly name |
| ArgParser.RenameKeysLastWins | lib/argParser.js:35-39 | each key holds the value of the last option that writes it |
| ArgParser.RenameKeysSingle | lib/argParser.js:35-39 | an option not shadowed by any other appears under its own spelling and, if declared, under its friendly name, with its value |
| ArgParser.LastWriterExists | lib/argParser.js:35-39 | if some option writes a key, then a last option that writes it exists |
| ArgParser.ParseShowsHelp | lib/argParser.js:41-45 | help is shown exactly when a non-empty help text was declared and the last option written under `help` is truthy; otherwise the renamed options are returned |

## Left out

- The `${...}` replacement mini-language of the ES-module entry point is not modelled. Its expansion and the regex matching are done by `doMultiReplace` in the `@henderea/regex-util` package, which is not part of this model. Rules are built but not applied.
- The regex engine is not modelled. Patterns and flags are kept as strings. Grep filtering, test mode and the `-m` regex test are not modelled because they depend on matching.
- Stream and file plumbing are not modelled: opening input and output files, the pass-through buffer, writing output, cleanup and process exit codes.
- `readAll` and its character-encoding detection are not modelled.
- Reading the substitutions file is replaced by a parameter holding its text, `None` when no file is named or the named file does not exist (the tool skips a missing file silently). A read error, which ends the process with exit code 1, is not modelled.
- Invalid patterns are not modelled. `new RegExp` throws on a pattern it cannot compile. For a rule from the substitutions file the tool then reports an error reading the file and exits with code 1. For `-m` or an `-s` value the exception ends the program. `ProcessSub` and `BuildRules` always produce a rule, because patterns are kept as text and never compiled.
- The `arg` library call is not modelled. Its result is a parameter, the list of parsed `(key, value)` pairs in key order. Printing the help text and exiting become the `ShowHelp` outcome. The `argv` getter is not modelled.
- `helpText.js` and `helpText.mjs` are not modelled; they hold only display text.
- The option-builder file imported by the ES-module entry point (with `strings` and `withVersion`) is not part of this model. The `ArgParser` module models `lib/argParser.js`.
- Option types: `flag` accepts any type the `arg` library understands, including custom handler functions. `ArgType` and `Value` cover only `String` and `Boolean`, the two that `string`, `bool` and `help` declare.
- Variadic `flag` calls: only well-formed `flag` calls (a main spelling followed by a type) are modelled. Calls with fewer arguments are left out.
- JavaScript strings are UTF-16. Here a character is one `char`, so surrogate pairs are not modelled.
- The legacy entry point receives the capture array from `String.prototype.replace`. The extra arguments that a pattern with named groups adds are not modelled; captures are passed in directly.
