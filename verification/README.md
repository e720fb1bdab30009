# IPPcode23 parser core in Dafny

A functional model of `parse.php`, the IPPcode23 parser, and proofs about it.
The parser reads IPPcode23 source line by line. It removes comments and
surrounding white space, and splits each line into tokens. The header
`.IPPcode23`, in any letter case, must stand alone on the first line that
has a token. Every later line that starts with a token is then one
instruction: its opcode is looked up case-insensitively in a table of 35
opcodes, its operand count is checked, and each operand is checked against
the grammar of its kind (`var`, `label`, `symb`, `type`). The result is the
ordered list of instructions, numbered from 1, that `parse.php` turns into
an XML document. Errors stop the run with code 21 (header), 22 (unknown
opcode) or 23 (operand count or operand grammar).

Modules, in dependency order:

- `Wrappers`: `Option` and `Result`. A `Result` error carries the exit code
  and the 0-based line index the source passes to `error()`.
- `Chars`: the character classes of the regular expressions (PCRE `\s`,
  `\d`, `\w`, the identifier punctuation), PHP's `trim` set and
  `strtoupper`.
- `Text`: `str_replace` of one character, `&amp;` escaping and its inverse,
  `explode` with and without a limit, `implode`.
- `Normalizer`: `remove_comments_and_whitespace` and `separate`, that is
  the comment regex, `trim` and `preg_split('/\s+/')`.
- `Grammar`: the variable, label, integer and string grammars, and
  `check_const`.
- `Opcodes`: the opcode enumeration, the `switch` of `parse`, and the
  operand kinds of each opcode.
- `Operands`: `chek_and_print_arguments`, one operand token classified as
  an emitted operand, a skipped operand, or a failure.
- `Instructions`: `parse`, one instruction line assembled or refused.
- `Translator`: the main loop, with the header gate, the order counter and
  the final missing-header check, as a pure function and as the imperative
  loop proved equal to it.

Four behaviours of `parse.php` that the model keeps as written:

- A `symb` operand with a frame prefix (`GF@`, `LF@`, `TF@`) that fails
  the variable grammar produces no operand and no error. The source checks
  the variable regex inside the frame branch and has no `else`.
- A valid variable given as a `symb` is emitted without `&` escaping. Only
  the `var` kind escapes it. The XML writer then reads that `&` as the start
  of an entity reference, which the model does not follow.
- A line with only trim characters, or with white space followed by a
  comment, gives one empty token (`Normalizer.BlankLine`,
  `Normalizer.CommentOnlyLine`). A blank or comment-only line that
  keeps a form feed, which `trim` does not remove, gives only empty tokens.
  The loop ignores such a line, because it hands a line to `parse` only
  when the first token is not empty. A form feed after the last token of
  an instruction line, by contrast, adds an empty operand, so `RETURN\f`
  is error 23 (`Normalizer.TrailingFormFeed`, `Translator.ReturnFormFeed`).
- `int`, `bool` and `nil` constants check and emit only the text between
  the first and the second `@`. Anything after a second `@` is ignored.

## Model

| member | source | states |
|---|---|---|
| Chars.Upper | parse.php:112 | `strtoupper` keeps the length and upper-cases each ASCII letter alone; no lower-case letter is left |
| Chars.UpperIdempotent | parse.php:112-113 | upper-casing twice is upper-casing once, so comparing against an upper-case name is stable |
| Chars.UpperIgnoresCase | parse.php:276 | two spellings that differ only in letter case upper-case to the same text |
| Text.ReplaceChar | parse.php:217 | `str_replace` of a character is the identity when the character is absent, removes it when the replacement lacks it, and introduces only characters of the text or the replacement |
| Text.ReplaceCharAppend | parse.php:217 | replacement works character by character, so it distributes over concatenation |
| Text.EscapeAmp | parse.php:204 | `str_replace("&", "&amp;")` introduces no character other than those of the text and of `&amp;`; its length and inverse are stated by the next two rows |
| Text.EscapeAmpLength | parse.php:204 | `&amp;` escaping grows the text by exactly four characters per `&` |
| Text.UnescapeEscapeAmp | parse.php:204 | an XML reader that decodes `&amp;` gets the original token back |
| Text.Explode | parse.php:225 | `explode` gives one piece more than there are separators, and no piece holds the separator |
| Text.ImplodeExplode | parse.php:225 | `explode` loses nothing: joining its pieces with the separator restores the text |
| Text.ExplodeOnce | parse.php:241 | `explode` with limit 2 gives the text before the first `@` and, exactly when there is an `@`, everything after it, so the two pieces rebuild the text |
| Text.ExplodeOnceHead | parse.php:225-241 | both `explode` calls agree on the type prefix |
| Text.Field | parse.php:244 | reads element `i` of an `explode` result; a missing element reads as the empty text (see "Left out"); `Operands.SymbConstPiece` states what it yields for constants |
| Text.IndexOfFirst | parse.php:86 | the first occurrence of a character is the one with none before it |
| Normalizer.StripComments | parse.php:86 | comment removal leaves no `#`, changes a line without `#` not at all, and adds no character |
| Normalizer.StripCommentsLine | parse.php:86 | code, white space, a comment and an optional line feed reduce to the code and the line feed |
| Normalizer.StripCommentsLF | parse.php:86 | on a line as `file()` returns it, comment removal keeps the final line feed and works on the rest as on a line without it |
| Normalizer.TrimAppend | parse.php:88 | trailing trim characters, a line feed among them, do not change the result of `trim` |
| Normalizer.TrimLeftAppend | parse.php:88 | `trim` at the front of a text with a non-trim character ignores what follows it |
| Normalizer.TrimRightAppend | parse.php:88 | `trim` at the back removes appended trim characters and then acts as on the text before them |
| Normalizer.TokenizeLF | parse.php:83-102 | a line feed at the end of a line leaves its tokens unchanged |
| Normalizer.BlankLine | parse.php:83-102 | a line of trim characters alone, the empty line and a bare line feed included, gives the single empty token |
| Normalizer.CommentOnlyLine | parse.php:83-102 | a line of any white space followed by a comment gives the single empty token |
| Normalizer.SpaceRunStartExact | parse.php:86 | the `\s*` before a `#` starts exactly where the white-space run before it starts |
| Normalizer.LineEndExact | parse.php:86 | `.*$` under the `m` flag stops exactly at the next line feed or at the end |
| Normalizer.Trim | parse.php:88 | the trimmed text neither starts nor ends with a trim character and holds only characters of the input |
| Normalizer.TrimExact | parse.php:88 | `trim` removes exactly the surrounding trim characters and nothing between them |
| Normalizer.TrimLeftExact | parse.php:88 | `trim` at the front removes exactly the leading trim characters |
| Normalizer.TrimRightExact | parse.php:88 | `trim` at the back removes exactly the trailing trim characters |
| Normalizer.Split | parse.php:100 | `preg_split('/\s+/')` gives at least one piece; what the pieces are is stated by the next rows |
| Normalizer.SplitHeadEmpty | parse.php:100 | the first piece is empty exactly when the text is empty or starts with white space |
| Normalizer.SplitLastSpace | parse.php:100 | a text without white space, then one white-space character, splits into the text and an empty last piece |
| Normalizer.SplitNoSpace | parse.php:100 | no piece of `preg_split('/\s+/')` holds white space |
| Normalizer.SplitNonEmpty | parse.php:100 | a text that neither starts nor ends with white space splits into non-empty pieces only |
| Normalizer.SplitInner | parse.php:100 | one split step inside such a text gives a non-empty first piece and a rest of the same kind |
| Normalizer.SplitChars | parse.php:100 | every character of a piece is a character of the text |
| Normalizer.SplitJoinSpaces | parse.php:100 | splitting inverts writing non-empty space-free tokens out with single spaces |
| Normalizer.SplitCons | parse.php:100 | a token, one space and a text that starts with a token split into the token and the pieces of the text |
| Normalizer.TokenizeJoin | parse.php:83-102 | normalising a line of tokens written out with single spaces gives back exactly those tokens |
| Normalizer.Tokenize | parse.php:83-102 | `separate(remove_comments_and_whitespace(line))` gives at least one token; `TokenizeShape` and `TokenizeJoin` state what they are |
| Normalizer.TokenizeJoinLine | parse.php:83-102 | the same round trip for a line as `file()` returns it, with or without its line feed |
| Normalizer.TrimKeeps | parse.php:88 | `trim` leaves alone a text whose first and last characters are not trim characters, a form feed among them |
| Normalizer.TrailingFormFeed | parse.php:83-102 | a token followed by a form feed gives the token and an empty last token, because `trim` keeps the form feed |
| Normalizer.TokenizeShape | parse.php:83-102 | a normalised line gives at least one token, and no token holds `#` or white space |
| Normalizer.TokenizeNonEmptyTokens | parse.php:83-102 | without form feeds, a line gives either the single empty token or non-empty tokens only |
| Normalizer.JoinSpacesAvoids | parse.php:86 | joining tokens free of a character other than the space gives a line free of it, so no `#` and no line feed appears |
| Grammar.ValidVar | parse.php:201 | the variable regex: a frame `GF`, `LF` or `TF`, an `@`, then an identifier; `Operands.VarSpec`, `Grammar.VarExplodes`, `Grammar.VarChars` and `Grammar.VarHasFramePrefix` state its consequences |
| Grammar.ValidLabel | parse.php:212 | the label regex: an identifier; `Operands.LabelSpec` and `Grammar.IdentExcludes` state its consequences |
| Grammar.IdentExcludes | parse.php:201-212 | an identifier holds no `@`, `<`, `>`, `#`, backslash or white space |
| Grammar.VarExplodes | parse.php:225-230 | a valid variable explodes at `@` into its frame and its name |
| Grammar.VarChars | parse.php:201 | a variable holds only identifier characters and `@` |
| Grammar.VarHasFramePrefix | parse.php:199-201 | a valid variable's text before its `@` is one of `GF`, `LF`, `TF` |
| Grammar.RemoveEscapes | parse.php:176 | deleting each backslash with three digits after it never lengthens the text, changes a text without a backslash not at all, and leaves only characters of the text |
| Grammar.IsStringLiteral | parse.php:176-177 | the deletion, then the test that no backslash is left; `Grammar.StringLiteralIff` states which constants pass |
| Grammar.StringLiteralIff | parse.php:173-177 | a string constant passes the deletion-then-check test exactly when each backslash starts a three-digit escape |
| Grammar.StringLiteralEscapeAmp | parse.php:239-244 | checking the `&amp;`-escaped value, as the source does, accepts exactly the constants that checking the raw value accepts |
| Grammar.WellFormedEscapeAmp | parse.php:239-244 | `&amp;` escaping neither makes nor breaks a well-formed escape |
| Grammar.StringLiteralExamples | parse.php:173-177 | the empty string, `a\064b` and `\999` pass: any three digits are an escape |
| Grammar.StringLiteralRejected | parse.php:173-177 | a lone backslash, a two-digit escape and an escaped backslash before digits fail |
| Grammar.IsIntLiteral | parse.php:162 | the integer regex: an optional sign, then `0`, a decimal without a leading zero, `0x` hexadecimal, or an octal with optional `o`/`O`; `Grammar.IntLiteralExamples` and `Grammar.IntLiteralChars` state what it admits |
| Grammar.IntLiteralDigits | parse.php:162 | every run of decimal digits without a leading zero, or `0` alone, passes the integer check, with or without a sign |
| Grammar.IntLiteralDecimal | parse.php:162 | in particular, the decimal numeral of every natural number passes, with or without a sign |
| Grammar.IntLiteralExamples | parse.php:161-162 | `-5`, `0x1A`, `007`, `0o17`, `+0` are integers; the empty text, `1.5`, `08`, `0X1A`, `0o` are not |
| Grammar.IntLiteralChars | parse.php:162 | an integer literal holds only letters, digits, `_` and signs |
| Grammar.CheckConst | parse.php:156-180 | `check_const`: integers by the integer regex, `true`/`false` for `bool`, `nil` for `nil`, strings by the escape test; `Operands.SymbString` and `Operands.SymbConstPiece` state its use |
| Grammar.ParseConstType | parse.php:236 | a type prefix is accepted exactly when it is `nil`, `bool`, `int` or `string`, and it reads back as its name |
| Grammar.ParseConstName | parse.php:236 | each constant type is read back from its own name |
| Opcodes.Lookup | parse.php:277-386 | the `switch` of `parse` over the 35 upper-case names; `Opcodes.LookupSound`, `Opcodes.LookupName` and `Opcodes.LookupNone` state that it finds exactly the opcode named by the text |
| Opcodes.LookupSound | parse.php:276-386 | the lookup finds only an opcode whose name is exactly the text looked up |
| Opcodes.LookupName | parse.php:276-384 | every opcode is found by its own name |
| Opcodes.LookupNone | parse.php:385-386 | the lookup fails exactly for a text that names no opcode |
| Opcodes.NameInjective | parse.php:280-384 | no two opcodes share a `case` label |
| Opcodes.LookupUpper | parse.php:276-277 | the lookup of an upper-cased token succeeds exactly for the spellings of a name in any letter case |
| Opcodes.Kinds | parse.php:280-384 | every opcode takes at most three operands, in one of the eight signatures of the table |
| Opcodes.KindsLabelAndType | parse.php:304-384 | only `READ` takes a type, and only the two conditional jumps start with a label and take more operands |
| Operands.ClassifyVar | parse.php:199-209 | a `var` operand never leaves a gap, and an emitted one has its position and type `var` |
| Operands.VarSpec | parse.php:199-209 | a `var` operand is accepted exactly when it is a valid variable, and its text decodes back to the token |
| Operands.ClassifyLabel | parse.php:210-222 | a `label` operand is never skipped, and an emitted one has its position and type `label` |
| Operands.LabelEscapeIsEscapeAmp | parse.php:215-217 | on a valid label, the three-way escaping is `&amp;` escaping alone and decodes back to the label |
| Operands.LabelSpec | parse.php:210-222 | a `label` operand is accepted exactly when it is a valid label, with `&` escaped and decodable back |
| Operands.LabelWithAmp | parse.php:210-222 | an `&` inside a label is emitted as `&amp;` and its neighbours are unchanged |
| Operands.ClassifyType | parse.php:252-258 | a `type` operand is accepted exactly for the four type names and emitted unchanged |
| Operands.ClassifySymb | parse.php:223-251 | an emitted `symb` has its position, a skipped one has a frame prefix, and an emitted constant passes `check_const` |
| Operands.SymbSpec | parse.php:223-251 | a frame-prefixed `symb` is a variable as written, or else skipped; a constant is emitted only when `check_const` accepts it; any other prefix fails |
| Operands.SymbString | parse.php:239-248 | `string@v` is accepted exactly when `v`'s escapes are well formed, and is emitted as `v` with `&` escaped, further `@`s included |
| Operands.SymbConstPiece | parse.php:225-246 | `nil`, `bool` and `int` check and emit only the piece before a second `@` |
| Operands.SymbVar | parse.php:227-233 | a valid variable as `symb` is emitted as `var` with its text as written |
| Operands.SymbVarExample | parse.php:227-233 | `GF@x` as `symb` is emitted as the variable `GF@x` |
| Operands.SymbIntExample | parse.php:236-247 | `int@5` is the integer `5` |
| Operands.SymbBareStringExample | parse.php:239-247 | a bare `string` is the empty string constant |
| Operands.SymbUnknownPrefixExample | parse.php:250 | `foo@bar` fails |
| Operands.SymbBadIntExample | parse.php:244-248 | `int@1.5` fails |
| Operands.SymbSkippedExample | parse.php:227-234 | `GF@1x` gives no operand and no error |
| Operands.VarExamples | parse.php:199-209 | `GF@x` is accepted unchanged as `var`; `x` is refused |
| Operands.Classify | parse.php:193-260 | an emitted operand has the position asked for, and only `symb` can be skipped |
| Operands.ClassifyPositionIndependent | parse.php:193-260 | whether a token is accepted, skipped or refused does not depend on its position |
| Instructions.Outcomes | parse.php:300-382 | each operand is classified at its own 1-based position |
| Instructions.OutcomesAt | parse.php:300-382 | operand `i` is classified against kind `i` at position `i + 1` |
| Instructions.Emitted | parse.php:300-382 | the emitted operands are exactly those of the emitting outcomes |
| Instructions.EmittedOrdered | parse.php:300-382 | emitted operands keep increasing positions within the operand count |
| Instructions.EmittedAll | parse.php:300-382 | when every operand is emitted, they are all there, in order |
| Instructions.Collect | parse.php:193-260 | the operands are accepted exactly when none fails, a failure is error 23 on the line, and success gives the emitted operands |
| Instructions.Assemble | parse.php:273-388 | an unknown opcode is error 22, a wrong count is error 23, and an accepted instruction carries the opcode named by the upper-cased token |
| Instructions.AssemblePositions | parse.php:300-382 | an accepted instruction's operands have increasing positions between 1 and the operand count |
| Instructions.AcceptWellFormed | parse.php:286-383 | the right number of well-formed operands is accepted with all operands, in order |
| Instructions.AllOutcomesEmit | parse.php:300-382 | operands that each classify as emitted give outcomes that all emit |
| Instructions.AcceptOutcomes | parse.php:286-383 | a known opcode with the right count and emitting operands is accepted with those operands |
| Instructions.AssembleOperands | parse.php:286-383 | with a known opcode and the right count, the instruction is error 23 on its line exactly when some operand is refused, and is otherwise accepted with the emitted operands in order |
| Instructions.MoveSkippedOperand | parse.php:227-234 | `MOVE <var> <frame>@<not a name>` is accepted with the variable alone: the second operand is dropped without an error |
| Instructions.ArityMismatch | parse.php:286-376 | a wrong operand count is error 23, never truncated or padded |
| Instructions.UnknownOpcodeAnyArgs | parse.php:385-386 | a token that names no opcode is error 22, whatever the operands |
| Instructions.SymbIntOperand | parse.php:236-247 | `int@n` with a valid literal `n` is the integer `n` |
| Instructions.MoveVarInt | parse.php:327-338 | `MOVE <var> int@<n>` in any letter case is `MOVE` with a `var` operand, `&` escaped, and an `int` operand |
| Translator.NonEmpty | parse.php:404-410 | the collected tokens are non-empty, and none are collected exactly when the line has no non-empty token |
| Translator.Step | parse.php:404-430 | one pass of the loop body; `Translator.StepShape` and `Translator.StepInv` state what it does |
| Translator.Run | parse.php:401-431 | the loop, stopping at the first error; `Translator.RunInv`, `Translator.RunErrPersists` and `Translator.RunPrefix` state its properties |
| Translator.Finish | parse.php:432 | the loop, then the missing-header check; `Translator.NoTokens` states when it fails |
| Translator.Translate | parse.php:396-432 | the whole translation of the input lines; `Translator.TranslateOrders`, `Translator.TranslateNeedsHeader` and `Translator.TranslateLines` state its properties |
| Translator.StepShape | parse.php:401-431 | a step fails on its own line, with error 21 exactly while the header is missing, or else extends the tokens and the program by at most one instruction |
| Translator.StepInv | parse.php:411-430 | one step keeps the invariant that the counter equals the program length and the Nth instruction has order N |
| Translator.RunInv | parse.php:401-431 | the loop keeps that invariant |
| Translator.TranslateOrders | parse.php:426-429 | the Nth translated instruction has order N |
| Translator.RunTokenless | parse.php:401-431 | lines without a token leave the loop in its start state |
| Translator.NoTokens | parse.php:432 | input without any token, the empty input included, is error 21 at line 0 |
| Translator.HeaderGate | parse.php:412-423 | the first line with a token must be the header alone, or the loop stops there with error 21 |
| Translator.RunErrPersists | parse.php:41-50 | the first error ends the loop with that error |
| Translator.RunNeedsHeader | parse.php:412-423 | a loop that succeeds met the header on its first line with a token |
| Translator.TranslateNeedsHeader | parse.php:110-115 | a translation that succeeds has the header, in any case, on its first line with a token |
| Translator.RunPrefix | parse.php:424-430 | no line changes an instruction made earlier |
| Translator.AppendInstruction | parse.php:424-430 | after the header, a line starting with a token becomes the next instruction, numbered one more than the last, or stops the loop with its error |
| Translator.SkipLine | parse.php:424 | after the header, a line that is not handed to `parse` adds no instruction |
| Translator.HeaderThenLine | parse.php:412-430 | a header line and one instruction line give that instruction with order 1, or its error |
| Translator.HeaderNameChars | parse.php:113 | the identifier holds no white space, NUL or `#` |
| Translator.UpperTokenChars | parse.php:112 | upper-casing changes letters alone, so it keeps token characters |
| Translator.HeaderChars | parse.php:112-113 | every spelling of the header survives normalisation as one token |
| Translator.TranslateHeaderAndLine | parse.php:396-432 | a header line and a line of tokens, as `file()` returns them, translate to the one instruction `parse` makes of those tokens, with order 1, or its error on line 1 |
| Translator.MoveTokenChars | parse.php:83-102 | the tokens of a `MOVE <var> int@<n>` line hold no white space, NUL or `#`, so normalisation keeps them whole |
| Translator.TranslateMove | parse.php:396-432 | the header and `MOVE <var> int@<n>`, as `file()` returns them, translate to one `MOVE` instruction with order 1, the variable with `&` escaped and the integer as written |
| Translator.ReturnFormFeed | parse.php:424-430 | `RETURN` followed by a form feed, in any letter case, reaches `parse` with one empty operand and is error 23 |
| Translator.NonEmptySnoc | parse.php:404-410 | collecting non-empty tokens one at a time appends a token exactly when it is not empty |
| Translator.AppendNonEmpty | parse.php:404-410 | the inner loop appends exactly the line's non-empty tokens, in order |
| Translator.StepLine | parse.php:401-431 | one pass of the loop as written computes the step of the functional model |
| Translator.TranslateLines | parse.php:396-432 | the imperative loop with its early exits and final check computes the functional translation |

## Left out

- Error reporting: `error()` writes a message to standard error and exits. The model returns `Err(code, line)` with the 0-based line index the source passes. The message text is not modelled.
- Argument handling and help (`check_arguments`, `help`, exit code 10) are not part of the model.
- Reading standard input: the lines are a parameter. `file()` keeps each line's line feed, and normalisation removes it (`Normalizer.TokenizeLF`).
- XML output: `print_instruction`, `print_operand`, SimpleXML and DOM formatting are replaced by `Instruction` and `Arg` records. SimpleXML's `addChild` escapes `<` and `>` in the text it is given but reads `&` as the start of an entity reference, which is why the source escapes `&` as `&amp;` itself. That escaping by the source is modelled; what `addChild` then does is not.
- Regular expressions are modelled for ASCII in the C locale. PCRE `$` matching before a final line feed is not modelled, and neither is `\s` on bytes above 127 or multi-byte characters.
- Translator.Lex: every line is assembled in advance, because assembly is a pure function of the line. The loop reads the result only for the lines it hands to `parse`, so the outcome is the same.
- Normalizer.TokenizeNonEmptyTokens: requires a line without form feed, because `trim` keeps a form feed, and `preg_split` then yields an empty first or last token. That case is modelled in `Tokenize` itself.
- Text.Field: PHP reads a missing `explode` element as null. The model reads it as the empty text, which gives the same `check_const` verdicts.
