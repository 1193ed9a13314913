# ZentLoop: a verified model of its virtual machine and its small services

ZentLoop answers attackers with a hand-written Unix machine, reached over SSH and
SFTP, with a web story that stays consistent per target, and with an admin console
fed by a realtime stream. The modules here model the parts whose correctness is hard
to see from one function and prove what those parts are for.

| module | what it models |
|---|---|
| `Numbers`, `NumberTexts` | int64 texts: literals, and what a variable's text is worth |
| `Arithmetic`, `Precedence`, `Layouts` | the recursive-descent evaluator behind `$((...))`: its grammar, what the operators do, and how expressions may be laid out |
| `Expansion`, `Nesting` | the passes that replace such expressions in a line, one inside another included |
| `Words`, `Quoting`, `Environment` | the two word scanners, what they make of each way of quoting, and `NAME=value command` with its temporary environment |
| `Split`, `Pieces` | cutting lines at a delimiter such as a pipe |
| `Chain`, `Compound`, `Keywords` | cutting lines at list operators, with the compound commands and keywords that hold a command together |
| `AndOr`, `Script` | running the resulting list, and reading a whole printed script back through both layers |
| `Utf8`, `FileSystem`, `Sftp` | UTF-8 characters, runes and truncation, the quota-bounded filesystem, SFTP write handles, fields and packets |
| `Admission`, `RealityCache`, `Realtime` | the connection gate, the source-bound LRU cache, and the realtime fan-out, each over whole runs |
| `Story`, `Exposure` | technology and cloud locks of a target's web story, and the budgets of what a target exposes |
| `LineReader`, `TextBuffer`, `WsFrame` | the prompt editor, the buffer behind vim and nano, and the WebSocket frame codec |
| `Spaces`, `WhiteSpace`, `Maps`, `Substrings`, `Endian` | what several of them use: trimming, sums and oldest entries of maps, substrings, big-endian numbers |

Code that works by changing state is modelled as classes and loops, each proved equal
to a function of its inputs or of the old state; the theorems are about those
functions. Map iteration is a choice of any remaining key, the clock is an input,
channels are bounded sequences, and goroutines are steps in any order. Go's wrapping
int64 and truncating division are written out.

Some behaviour differs from what one would expect. For each, the exact condition is
proved for all inputs, and one input is exhibited:

| what happens | exactly when | an input |
|---|---|---|
| evaluation fails without dividing by zero | some literal is no int64 in its base (`Arithmetic.FailsExactlyWhen`) | `9223372036854775808`, `08` (`Numbers.UnfitLiterals`) |
| a value written into a line does not read back, so that no expression around it has a value and 0 is written for it | it is the smallest int64 (`Expansion.FormattedReadsBackExactlyWhen`, `Nesting.NestedIsReplacedInsideOut`) | `$(($((-9223372036854775807-1))+0))` (`Nesting.SmallestIntIsLost`) |
| the two word scanners disagree on a trimmed line | a CR or LF stands outside quotes and escapes (`Words.ScannersAgreeExactlyWhen`) | `a`, line feed, `b` (`Words.ScannersDisagree`) |
| an operator right behind a single-quoted word is missed, whichever of the four it is | the word ends in an unpaired backslash, which escapes for the splitter but not for the word scanners (`Script.SeparatorIsSeenExactlyWhen`) | the word `a\` (`Script.BackslashHidesSeparator`) |
| the pieces of a pipeline do not join back to the line | the line is not valid UTF-8 (`Split.JoinsBackExactlyWhen`) | the byte 0xFF, which becomes U+FFFD (`Split.InvalidByteIsRewritten`) |
| a command behind assignments loses leading white space that was part of its first word | it starts with white space that separates no words (`Environment.RestHoldsTheOtherWordsExactlyWhen`) | `A=1`, blank, vertical tab, `ls` (`Environment.VerticalTabIsLost`) |
| a temporary environment is not put back exactly | for some name, what it stood for right before it was first assigned, or at the end if it never was, is not what it stood for at first (`Environment.RestoreUndoesApplyExactlyWhen`); if all expansions but one change only names assigned by then, that one changes another (`Environment.OneLeakIsNotUndone`) | `env A='$(B=1)' true` (`Environment.SubstitutionLeaks`) |
| a renamed file is gone | both names are the same path (`FileSystem.RenameKeepsContentExactlyWhen`, `FileSystem.MoveKeepsContentExactlyWhen`) | `/a` to `/a` (`FileSystem.OntoItselfDeletes`) |
| an SFTP write ending beyond 64 MiB is accepted | its end wraps around (`Sftp.AcceptedExactlyWhen`) | one byte at 2^63 - 1 (`Sftp.FarWriteIsDropped`) |
| the hash reported for an upload is not that of the stored bytes | the writes that came in order reach to the end of the file, and the file exceeds the window or a later write changed what they brought (`Sftp.ReportedHashIsOfStoredExactlyWhen`) | two one-byte writes at 0 (`Sftp.RewriteKeepsOldHash`) |
| killing and yanking changes the text | something was killed and the text was above the maximum, or nothing was killed and an older kill fits (`LineReader.KillThenYankRestoresExactlyWhen`) | Ctrl+K, Ctrl+Y at the end of `ab` after killing `x` (`LineReader.OlderKillIsYanked`) |
| in an editor, Backspace after a typed rune or a new line does not restore the text | the line at the cursor is not valid UTF-8 (`TextBuffer.BackspaceRestoresExactlyWhen`) | a line of the one byte 0xFF (`TextBuffer.TypingRewritesInvalidBytes`) |
| in vim's insert mode the cursor is left behind the end of its line | Backspace joins two lines where the bytes on both sides of the seam form a character, and that leaves fewer runes than the upper line had (`TextBuffer.SessionStaysInBoundsExactlyWhen`, `TextBuffer.JoinLeavesTheText`) | the lines 0xE2 0x82 and 0xAC (`TextBuffer.SeamCharacter`) |

## Model

| member | source | states |
|---|---|---|
| Arithmetic.DivisionTruncates | internal/server/trap_ssh_unix_semantics.go:511-518 | the quotient and remainder used are the one pair that multiplies back, with a remainder smaller than the divisor and of the dividend's sign |
| Arithmetic.Parser.ParseExpr | internal/server/trap_ssh_unix_semantics.go:468-490 | succeeds exactly when a sum can be read at the position and has a value, returns that tree's value, and strictly advances |
| Arithmetic.Parser.ParseTerm | internal/server/trap_ssh_unix_semantics.go:492-520 | the same for products, failing on a zero divisor |
| Arithmetic.Parser.ParseFactor | internal/server/trap_ssh_unix_semantics.go:522-587 | the same for signed factors, groups, numbers and names |
| Arithmetic.Parser.ParseSigned | internal/server/trap_ssh_unix_semantics.go:527-538 | a sign negates, wrapping, what follows it |
| Arithmetic.Parser.ParseGroup | internal/server/trap_ssh_unix_semantics.go:539-551 | a parenthesised sum needs its closing parenthesis |
| Arithmetic.Parser.ParseName | internal/server/trap_ssh_unix_semantics.go:573-586 | takes the longest name and reads the text of that variable as a number |
| Arithmetic.Parser.ParseNumber | internal/server/trap_ssh_unix_semantics.go:553-572 | takes the longest number token and fails iff that token is no int64 in its base |
| Arithmetic.EvalVirtualArithmetic | internal/server/trap_ssh_unix_semantics.go:589-597 | refuses more than 256 bytes and unread rest, and is otherwise the tree's value |
| Arithmetic.ExprSound | internal/server/trap_ssh_unix_semantics.go:468-490 | whatever the parser reads is spelled there under the left-recursive grammar |
| Arithmetic.ExprComplete | internal/server/trap_ssh_unix_semantics.go:468-490 | a text the grammar spells is read as that tree |
| Arithmetic.EvaluateMeaning | internal/server/trap_ssh_unix_semantics.go:589-597 | a text has value v iff it fits the limit and spells an expression worth v |
| Arithmetic.SpellingIsUnambiguous | internal/server/trap_ssh_unix_semantics.go:456-587 | no text spells two expressions: precedence and left association are settled |
| Arithmetic.PrintThenEvaluate | internal/server/trap_ssh_unix_semantics.go:456-597 | every tree whose printed form fits the limit evaluates to its own wrapping, truncating value, or fails when it has none |
| Arithmetic.FailsExactlyWhen | internal/server/trap_ssh_unix_semantics.go:508-571 | a tree has no value iff some literal in it is no int64 in its base, or some division or remainder has a divisor worth zero |
| Arithmetic.StoredNumberReadsBack | internal/server/trap_ssh_unix_semantics.go:584-586 | a variable that holds a number's text, with blanks around it or not, is worth that number, for every int64 |
| Layouts.LayoutDoesNotMatter | internal/server/trap_ssh_unix_semantics.go:461-587 | blanks and tabs between any two tokens and spare parentheses change nothing: an expression of numbers, names, signs, groups and operators, laid out in any way within the limit, is worth what its tree is worth |
| Layouts.ForeignCharactersFail | internal/server/trap_ssh_unix_semantics.go:461-597 | a text with any other character in it, a line feed for instance, has no value |
| Precedence.OneOperator | internal/server/trap_ssh_unix_semantics.go:468-520 | `a+b`, `a-b` and `a*b` are the sum, difference and product up to a multiple of 2^64, `a/b` and `a%b` the quotient and remainder, and they fail on zero |
| Precedence.TwoOperators | internal/server/trap_ssh_unix_semantics.go:468-520 | of two operators a product binds closer than a sum, and otherwise the left one comes first |
| Precedence.ParenthesesLeft | internal/server/trap_ssh_unix_semantics.go:539-551 | a parenthesised sum on the left of a product comes first |
| Precedence.ParenthesesRight | internal/server/trap_ssh_unix_semantics.go:539-551 | so does what is parenthesised on the right |
| Precedence.Signs | internal/server/trap_ssh_unix_semantics.go:527-538 | a minus in front of a number negates it, a plus keeps it |
| Numbers.ParseIntReadsFormatted | internal/server/trap_ssh_unix_semantics.go:585 | reading a formatted int64 gives it back, the smallest one included |
| Numbers.UnfitLiterals | internal/server/trap_ssh_unix_semantics.go:570-571 | 9223372036854775807 is a literal, 9223372036854775808 and 08 are not |
| Numbers.HexLiterals | internal/server/trap_ssh_unix_semantics.go:556-571 | `0x` or `0X` and digits of either case are worth the number the digits write in base 16, or fail beyond int64 |
| Numbers.OctalAndDecimalLiterals | internal/server/trap_ssh_unix_semantics.go:565-571 | the same for a leading `0` in base 8, and for other digits in base 10 |
| Numbers.LiteralAgreesWithParseInt | internal/server/trap_ssh_unix_semantics.go:570-586 | a literal is worth what a variable that holds its text is worth |
| NumberTexts.TextMeaning | internal/server/trap_ssh_unix_semantics.go:585 | a text in any base, with a sign and with underscores between digits, is worth the nearest int64; misplaced underscores or text behind make it worth 0, unless its digits alone exceed 64 bits |
| NumberTexts.OtherTextsAreZero | internal/server/trap_ssh_unix_semantics.go:585 | a text that starts with something else, and the empty one, is worth 0 |
| Expansion.ExpandVirtualArithmetic | internal/server/trap_ssh_unix_semantics.go:599-663 | the loop is twelve rounds of replacing the last opening, stopping when there is none or it is not closed |
| Expansion.FindStart | internal/server/trap_ssh_unix_semantics.go:601-630 | finds the last `$((` outside single quotes and escapes, or says there is none |
| Expansion.FindEnd | internal/server/trap_ssh_unix_semantics.go:634-651 | finds the first `))` at the expression's own depth, or says there is none |
| Expansion.FormattedReadsBackExactlyWhen | internal/server/trap_ssh_unix_semantics.go:660 | a value written into the line evaluates to itself in a later pass, and fails iff it is the smallest int64 |
| Expansion.PassReplacesLast | internal/server/trap_ssh_unix_semantics.go:631-660 | one pass replaces the last expression by its value and keeps what is before and after it |
| Expansion.ExpansionReplacesExactly | internal/server/trap_ssh_unix_semantics.go:599-663 | on a line woven from text and closed, unnested expressions the last twelve become their values, 0 where evaluation fails, and nothing else changes |
| Expansion.OpensExactlyWhen | internal/server/trap_ssh_unix_semantics.go:601-630 | an expression may open at `$((` iff an even number of backslashes stands right before it and an even number of unescaped single quotes before it; double quotes make no difference |
| Expansion.UnopenedIsKept | internal/server/trap_ssh_unix_semantics.go:601-633 | a line in which none may open is left as it is |
| Expansion.SingleQuotesProtect | internal/server/trap_ssh_unix_semantics.go:609-618 | whatever stands between single quotes is left as it is |
| Expansion.BackslashProtects | internal/server/trap_ssh_unix_semantics.go:605-608 | so is an expression right behind a backslash |
| Expansion.DoubleQuotesDoNotProtect | internal/server/trap_ssh_unix_semantics.go:619-629 | between double quotes it is replaced by its value |
| Expansion.UnclosedIsKept | internal/server/trap_ssh_unix_semantics.go:634-654 | if the last expression is not closed the line is left as it is, the expressions before it included |
| Nesting.TreeIsFlattened | internal/server/trap_ssh_unix_semantics.go:599-663 | wherever a tree of nested expressions stands in a line, as many passes as it holds expressions turn it into the same tree with every nested one replaced by its value |
| Nesting.FlatIsWorth | internal/server/trap_ssh_unix_semantics.go:656-660 | the evaluator finds in the flattened text the value given to the tree by its structure, and 0 is written if that has none or the text is too long |
| Nesting.NestedIsReplacedInsideOut | internal/server/trap_ssh_unix_semantics.go:599-663 | a line with one expression that holds up to eleven others, at any depth, comes out with that expression replaced by its value and nothing else changed |
| Nesting.NestingIsGrouping | internal/server/trap_ssh_unix_semantics.go:599-663 | if every nested expression is short enough and has a value other than the smallest int64, the whole is worth what it is worth with parentheses in their place |
| Nesting.SmallestIntIsComputed | internal/server/trap_ssh_unix_semantics.go:589-597 | `-9223372036854775807-1` evaluates to the smallest int64 |
| Nesting.SmallestIntIsLost | internal/server/trap_ssh_unix_semantics.go:599-663 | the line `$(($((-9223372036854775807-1))+0))` expands to `0` |
| Words.VirtualWords | internal/server/trap_ssh_shell.go:938-994 | returns the non-empty fields of the byte stream that the trimmed line stands for |
| Words.NextVirtualShellWord | internal/server/trap_ssh_unix_semantics.go:41-97 | returns the next word, where it starts and where it ends, and makes progress |
| Words.AllWordsAreFields | internal/server/trap_ssh_unix_semantics.go:41-97 | taking words one at a time and dropping the empty ones gives the fields of the same stream with CR and LF as separators |
| Words.ScannersAgreeExactlyWhen | internal/server/trap_ssh_shell.go:938-994 | on a trimmed line the two scanners agree iff no CR or LF is crossed outside quotes and escapes |
| Words.ScannersDisagree | internal/server/trap_ssh_shell.go:986-990 | on `a`, line feed, `b` they do not |
| Words.QuotedWordsReadBack | internal/server/trap_ssh_unix_semantics.go:41-97 | single-quoting non-empty, quote-free words and joining them with blanks is undone by both scanners |
| Quoting.MixedWordsReadBack | internal/server/trap_ssh_unix_semantics.go:41-97 | words put together from plain, escaped, single-quoted and double-quoted pieces are read back by both scanners as what the pieces mean |
| Quoting.BackslashInDoubleQuotes | internal/server/trap_ssh_shell.go:958-973 | between double quotes a backslash before a byte other than the dollar, backquote, quote, backslash and line feed stands for itself |
| Environment.VirtualCommandEnvPrefix | internal/server/trap_ssh_unix_semantics.go:18-39 | peels the longest run of leading assignments and returns the trimmed tail, or the untouched line if there are none |
| Environment.LeadingWords | internal/server/trap_ssh_unix_semantics.go:18-39 | the words of a line are the peeled assignments followed by the words found behind them |
| Environment.AssignmentExactlyWhen | internal/server/trap_ssh_unix_semantics.go:29-36 | a word is an assignment iff it is a name, an equals sign and a value, the name of letters, digits and underscores not starting with a digit |
| Environment.NoEqualsNoAssignment | internal/server/trap_ssh_unix_semantics.go:29-36 | a word without an equals sign is none |
| Environment.RestHoldsTheOtherWordsExactlyWhen | internal/server/trap_ssh_shell.go:1167-1186 | for a trimmed line, scanning the returned command gives exactly the words not peeled iff it does not start with white space that separates nothing |
| Environment.VerticalTabIsLost | internal/server/trap_ssh_unix_semantics.go:34 | `A=1`, blank, vertical tab, `ls` is such a line |
| Environment.World.ApplyTemporaryEnv | internal/server/trap_ssh_unix_semantics.go:99-111 | assignments take effect in order, each value expanded where it stands, and the prior value of every name is saved once |
| Environment.CommandSees | internal/server/trap_ssh_unix_semantics.go:99-111 | the command sees the last value given to a name, expanded where the earlier assignments had taken effect |
| Environment.CommandSeesTheRest | internal/server/trap_ssh_unix_semantics.go:99-111 | and every other name as it was |
| Environment.World.Restore | internal/server/trap_ssh_unix_semantics.go:112-120 | puts the saved names back in any order and touches no other |
| Environment.RestoreBringsBackWhatWasFound | internal/server/trap_ssh_unix_semantics.go:112-120 | restoring brings each assigned name back to what it was right before its first assignment, and leaves the rest as the command left it |
| Environment.RestoreUndoesApplyExactlyWhen | internal/server/trap_ssh_unix_semantics.go:99-121 | restoring after applying any list, repeated names included, gives the exact prior map iff every name stood, right before it was first assigned or at the end if it never was, for what it stood for at first |
| Environment.ContainedIsUndone | internal/server/trap_ssh_unix_semantics.go:99-121 | expansions that change only names assigned by then, or nothing, are always undone |
| Environment.OneLeakIsNotUndone | internal/server/trap_ssh_unix_semantics.go:99-121 | if all expansions but one change only names assigned by then, the prior map comes back iff that one does so too |
| Environment.SubstitutionLeaks | internal/server/trap_ssh_unix_semantics.go:123-171 | after `env A='$(B=1)' true` A is as before, and B stays set |
| Split.SplitOutsideQuotes | internal/server/trap_ssh_shell.go:884-936 | for any bytes, the pieces are the encodings of rune strings that join back to the runes of the line, hold no cut inside, and each but the last ends where the scanner cuts |
| Split.ByteSplitIsUnique | internal/server/trap_ssh_shell.go:884-936 | no other list of byte strings has these properties |
| Split.JoinsBackExactlyWhen | internal/server/trap_ssh_shell.go:890-932 | the pieces join back to the line's runes encoded again, and so to the line iff it is valid UTF-8 |
| Split.InvalidByteIsRewritten | internal/server/trap_ssh_shell.go:890-932 | the line of the one byte 0xFF becomes the three bytes of U+FFFD |
| Split.PiecesSplitToThemselves | internal/server/trap_ssh_shell.go:884-936 | splitting a piece again gives that piece alone |
| Pieces.WrittenPiecesAreCut | internal/server/trap_ssh_shell.go:884-936 | pieces of plain text, escapes, text in either quote and text in brackets, joined by a delimiter, are cut into exactly those pieces |
| Split.OrdinaryCutsAtStart | internal/server/trap_ssh_shell.go:927-931 | a cut at an ordinary delimiter happens in the scanner's initial state |
| Chain.Splitter.Run | internal/server/trap_ssh_shell.go:551-651 | the byte loop computes the parts the scan function gives |
| Chain.Splitter.ScanByte | internal/server/trap_ssh_shell.go:551-650 | one round keeps the piece, the scanner state and what is still to come in step |
| Chain.Splitter.ScanTop | internal/server/trap_ssh_shell.go:592-648 | the same outside quotes and brackets: which of blank, operator, word byte or other byte is met |
| Chain.Splitter.ScanOperator | internal/server/trap_ssh_shell.go:598-640 | inside a compound command the operator is kept, outside it cuts, and `&` marks the last command as background |
| Chain.Splitter.FlushPiece | internal/server/trap_ssh_shell.go:542-550 | a piece with text becomes a part with the pending operator; an empty one leaves the operator pending |
| Chain.Splitter.ProcessWord | internal/server/trap_ssh_shell.go:518-541 | the keywords open and close compound commands and never below zero |
| Chain.SplitVirtualChain | internal/server/trap_ssh_shell.go:510-653 | the whole splitter is the scan function |
| Chain.PrintedListSplitsBack | internal/server/trap_ssh_shell.go:510-653 | neutral commands joined by `;`, `&`, `&&` and `\|\|` are read back in order, trimmed, each with its operator and background mark |
| Chain.EmptyPiecesAreSkipped | internal/server/trap_ssh_shell.go:542-550 | empty pieces among them are left out: a command stands under the operator right behind the command before it, and any `&` before the next command marks it as background |
| Compound.CompoundIsNeutral | internal/server/trap_ssh_shell.go:518-541 | text from `for`, `while` or `until` to `done`, from `if` to `fi` or from `case` to `esac`, nested in any way, is not cut and leaves nothing open |
| Compound.CompoundListSplitsBack | internal/server/trap_ssh_shell.go:510-653 | a list of commands with compound commands in them is read back command by command, whatever operators stand inside those |
| Compound.OrdinaryTextIsSilent | internal/server/trap_ssh_shell.go:518-541 | words other than the eight keywords open and close nothing, with any byte behind them |
| Compound.OperatorFreeIsUncut | internal/server/trap_ssh_shell.go:598-640 | text without `;`, doubled `&` and doubled bar, with `&` only beside `>` or behind `<`, is not cut |
| Compound.CompoundIsOnePart | internal/server/trap_ssh_shell.go:510-653 | a command, `; ` and a compound command with any ordinary text as header and body come out as exactly these two parts |
| Keywords.CutExactlyWhen | internal/server/trap_ssh_shell.go:518-653 | behind text made of letters, escapes, quotes, brackets and other bytes an operator cuts iff the words in it close every compound command they open; quoted and bracketed text is no part of a word, an escaped character is |
| Chain.PiecesRebuildTheLine | internal/server/trap_ssh_shell.go:551-652 | every line is its pieces and operators byte for byte, and its parts are what flushing those pieces gives |
| Script.CommandIsNeutral | internal/server/trap_ssh_shell.go:551-591 | a command of single-quoted words meets no operator and leaves the splitter in its initial state |
| Script.ScriptReadsBack | internal/server/trap_ssh_shell.go:510-653 | a script of quoted words, split and then scanned by either scanner, gives back every command's words, operator and background mark |
| Script.SeparatorIsSeenExactlyWhen | internal/server/trap_ssh_shell.go:551-640 | each of the four operators, right behind a single-quoted word, anywhere in a line and behind anything that leaves the splitter in its initial state, is seen iff the word does not end in an unpaired backslash |
| Script.BackslashHidesSeparator | internal/server/trap_ssh_shell.go:561-565 | behind the quoted word `a\` no operator is seen |
| AndOr.ExecuteParts | internal/server/trap_ssh_shell.go:406-491 | the loop with one last status is the fold over the parts, stopping where a command ends the line |
| AndOr.OneMorePart | internal/server/trap_ssh_shell.go:406-491 | one more part is skipped if the line has ended, if it is empty, behind `&&` after a failure and behind a double bar after a success; otherwise it runs, trimmed, on the world left by the last command |
| AndOr.InputGoesWhere | internal/server/trap_ssh_shell.go:425-431 | the first command of a line gets the initial input, and of the others those that want input |
| AndOr.ParseKeepsParts | internal/server/trap_ssh_shell.go:411-424 | the left-associative trees hold exactly the parts, in order |
| AndOr.ParseKeepsOperators | internal/server/trap_ssh_shell.go:416-421 | each part sits in its tree under the operator written before it |
| AndOr.FlatLoopIsAndOrLists | internal/server/trap_ssh_shell.go:411-491 | the loop runs the same commands with the same inputs in the same order, to the same world and status, as the AND-OR lists of section 2.9.3 of the POSIX Shell Command Language |
| AndOr.PartsFit | internal/server/trap_ssh_shell.go:542-550 | the splitter never yields an empty command, and nothing conditional comes first |
| AndOr.ChainMeansAndOrLists | internal/server/trap_ssh_shell.go:406-491 | so every line means its AND-OR lists |
| Utf8.EncodesBackExactlyWhen | internal/server/trap_ssh_editor.go:65-72 | bytes survive the conversion to runes and back iff they are valid UTF-8 |
| Utf8.EncodedReadsBack | internal/server/trap_ssh_editor.go:65-72 | any runes survive the conversion to bytes and back, and those bytes are valid |
| Utf8.JoinedRunes | internal/server/trap_ssh_editor.go:98-105 | two byte strings joined have the runes of both, but for a character that the first begins and the second finishes |
| Utf8.LimitVirtualContent | internal/server/trap_ssh_shell.go:2466-2475 | the shrinking loop is the limit function |
| Utf8.LimitMeaning | internal/server/trap_ssh_shell.go:2466-2475 | over-long content becomes the longest valid prefix of its first 16384 bytes under section 4 of RFC 3629 |
| Utf8.AtMostThreeBytesLost | internal/server/trap_ssh_shell.go:2466-2475 | valid text loses at most three bytes below the limit |
| WhiteSpace.WhiteSpaceIsTrimmed | internal/server/trap_ssh_shell.go:542-550 | a character in front of a text or behind it is trimmed iff it has the Unicode property White_Space, and then with all its bytes |
| FileSystem.VirtualWorld.StorageBytes | internal/server/trap_ssh_shell.go:2451-2457 | the loop, in any key order, is the sum of all contents |
| FileSystem.VirtualWorld.CanStoreVirtualContent | internal/server/trap_ssh_shell.go:2445-2449 | says whether replacing the target's content keeps the total within its limit |
| FileSystem.VirtualWorld.SetVirtualDir | internal/server/trap_ssh_shell.go:2390-2399 | adds the directory unless it is there or the limit is reached |
| FileSystem.VirtualWorld.SetVirtualFile | internal/server/trap_ssh_shell.go:2401-2420 | stores the limited content, the full size and a default mode, or refuses and changes nothing |
| FileSystem.VirtualWorld.AppendVirtualFile | internal/server/trap_ssh_shell.go:2422-2443 | is setting the file to its old content and the new one |
| FileSystem.AcceptedExactlyWhen | internal/server/trap_ssh_shell.go:2401-2449 | a write is accepted iff the file is not immutable, there is room for it among 512 files, and the total stays within 524288 bytes; an append is a write of the old content followed by the new |
| FileSystem.AppendsJoin | internal/server/trap_ssh_shell.go:2422-2443 | within the limit two appends are one append of both contents in that order |
| FileSystem.VirtualWorld.DeleteVirtualFile | internal/server/trap_ssh_shell.go:2459-2464 | removes the path from all four maps and nothing else |
| FileSystem.VirtualWorld.RenameVirtualFile | internal/server/trap_ssh_sftp.go:428-441 | writes the target, copies the attributes, deletes the source, or changes nothing |
| FileSystem.VirtualWorld.MoveVirtualFile | internal/server/trap_ssh_shell.go:1738-1754 | writes the target and deletes the source, or changes nothing |
| Maps.SumWithout | internal/server/trap_ssh_shell.go:2451-2457 | a sum over a map does not depend on the order in which it is walked |
| FileSystem.SetStaysWithin | internal/server/trap_ssh_shell.go:2401-2449 | a write keeps every limit and keeps files and metadata in step |
| FileSystem.RenameStaysWithin | internal/server/trap_ssh_sftp.go:428-441 | so does a rename, the same path included |
| FileSystem.RunStaysWithin | internal/server/trap_ssh_shell.go:2390-2464 | after any sequence of operations: at most 512 files, 256 directories, 16384 bytes a file, 524288 in total, equal key sets |
| FileSystem.RefusedChangesNothing | internal/server/trap_ssh_shell.go:2401-2443 | an operation that reports failure left everything as it was |
| FileSystem.RefusalsLeaveNoTrace | internal/server/trap_ssh_shell.go:2390-2464 | a run ends in the same state without the operations that were refused in it |
| FileSystem.RenameKeepsContentExactlyWhen | internal/server/trap_ssh_sftp.go:428-441 | a successful rename keeps the content under the new name iff the names differ, and then nothing else changes |
| FileSystem.MoveKeepsContentExactlyWhen | internal/server/trap_ssh_shell.go:1738-1754 | the same for `mv` |
| FileSystem.MovedExactlyWhen | internal/server/trap_ssh_sftp.go:428-441 | a move is accepted iff there is such a file and the target accepts its content; the SFTP rename takes a generated file by its content |
| FileSystem.OntoItselfDeletes | internal/server/trap_ssh_sftp.go:428-441 | renaming the only file onto itself succeeds and leaves no file |
| Sftp.VirtualSFTPHandle.constructor | internal/server/trap_ssh_sftp.go:275-278 | a handle starts with the content read, its size, and an empty hash |
| Sftp.VirtualSFTPHandle.WriteWindow | internal/server/trap_ssh_sftp.go:310-325 | grows with zeros and copies within the 16384-byte window |
| Sftp.VirtualSFTPHandle.Write | internal/server/trap_ssh_sftp.go:305-333 | refuses an end above 64 MiB and changes nothing, panics on a non-empty write whose offset turns negative, and otherwise updates window, size and running hash |
| Sftp.AcceptedExactlyWhen | internal/server/trap_ssh_sftp.go:305-323 | a write is accepted iff it ends within 64 MiB or at 2^63 or beyond, or is empty at an offset that turns negative |
| Sftp.FarWriteIsDropped | internal/server/trap_ssh_sftp.go:305-333 | one byte at offset 2^63 - 1 is accepted and changes nothing |
| Sftp.VirtualSFTPHandle.Close | internal/server/trap_ssh_sftp.go:378-391 | stores the window and records the full size, or stores nothing |
| Sftp.BufferIsSparseFile | internal/server/trap_ssh_sftp.go:305-333 | for writes in any order every byte of the window is the byte of the last accepted write that covers it |
| Sftp.ReportedHashIsOfStoredExactlyWhen | internal/server/trap_ssh_sftp.go:326-397 | in terms of the writes alone: the reported hash is that of the stored bytes iff the writes in order do not reach to the end of the file, or the file fits the window and every byte they brought is the one the last accepted write over it left |
| Sftp.RewriteKeepsOldHash | internal/server/trap_ssh_sftp.go:326-397 | of two bytes written at offset 0 the second is stored and the hash of the first reported |
| Sftp.ChunkingDoesNotMatter | internal/server/trap_ssh_sftp.go:305-333 | after a sequential upload window, size and hashed bytes depend on the content alone |
| Sftp.UploadIsStored | internal/server/trap_ssh_sftp.go:378-397 | closing such an upload reports the hash of the whole content and stores its first 16384 bytes with its full size |
| Sftp.PutString | internal/server/trap_ssh_sftp.go:87-97 | appends a big-endian length and the bytes |
| Sftp.GetU32 | internal/server/trap_ssh_sftp.go:99-106 | succeeds iff four bytes are left and returns the number that is written as them |
| Sftp.GetU64 | internal/server/trap_ssh_sftp.go:107-114 | the same for eight bytes |
| Sftp.GetString | internal/server/trap_ssh_sftp.go:115-123 | succeeds iff some field stands at the offset, and then reads that field |
| Sftp.StringReadsBack | internal/server/trap_ssh_sftp.go:97-123 | a field written in front of anything is the only one that reads back there |
| Sftp.SftpReadPacket | internal/server/trap_ssh_sftp.go:63-75 | takes one packet off the stream, or fails on a bad length or a short stream |
| Sftp.PacketReadsBackExactlyWhen | internal/server/trap_ssh_sftp.go:63-85 | a written packet is read back, leaving the rest, iff its size is 1 to 1048576 |
| Sftp.PacketsReadBack | internal/server/trap_ssh_sftp.go:63-85 | a stream of such packets is read back in order |
| Admission.TrapSSH.TryEnter | internal/server/trap_ssh.go:127-134 | takes a token iff one is free |
| Admission.TrapSSH.AcquireIP | internal/server/trap_ssh.go:153-161 | counts the address up iff it is below its limit |
| Admission.TrapSSH.ReleaseIP | internal/server/trap_ssh.go:163-171 | counts it down and keeps no zero entry |
| Admission.NextKeepsCounts | internal/server/trap_ssh.go:125-171 | every atomic step keeps tokens and counters equal to the connections that hold them |
| Admission.RunKeepsCounts | internal/server/trap_ssh.go:125-171 | so they are after any interleaving, with positive counters below the limit that sum to the connections served |
| Admission.CapsHold | internal/server/trap_ssh.go:125-171 | never more connections than the two caps allow, in total or per address |
| Admission.AdmittedExactlyWhen | internal/server/trap_ssh.go:125-171 | in every run a connection enters iff fewer than the cap hold a token, and is served iff fewer than the limit from its address are; it touches no other connection |
| Admission.ArrivalIsRecorded | internal/server/trap_ssh.go:125-134 | an arrival changes nothing else |
| Admission.NothingLeaks | internal/server/trap_ssh.go:125-171 | when all connections have ended both resources are empty |
| RealityCache.TrapSSH.SharedRealityForSource | internal/server/trap_ssh.go:318-354 | one visit expires, reuses or evicts exactly as `Serves` says, in any iteration order, and extends the recorded run |
| RealityCache.TrapSSH.ExpireOld | internal/server/trap_ssh.go:329-333 | drops exactly the entries not seen for more than 24 hours |
| RealityCache.TrapSSH.EvictOldest | internal/server/trap_ssh.go:340-349 | removes exactly one least-recently-seen source |
| Maps.FindOldest | internal/server/trap_ssh.go:340-346 | the scan finds an entry seen no later than any other, in any iteration order |
| RealityCache.VisitMirrors | internal/server/trap_ssh.go:318-354 | one visit keeps the cache equal to what the history says |
| RealityCache.CacheMirrorsHistory | internal/server/trap_ssh.go:318-354 | in every run with an increasing clock the cache holds exactly the sources seen within 24 hours after whom fewer than 128 others came, and at most 128 |
| RealityCache.EvictedIsForgotten | internal/server/trap_ssh.go:339-350 | whoever is evicted has had 128 other sources after it |
| RealityCache.SurvivesExactlyWhen | internal/server/trap_ssh.go:318-354 | a returning source gets its machine back iff at most 24 hours passed and fewer than 128 distinct others came between; otherwise it gets one nobody had |
| Realtime.Subscriber.TrySend | internal/store/realtime.go:13-24 | sends without blocking, never beyond 128, never on a closed channel |
| Realtime.Subscriber.Offered | internal/store/realtime.go:12-24 | one subscriber's turn: the marker first if it missed something, else the message, and the flag follows |
| Realtime.Store.PublishRealtimeLocked | internal/store/realtime.go:10-26 | offers the message once to each subscriber, in any order, and keeps every stream without silent gap |
| Realtime.Store.SubscribeRealtime | internal/store/realtime.go:28-46 | adds a subscriber with an empty stream, or counts a rejection at 24 |
| Realtime.Store.Cancel | internal/store/realtime.go:38-45 | removes and closes once; a second call does nothing |
| Realtime.OfferKeepsNoGap | internal/store/realtime.go:10-26 | one publication keeps the absence of silent gaps and the capacity |
| Realtime.MissedExactlyWhen | internal/store/realtime.go:10-26 | in every run the flag is up iff the last publication met a channel with 128 items |
| Realtime.PublicationIsTold | internal/store/realtime.go:10-26 | in every run a publication that finds room adds one item: the marker with its time iff the publication before it met a full channel, and the update otherwise |
| Realtime.FallenBehindIsTold | internal/store/realtime.go:13-20 | a subscriber that lost any number of updates is sent the marker by the first publication after a receive |
| Realtime.ReceiveTakesTheOldest | internal/store/realtime.go:28-46 | a receive takes the oldest item and changes nothing else |
| Realtime.NoSilentGap | internal/store/realtime.go:10-26 | after any interleaving of publications and receives every item is placed: an update right after its predecessor's publication, a marker at least two further |
| Realtime.NeighboursAreConsecutive | internal/store/realtime.go:10-26 | two updates side by side are consecutive publications |
| Realtime.GapsAreAccounted | internal/store/realtime.go:10-26 | every marker stands for at least two publications not delivered |
| Realtime.LosslessExactlyWhen | internal/store/realtime.go:10-26 | the stream equals the log iff no publication met a full channel |
| Story.WebStoryState.ProfileOf | internal/engine/deception_story.go:64-82 | finds or creates the profile, and above 2048 drops one with the oldest last-seen time |
| Story.WebStoryState.PruneOldestLocked | internal/engine/deception_story.go:84-95 | removes exactly one oldest profile, in any iteration order |
| Story.WebStoryState.Gates | internal/engine/deception_story.go:742-850 | decides, in the source's order, whether the response becomes a miss and with what status it is served |
| Story.WebStoryState.Learn | internal/engine/deception_story.go:858-880 | adds the evidence and locks or proposes as the scores say, for some highest score |
| Story.WebStoryState.FindBest | internal/engine/deception_story.go:861-866 | finds a highest score, in any iteration order |
| Story.WebStoryState.FinalizeWebStoryResponse | internal/engine/deception_story.go:714-896 | one request changes its own profile as `Serves` says, no other profile, and drops at most one oldest |
| Story.ServedExactlyWhen | internal/engine/deception_story.go:742-850 | a response is served iff its candidate is the locked technology, or `php` or `generic-php` under `wordpress`, or nothing is locked, its cloud is the one set, and every gate that applies to its status is open |
| Story.EvidenceGrows | internal/engine/deception_story.go:858-860 | a served response adds its weight to its candidate, and three more if a story link was followed |
| Story.LockPicksTheCandidate | internal/engine/deception_story.go:867-874 | a profile that becomes locked locks the candidate of that very response |
| Story.LocksExactlyWhen | internal/engine/deception_story.go:858-883 | a request locks iff it is served with a candidate and either succeeds with weight 3 or lifts the candidate's score to 5; it sets the cloud iff none was set and it succeeds |
| Story.GuessesExactlyWhen | internal/engine/deception_story.go:875-879 | short of a lock a highest score of 3 or 4 makes one of its technologies the guess, and nothing else changes the guess |
| Story.PrunesExactlyWhen | internal/engine/deception_story.go:64-95 | a call for a new target drops a profile iff 2048 are kept, one seen no later than any other |
| Story.SessionStartsTheStory | internal/engine/deception_story.go:64-82 | the first call for a target starts from what its session remembers |
| Story.OrderNeverDecidesALock | internal/engine/deception_story.go:861-879 | two walks over the same evidence agree on whether and what to lock |
| Story.MissLearnsNothing | internal/engine/deception_story.go:742-850 | a response that becomes a miss leaves evidence, technology and cloud alone |
| Story.MissesLeaveNoTrace | internal/engine/deception_story.go:742-883 | a run with one missed request dropped is a run with the same other replies and profiles, up to the time last seen |
| Story.StepKeepsStory | internal/engine/deception_story.go:742-883 | one request keeps a lock and a cloud, loses no evidence, and under a lock serves a candidate only if it is the locked technology, or `php` or `generic-php` under `wordpress`, or the locked name is empty |
| Story.StoreStepKeepsStory | internal/engine/deception_story.go:64-896 | the same for one call to the store and every profile that is retained |
| Story.StoreRunKeepsStory | internal/engine/deception_story.go:64-896 | over runs of the whole store, with several targets and pruning: while a target's profile is retained, its lock and its cloud stay and only candidates that fit the lock, named as above, and responses of that cloud are served |
| Story.RunKeepsStory | internal/engine/deception_story.go:714-896 | from any moment of a run on, a locked technology and a set cloud stay, only candidates that fit them are served, and unlocked scores stay below 5 |
| Exposure.StoryBudgetAllows | internal/engine/deception_story.go:549-573 | allows a path iff there is a profile and the path is among those shown under the budget, with the empty and the full budget as they are |
| Exposure.PickIsLinear | internal/engine/deception_story.go:564-571 | pick k lies k strides after the first, modulo the list |
| Exposure.PicksMeet | internal/engine/deception_story.go:564-571 | two picks coincide iff the strides between them cross the list a whole number of times |
| Exposure.NoReturnExactlyWhen | internal/engine/deception_story.go:564-571 | the first m picks are all different iff m is at most n / gcd(n, stride) |
| Exposure.BudgetIsSpentExactlyWhen | internal/engine/deception_story.go:549-573 | a budget m < n shows 1 to m distinct candidates, exactly m iff m is at most n / gcd(n, stride), and always two when m is 2 |
| Exposure.ExactlyTwoClasses | internal/engine/deception_story.go:370-380 | every target shows exactly two of the five sensitive classes, given by a formula of the seed, and whatever has no class |
| Exposure.AliasIsOfNoOtherFamily | internal/engine/deception_story.go:434-439 | none of the seven name tests for other credential families holds of any of the ten cloud aliases |
| Exposure.ExactlyTwoAliases | internal/engine/deception_story.go:416-441 | every target shows exactly two of the ten cloud aliases |
| Exposure.AliasesByNumber | internal/engine/deception_story.go:424-432 | which two, as a formula of the seed |
| Exposure.OtherFamiliesAreShown | internal/engine/deception_story.go:434-439 | a path of another credential family is shown whatever the seed |
| LineReader.VirtualSSHLineReader.HandleKey | internal/server/trap_ssh_terminal.go:76-331 | one key changes text, cursor, history position, draft, kill and search as the key function says |
| LineReader.VirtualSSHLineReader.MoveCursor | internal/server/trap_ssh_terminal.go:94-120 | the movement keys |
| LineReader.VirtualSSHLineReader.Edit | internal/server/trap_ssh_terminal.go:194-208 | inserting, deleting and yanking, within the maximum |
| LineReader.VirtualSSHLineReader.Kill | internal/server/trap_ssh_terminal.go:121-193 | the four kills, which keep the old kill when there is nothing to kill |
| LineReader.VirtualSSHLineReader.HistoryPrevious | internal/server/trap_ssh_terminal.go:250-260 | keeps the typed text as draft and goes one entry back |
| LineReader.VirtualSSHLineReader.HistoryNext | internal/server/trap_ssh_terminal.go:261-270 | goes one entry forward and back to the draft at the end |
| LineReader.VirtualSSHLineReader.SearchBack | internal/server/trap_ssh_terminal.go:153-172 | finds the newest older entry that contains the query |
| LineReader.VirtualSSHLineReader.FindWord | internal/server/trap_ssh_terminal.go:443-450 | finds the bounds of the word the cursor is in or behind |
| LineReader.VirtualSSHLineReader.CompleteWith | internal/server/trap_ssh_terminal.go:209-243 | replaces that word by the one match, or by a common prefix of more bytes than the word |
| LineReader.PreviousWordBoundary | internal/server/trap_ssh_terminal.go:393-401 | back over white space, then over the word before it |
| LineReader.NextWordBoundary | internal/server/trap_ssh_terminal.go:403-411 | forward over the word, then over white space |
| LineReader.TypingAtTheCursor | internal/server/trap_ssh_terminal.go:194-208 | typing and yanking write at the cursor, between the text before and behind it, within the maximum |
| LineReader.DeletingAtTheCursor | internal/server/trap_ssh_terminal.go:105-208 | Backspace takes the rune before the cursor, Delete the one behind it |
| LineReader.MovingTheCursor | internal/server/trap_ssh_terminal.go:94-120 | the movement keys move runes from one side of the cursor to the other |
| LineReader.KillingAtTheCursor | internal/server/trap_ssh_terminal.go:121-179 | Ctrl+K kills what is behind the cursor, Ctrl+U what is before it |
| LineReader.WordKeysBack | internal/server/trap_ssh_terminal.go:180-192 | the backward word keys take one word and the white space behind it |
| LineReader.WordKeysForward | internal/server/trap_ssh_terminal.go:292-305 | the forward ones a word and the white space behind it |
| LineReader.OneMatchCompletes | internal/server/trap_ssh_terminal.go:209-243 | one match replaces the word around the cursor, with a blank behind it at the end of the line unless it is a directory |
| LineReader.ManyMatchesComplete | internal/server/trap_ssh_terminal.go:209-243 | several matches replace it by what they share, if that is more bytes |
| LineReader.UpsShowHistory | internal/server/trap_ssh_terminal.go:250-260 | the n-th Up shows the n-th entry from the end of history, and stays on the first |
| LineReader.DownShowsNext | internal/server/trap_ssh_terminal.go:261-270 | each Down shows the entry after, and behind the last one the typed text |
| LineReader.CommonPrefixIsLongest | internal/server/trap_ssh_terminal.go:501-512 | what several matches complete to is the longest prefix of bytes they share |
| LineReader.RunStaysInBounds | internal/server/trap_ssh_terminal.go:76-331 | after every key of a session cursor and history index are in range, and without completion the text fits the maximum |
| LineReader.UpsThenDownsRestore | internal/server/trap_ssh_terminal.go:250-270 | any number of Ups and as many Downs restore the typed text |
| LineReader.KillThenYankRestoresExactlyWhen | internal/server/trap_ssh_terminal.go:121-202 | killing and yanking restores the text iff something was killed and it fitted, or nothing was killed and nothing could be yanked |
| LineReader.OlderKillIsYanked | internal/server/trap_ssh_terminal.go:121-202 | with nothing to kill, Ctrl+K and Ctrl+Y insert an older kill |
| LineReader.MatchesMeaning | internal/server/trap_ssh_terminal.go:159-165 | the list of matches is complete, strictly descending and holds nothing else |
| LineReader.ReverseSearchVisitsTheMatches | internal/server/trap_ssh_terminal.go:153-172 | pressing Ctrl+R j times stands on the j-th match and stays on the oldest |
| TextBuffer.VirtualTextBuffer.ClampCursor | internal/server/trap_ssh_editor.go:46-63 | brings the cursor into the text |
| TextBuffer.VirtualTextBuffer.DoInsertRune | internal/server/trap_ssh_editor.go:65-72 | decodes the line, inserts the rune at the cursor and encodes it again |
| TextBuffer.VirtualTextBuffer.DoNewline | internal/server/trap_ssh_editor.go:74-85 | splits the runes of the line at the cursor and encodes both parts |
| TextBuffer.VirtualTextBuffer.DoBackspace | internal/server/trap_ssh_editor.go:87-106 | removes the rune before the cursor and encodes the rest, or joins the bytes of two lines |
| TextBuffer.VirtualTextBuffer.DoDeleteLine | internal/server/trap_ssh_editor.go:118-129 | yanks and removes the line, leaving at least one |
| TextBuffer.VirtualTextBuffer.DoPasteLine | internal/server/trap_ssh_editor.go:131-143 | puts the yanked line below |
| TextBuffer.VirtualTextBuffer.DoRestoreUndo | internal/server/trap_ssh_editor.go:37-44 | swaps the text with the snapshot |
| TextBuffer.VirtualTextBuffer.HandleKey | internal/server/trap_ssh_editor.go:226-439 | one round of a key loop is the edit function, followed by the clamp but for three keys of insert mode |
| TextBuffer.RuneEditsAtTheCursor | internal/server/trap_ssh_editor.go:65-116 | typing, breaking and deleting act between the runes before the cursor and those behind it, and touch no other line |
| TextBuffer.LineEditsAtTheCursor | internal/server/trap_ssh_editor.go:118-143 | cutting takes the line of the cursor, putting and opening place a line right below and right above it |
| TextBuffer.JoinAtTheFront | internal/server/trap_ssh_editor.go:98-105 | Backspace at the front of a line joins its bytes to those above, with the cursor at the seam |
| TextBuffer.ChangesAreMarked | internal/server/trap_ssh_editor.go:37-143 | a key that changes the text marks it modified, nothing takes the mark back, and only cutting and copying fill the yank |
| TextBuffer.JumpsToTheNearest | internal/server/trap_ssh_editor.go:46-63 | a jump ends at the place in the text nearest to its goal |
| TextBuffer.HandleStaysInBoundsExactlyWhen | internal/server/trap_ssh_editor.go:232-281 | a round leaves the cursor in the text iff it is not a join of insert mode whose seam swallows too many runes |
| TextBuffer.HandleStaysProper | internal/server/trap_ssh_editor.go:65-143 | no key brings a line break, or bytes that are not UTF-8 where there were none, into a line, the yank or the snapshot |
| TextBuffer.SessionStaysInBoundsExactlyWhen | internal/server/trap_ssh_editor.go:226-439 | the cursor lies in the text at every loop head of a session iff no join of insert mode in it swallows too many runes |
| TextBuffer.SessionStaysProper | internal/server/trap_ssh_editor.go:226-439 | at every loop head of a session from a loaded file no line holds a line break, and valid content has stayed valid |
| TextBuffer.ValidTextStaysInBounds | internal/server/trap_ssh_editor.go:226-439 | in a file of valid UTF-8 the cursor lies in the text at every loop head, whatever is typed |
| TextBuffer.JoinLeavesTheText | internal/server/trap_ssh_editor.go:98-105 | in a file of two lines whose seam swallows too many runes, Backspace at the front of the second does leave the text |
| TextBuffer.SeamCharacter | internal/server/trap_ssh_editor.go:98-105 | the lines 0xE2 0x82 and 0xAC are such |
| TextBuffer.BackspaceRestoresExactlyWhen | internal/server/trap_ssh_editor.go:65-106 | in either editor, Backspace after a typed rune or a new line brings the cursor back and leaves the line at the cursor decoded and encoded again, so the text is restored iff that line is valid UTF-8 |
| TextBuffer.TypingRewritesInvalidBytes | internal/server/trap_ssh_editor.go:65-96 | on the line of the one byte 0xFF they leave U+FFFD |
| TextBuffer.UndoRevertsOneEdit | internal/server/trap_ssh_editor.go:33-44 | one undo restores the lines before any single text-changing edit, and two undos change no line |
| TextBuffer.ContentTerminatesLines | internal/server/trap_ssh_editor.go:145-147 | saved content is every line followed by a line feed |
| TextBuffer.LoadsBackExactlyWhen | internal/server/trap_ssh_editor.go:20-31 | loading saved content gives the same lines iff none holds a CR or LF |
| TextBuffer.EveryLineEndingLoads | internal/server/trap_ssh_editor.go:20-31 | a file is loaded as its lines, whether they end in LF, in CR LF or in CR |
| WsFrame.MaskTwice | internal/server/admin_realtime.go:218-222 | masking is its own inverse |
| WsFrame.XorBit | internal/server/admin_realtime.go:219-221 | masking sets a bit iff it is set in exactly one of the two bytes |
| WsFrame.HelloIsRead | internal/server/admin_realtime.go:176-224 | the masked message of section 5.7 of RFC 6455 is read as `Hello` |
| WsFrame.Unmask | internal/server/admin_realtime.go:219-221 | the in-place loop unmasks every byte with the mask byte of its position |
| WsFrame.DecodeInvertsWire | internal/server/admin_realtime.go:176-224 | any frame laid out as in section 5.2 of RFC 6455 is recovered and nothing after it is touched |
| WsFrame.ReadWebSocketFrame | internal/server/admin_realtime.go:176-224 | reads exactly one acceptable frame, and says which of the errors applies |
| WsFrame.ReadLength | internal/server/admin_realtime.go:189-202 | reads the 7, 16 or 64 bit length |
| WsFrame.AnnouncesExactlyWhen | internal/server/admin_realtime.go:189-205 | a frame is refused as too large iff it has a 64-bit length whose bytes write more than 65536 |
| WsFrame.ReadRefinesDecode | internal/server/admin_realtime.go:176-224 | a client frame in any length form is accepted iff final, masked and at most 65536 bytes, with its opcode and payload |
| WsFrame.FramesReadInSequence | internal/server/admin_realtime.go:176-224 | concatenated frames are read one after the other |
| WsFrame.WriteWebSocketFrame | internal/server/admin_realtime.go:152-174 | writes a final, unmasked frame unless the payload is above the limit |
| WsFrame.WrittenBytes | internal/server/admin_realtime.go:152-174 | the output byte for byte, for each of the three lengths |
| WsFrame.WrittenDecodes | internal/server/admin_realtime.go:152-174 | the output decodes under RFC 6455 to opcode and payload and uses the shortest length form |

## Left out

- Expansion.ExpansionReplacesExactly: speaks of lines in which every opening is closed and every expression completes its quotes and escapes; of other lines Expansion.OpensExactlyWhen, Expansion.UnopenedIsKept and Expansion.UnclosedIsKept say where expressions open and when the line is left alone.
- Nesting.NestedIsReplacedInsideOut: trees are written with the fewest parentheses and without blanks, the innermost expressions being any closed text; a tree of more than twelve expressions is not finished.
- Chain.PrintedListSplitsBack: speaks of commands that meet no operator and leave the scanner outside quotes, brackets and compound commands; which ones do is in Compound.CompoundIsNeutral and Keywords.CutExactlyWhen, and what holds of every line in Chain.PiecesRebuildTheLine.
- Keywords.CutExactlyWhen: speaks of text that meets no operator itself and whose brackets hold no quotes or brackets; operators inside compound commands are in Compound.CompoundListSplitsBack.
- Script.ScriptReadsBack: requires words that do not end in an unpaired backslash, for the reason given by Script.SeparatorIsSeenExactlyWhen.
- AndOr.ExecuteParts: one command is an abstract transformer of the world; what a command does, its output, its scores and the interceptions of `executeWithInput` before the split are not modelled.
- FileSystem.VirtualWorld.SetVirtualFile: paths are taken as resolved and cleaned, and the kind of a file is a function of its path and content.
- FileSystem.RunStaysWithin: speaks of the operations that go through the quota functions. A few places in the source write the maps directly and can exceed the limits: process directories (`trap_ssh_process.go:71`), the `.ssh` directory of a stored key (`trap_ssh_extra.go:50`), command binaries (`trap_ssh_binaries.go:62-67`), the shadow file (`trap_ssh_os_reality.go:647`), and the seeding of a new machine.
- FileSystem.VirtualWorld.RenameVirtualFile: the generated files (`/proc`, `/dev/null`) are a fixed map.
- Sftp.VirtualSFTPHandle.Write: what a panic leaves of the session is not modelled; SHA-256 is represented by the bytes fed to it.
- Sftp.ReportedHashIsOfStoredExactlyWhen: for handles opened on at most 16384 bytes and writes of at most 1 MiB, the most a stored file and a packet can hold.
- The SFTP request loop: handle names, status replies, reads, listings and payload classification.
- Admission: addresses are strings as given; the tarpit semaphore is not modelled.
- RealityCache.CacheMirrorsHistory: requires a strictly increasing clock, as equal times leave the victim to map order.
- Realtime.NoSilentGap: one subscriber's turn in a publication is a single step, so a receive may fall between publications but not between the two halves of a turn.
- Story.WebStoryState.FinalizeWebStoryResponse: the path without a reality provider only; paths, labels and sparsity gates enter as the answers they give, and rewriting bodies, depths and the session's copy of the story is left out. The provider's store is not part of this model.
- Story.WebStoryState.ProfileOf: if last-seen times are equal the profile just created may be the one dropped; it then serves its one request without being kept.
- Exposure.StoryBudgetAllows: mixing the salt's hash into the seed is any function of the seed; the lemmas speak of the seed after it.
- Exposure.AliasIsOfNoOtherFamily: paths are taken as canonical and in lower case.
- LineReader.VirtualSSHLineReader.CompleteWith: the names found are an input. The length after completion is not bounded, as the source does not check it.
- LineReader.VirtualSSHLineReader.HandleKey: decoding escape sequences, Enter, Ctrl+C, end of input, and drawing. History entries are runes: every one went through `cleanSSHCommand` (`trap_ssh.go:729-750`), which writes whole runes.
- TextBuffer.VirtualTextBuffer.HandleKey: decoding keys and modes into edits, searching (which only moves the cursor), saving and drawing. What a key does once the cursor has left the text, a panic or a clamp, is not modelled.
- WsFrame.ReadWebSocketFrame: how many bytes a failing read has consumed; the connection is closed then.
- Termination of the whole interpreter, whose aliases, groups and substitutions call each other under separate limits.
- The command tables and their canned output, regular-expression classifiers, HTML and JSON builders, floating-point scores, sockets, timers, persistence and the admin views.
