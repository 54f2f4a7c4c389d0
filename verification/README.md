# Models of the support library and the copying core

This project models, in Dafny, the parts of the repository whose correctness is least obvious from reading them, and
proves what they promise: the regular-expression engine, the argument scanner and the bounded formatter of the support
library, and four small algorithms with real invariants of the agent and the server.

**The GNU regular-expression engine (`pub/regex.c`)**, for the POSIX extended syntax:

* `Reading.dfy` says what a pattern means: a reader that turns it into an expression (`Regex.dfy`), without bytes.
  The expression can be written out again and gives the pattern back. `Notation.dfy` has expressions as a user thinks of
  them, with a way of writing them and the strings they have, both given independently of the reader; `NotationRead.dfy`
  proves that the reader takes whatever is written so for just those strings, and `ReaderLaws.dfy` which strings intervals
  have, what is read as an ordinary character, and which patterns are refused with which error. `Classes.dfy` relates the
  character classes to each other.
* `RegexCompile.dfy` is `regex_compile` itself: one pass over the pattern, an array that is patched in place and doubled
  when it is full, jumps inserted before finished commands, three bytes left open behind every alternative. `Layout.dfy`
  relates the unfinished buffer to what has been read; at the end it holds exactly the code (`Code.dfy`) of the expression
  the pattern stands for, and each error code is the one the reader gives. `Sizes.dfy` proves that reading on never makes
  the code shorter, so that the size error means what it says. `Boundaries.dfy` proves that in this code every jump lands
  on a command, for loops and intervals over groups as well, `GroupNumbers.dfy` that its group commands are numbered and
  nested like the brackets. Memory comes from an allocator (`Allocation.dfy`) that may refuse any request; the errors for
  lack of room are returned exactly when it has.
* `Machine.dfy` reads compiled code as a nondeterministic machine; `CompilerCorrect.dfy` proves that the machine gets from
  the start to the end of the code over exactly the strings of the expression's language.
* `Matcher.dfy` is `re_match_2`: an explicit failure stack, and a program that rewrites its own loops and counters while it
  runs. `Traces.dfy` describes the search it carries out by its leaves and `Paths.dfy` how they go on from one command to
  the next. `MatchSpec.dfy`, `MatchSteps.dfy` and `IntervalSteps.dfy` prove that every command keeps "leaves met so far
  and leaves still to come are all leaves", for any program an earlier match may have left behind.
* `Fastmap.dfy` and `FastmapSpec.dfy` are `re_compile_fastmap`; `FastmapTight.dfy` proves that its result has no character
  too many. `Search.dfy` is `re_search_2`, `Patterns.dfy` puts
  `regcomp` and `regexec` together: a compiled pattern is found at the first place where one of its strings starts.
* `Longest.dfy` proves that a pattern without a bare `|`, and without the full bracket expressions on which the loop test
  wraps, always reports its longest match.
* `Limits.dfy` collects where the engine falls short of what one would expect: the loop test that wraps, with the exact
  condition on the bracket expression, and the longest match, which, that test apart, only a pattern with a bare `|` can
  miss. `Alternatives.dfy` has the leaves of bare alternatives: whatever the alternatives are, the longest match is missed
  only where the last one is longer than all matches of the others; for a last one without choices exactly there, and for
  words there is a condition on the pattern alone.

**The argument scanner (`pub/getopt.c`)**: `GetoptSpec.dfy` is a scan of the command line from left to right,
`Getopt.dfy` the scanner that spreads it over many calls and permutes the arguments by exchanging blocks in place.
`GetoptLaws.dfy` starts from declared options and from what a user writes with them, in every mixture with ordinary
arguments, and proves that just that is reported.

**The bounded formatter (`pub/snprintf.c`)**: `FormatSpec.dfy` states the layout rules of section 7.19.6.1 of
ISO/IEC 9899:1999 for `d`, `u`, `o`, `x`, `X`, `c` and `s`; `Snprintf.dfy` is `portable_vsnprintf` in its default build,
with its scratch buffer, insertion point and guarded copies. What it makes of a number is the standard's text, and the
buffer holds the beginning of the whole output for every bound, as long as an `int` can count it. `FormatRoundTrip.dfy`
writes specifications out and reads them back, and `FormatLaws.dfy` says what the output of each conversion looks like:
padding, sign, prefix, zeros and digits.

**List variables (`src/2Dlist.c`)**: `Odometer.dfy` is the list whose pointers advance in place like a mileometer, the
peculiar test for its end, and what a caller therefore gets: all combinations in order for some shapes of lists, and
exactly how many for the others; for tied lists, the exact lengths for which the run ends well.

**Sparse copy (`src/copy.c`, `pub/full-write.c`)**: `SparseCopy.dfy`, with a kernel that may read and write less than it
was asked for, fail, and be interrupted.

**Directory listings (`src/cfservd.c`, `src/client.c`)**: `Listing.dfy` packs names into buffers and unpacks them again.

**Admission (`src/cfservd.c`)**: `Admission.dfy` is the thread counter as a system of threads that take steps in any
order; the check against the limit happens outside the lock. That keeps the limit, but connections are turned away early.

Positions in buffers and strings are indices, a null pointer is -1 or an empty string. A byte is a number below 256.

## Model

| member | source | states |
|---|---|---|
| `Bytes.ExtractStore` | pub/regex.c:389-412 | a number survives STORE_NUMBER and EXTRACT_NUMBER exactly when it lies in -32768..32767 |
| `Regex.CollapseRun` | pub/regex.c:1235-1283 | a run of `*`, `+` and `?` stands for the same strings as the one operator with the two collected flags |
| `Code.BitmapMeaning` | pub/regex.c:1375-1515 | the trimmed bitmap of a bracket expression has exactly the bits of the characters and ranges in it, and at most 32 bytes |
| `Code.SetClassMeaning` | pub/regex.c:1492-1507 | a character class adds exactly the bits of its characters |
| `Classes.ClassesAre` | pub/regex.c:1492-1507 | what is in each of the twelve classes |
| `Classes.ClassLaws` | pub/regex.c:1492-1507 | upper and lower case letters are 32 apart; letters, digits and punctuation split the graphic characters, these, the space and control characters split ASCII |
| `Classes.ClassSizes` | pub/regex.c:1492-1507 | how many characters each class has |
| `CompilerCorrect.CodeAccepts` | pub/regex.c:1173-2056 | compiler correctness: the code leads from its start at `i` to its end at `e` exactly when `t[i..e]` is a string of the expression |
| `CompilerCorrect.StepInterval` | pub/regex.c:1832-1886 | the commands of an interval `{m,n}` over one character take exactly `m` to `n` copies of it |
| `WellFormed.ProgramWf` | pub/regex.c:918-933 | the code of a pattern with loops over single characters falls into commands, loops and intervals that lead only to each other or to the end; it ends in a jump only if the last of several alternatives is empty |
| `Boundaries.PatternCommands` | pub/regex.c:918-933 | in the code of every pattern that is read, commands follow each other without gaps and every jump lands on one of them or on the end |
| `GroupNumbers.GroupsNumbered` | pub/regex.c:1595-1697 | in the code of every pattern with at most 255 groups, group starts are numbered 1, 2, 3 and so on from left to right, each end belongs to the group entered last, and both name the number of groups inside |
| `Reading.ReadText` | pub/regex.c:1173-2056 | the expression read from a pattern, written out, is the pattern again |
| `NotationRead.WrittenMeans` | pub/regex.c:1173-2056 | an expression of any size, written out, is read and has exactly the strings meant: characters, quoted ones, `.`, lists with ranges, classes and the special places of `]` and `-`, groups, alternatives, and any mixture of `*`, `+`, `?` and intervals behind an operand |
| `NotationRead.BracesRead` | pub/regex.c:1750-1808 | braces with bounds in order, up to 32767, are read with these bounds and any others are not an interval |
| `NotationRead.ListRead` | pub/regex.c:1355-1530 | a list is read item by item, with `]` first, `-` last and classes where they stand |
| `ReaderLaws.ExactlyTimes` | pub/regex.c:1750-1808 | `c{m}` has just the string of `m` times `c`, for every `m` up to 32767 |
| `ReaderLaws.AtLeastTimes` | pub/regex.c:1750-1808 | `c{m,}` has the strings of `m` to 32767 times `c` |
| `ReaderLaws.BetweenTimes` | pub/regex.c:1750-1808 | `c{m,n}` has the strings of `m` to `n` times `c` |
| `ReaderLaws.BadBounds` | pub/regex.c:1889-1905 | with bounds in the wrong order or above 32767 the whole text stands for itself |
| `ReaderLaws.CloseLiteral` | pub/regex.c:1651-1656 | a closing bracket on the outermost level, behind any alternatives, is an ordinary character |
| `ReaderLaws.OpenReference` | pub/regex.c:1958-1990 | inside `n` nested groups a quoted digit up to `n` is an ordinary character and a higher one an error |
| `ReaderLaws.FinishedReference` | pub/regex.c:1958-1990 | behind `n` finished groups a quoted digit up to `n` refers back, and a higher one is an error |
| `ReaderLaws.Unclosed` | pub/regex.c:2044-2045 | a group that is not closed is refused for its bracket |
| `ReaderLaws.NoClosing` | pub/regex.c:1359-1390 | so is a list that is not closed |
| `ReaderLaws.BadRange` | pub/regex.c:2218-2236 | a range that ends before it starts is refused as a range |
| `ReaderLaws.BadClassName` | pub/regex.c:1451-1482 | an unknown class is refused as a class |
| `ReaderLaws.LastBackslash` | pub/regex.c:1569-1570 | a backslash at the end is refused |
| `Shapes.ReadShaped` | pub/regex.c:2011-2045 | in every expression read, a repetition applies to a single character or a bracketed unit, and no `exactn` outgrows its count byte |
| `Layout.OpenHeadSnoc` | pub/regex.c:1703-1732 | finishing another alternative makes the jump before it lead behind its own jump, and changes nothing else |
| `Layout.CloseAlts` | pub/regex.c:1654-1662 | at the end of the alternatives the last jump leads to the end and the bytes are the code of all alternatives |
| `Layout.LaidAlternative` | pub/regex.c:1703-1732 | inserting a choice before the current alternative keeps every finished jump on its target |
| `Layout.LaidClose` | pub/regex.c:1654-1697 | the bytes and pointers after a closing bracket are those of a finished group inside the alternative around it |
| `Layout.LaidReplace` | pub/regex.c:1319-1344 | putting commands around the last expression leaves the rest of the buffer and all saved pointers right |
| `RegexCompile.Compiler.InsertOp1` | pub/regex.c:2095-2110 | three bytes open up in place: what was before stays, the command, what was behind moves up |
| `RegexCompile.Compiler.InsertOp2` | pub/regex.c:2113-2130 | the same for five bytes |
| `RegexCompile.Compiler.GetBufferSpace` | pub/regex.c:939-972 | doubling keeps the bytes; it fails for size only when more than 65536 bytes are needed |
| `RegexCompile.Compiler.NormalChar` | pub/regex.c:2011-2045 | a character joins the `exactn` before it or starts a new one as the reader says |
| `RegexCompile.Compiler.HandleRepeat` | pub/regex.c:1216-1346 | the run is read and its jumps inserted in place; with nothing to repeat it is ignored |
| `RegexCompile.Compiler.InsertLoop` | pub/regex.c:1286-1344 | the bytes from the last expression on become those of the repeated expression |
| `RegexCompile.Compiler.GetBounds` | pub/regex.c:1750-1808 | the bounds and end of an interval, and exactly when the braces do not make one |
| `RegexCompile.Compiler.InsertInterval` | pub/regex.c:1822-1886 | the bytes from the last expression on become those of the interval |
| `RegexCompile.Compiler.HandleInterval` | pub/regex.c:1740-1905 | a valid interval is compiled, anything else that starts with a brace becomes an ordinary character |
| `RegexCompile.Compiler.CompileRange` | pub/regex.c:2200-2247 | the bits of the range are set, or the range is refused because it is empty or unfinished |
| `RegexCompile.Compiler.HandleBracket` | pub/regex.c:1360-1530 | a bracket expression, with ranges and character classes, becomes a command with its bitmap, or gives the reader's error |
| `RegexCompile.Compiler.HandleOpen` | pub/regex.c:1595-1640 | opening a group saves the pointers and starts an empty alternative |
| `RegexCompile.Compiler.HandleClose` | pub/regex.c:1651-1697 | closing restores them around the finished group; with no group open the bracket is an ordinary character |
| `RegexCompile.Compiler.HandleAlt` | pub/regex.c:1700-1737 | the alternative just read is finished and an empty one starts |
| `RegexCompile.Compiler.HandleBackslash` | pub/regex.c:1958-2003 | quoted characters, and the error for a reference to a group that does not exist |
| `RegexCompile.Compiler.Step` | pub/regex.c:1171-2048 | one turn of the main loop does in the buffer what the reader does to the expression |
| `RegexCompile.Compiler.Run` | pub/regex.c:1171-2068 | a compiled buffer holds exactly the code of the expression the pattern stands for; errors are the reader's; the size error means that the code of what has been read, with at most 35 more bytes, outgrows 65536 |
| `Sizes.NextGrows` | pub/regex.c:1171-2048 | no construct of a pattern makes the code of what has been read shorter |
| `Sizes.OutgrowsAtEnd` | pub/regex.c:939-972 | code that is too long at some moment is too long at the end, when the pattern has no error |
| `Traces.TestWrongIff` | pub/regex.c:4029-4053 | the loop test wrongly finds "no match" exactly for a bracket expression with all 32 bitmap bytes whose bitmap has the next character |
| `Traces.TestPopsIff` | pub/regex.c:4015-4053 | otherwise the test finds "no match" for just the characters the loop's body does not take |
| `Traces.TraceSound` | pub/regex.c:3380-4339 | every end of the pattern the search meets is a real match |
| `Traces.TraceComplete` | pub/regex.c:3983-4098 | rewriting loops so that they throw failure points away loses no match, except for shorter ones |
| `Traces.OutcomeMeaning` | pub/regex.c:3380-3519 | no match is reported exactly when there is none, a reported end is real, and a match of the whole text is always found |
| `Paths.LeavesSame` | pub/regex.c:3380-4339 | what is tried from a place depends only on the code from there on |
| `Traces.LongestIff` | pub/regex.c:3391-3438 | the longest match is reported unless the path tried last, with no failure point left, is longer than every match before it |
| `MatchSteps.PopRuns` | pub/regex.c:4293-4339 | taking a failure point, dummy or not, continues the search where it was left |
| `MatchSteps.DecideRuns` | pub/regex.c:3983-4065 | a loop rewritten either way is a variant of the program as compiled |
| `IntervalSteps.SetRuns` | pub/regex.c:4172-4182 | storing a counter into the program leaves the search where it was |
| `IntervalSteps.SucceedRuns` | pub/regex.c:4134-4154 | counting down required copies, and the failure point once they are taken, keep the leaves still to be met, whatever an earlier path left in the counters |
| `IntervalSteps.JumpNRuns` | pub/regex.c:4156-4170 | so does counting further copies |
| `Matcher.Match2.Exactn` | pub/regex.c:3538-3566 | exactly the characters of the command are taken, or the path is given up |
| `Matcher.Match2.OneCharacter` | pub/regex.c:3568-3610 | `.` and bracket expressions, in loops and intervals as well |
| `Matcher.Match2.OnFailureJump` | pub/regex.c:3940-3980 | both branches stay to be explored |
| `Matcher.Match2.Decide` | pub/regex.c:3983-4065 | maybe_pop_jump rewrites itself as the description of the search says |
| `Matcher.Match2.LoopJump` | pub/regex.c:4071-4098 | pop_failure_jump pops its own loop's failure point or that loop's dummy |
| `Matcher.Match2.SetNumberAt` | pub/regex.c:4172-4182 | the counters of an interval are set in the program |
| `Matcher.Match2.SucceedN` | pub/regex.c:4134-4154 | required copies are counted down, then a way out is remembered |
| `Matcher.Match2.JumpN` | pub/regex.c:4156-4170 | further copies are counted down, up to the upper bound |
| `Matcher.Match2.Backtrack` | pub/regex.c:4293-4339 | a failed path continues at the last failure point that is no dummy |
| `Matcher.Match2.Search` | pub/regex.c:3380-4345 | the matcher returns -2 exactly when a request for memory is refused, otherwise the outcome of the whole search, and it terminates |
| `FastmapSpec.FirstSound` | pub/regex.c:2571-2806 | a match that is not empty begins with a character of the first-character set, an empty one only where the pattern may be empty |
| `FastmapSpec.NullRight` | pub/regex.c:2571-2806 | for a pattern as compiled, "may be empty" means that the empty match exists |
| `FastmapTight.FirstTight` | pub/regex.c:2571-2806 | every character of the first-character set except NUL begins a match, in some text, if every command of the program takes some character |
| `FastmapTight.FastmapExact` | pub/regex.c:2571-2806 | for a program as compiled the set and the flag are exactly the first characters of its matches and the existence of an empty one |
| `Fastmap.Scan.All` | pub/regex.c:2571-2801 | the walk over the program visits all paths up to their first character and terminates, also where it looks at the byte behind the program |
| `Fastmap.ReCompileFastmap` | pub/regex.c:2538-2806 | the fastmap and `can_be_null` are exactly the first characters and the emptiness of the pattern, unless memory was refused |
| `Search.MatchesForeseen` | pub/regex.c:2932-2966 | no place where the pattern matches is skipped by the fastmap |
| `Search.ReMatch2` | pub/regex.c:3331-3368 | matching at a place outside the text fails; otherwise the length of the match, and the buffer stays usable |
| `Search.ReSearch2` | pub/regex.c:2885-2995 | searching with a fastmap, forward or backward, returns what trying every place in turn returns |
| `Patterns.RegComp` | pub/regex.c:4743-4785 | a pattern of the fragment gives a pattern buffer that is ready for matching; the error for lack of memory is given exactly when a request is refused |
| `Patterns.MatchEnd` | pub/regex.c:3380-3519 | where a match ends, in terms of the strings the pattern stands for |
| `Patterns.ReSearch` | pub/regex.c:2885-2995 | the place returned is the first one where a string of the pattern starts, -1 means there is none, and -2 that memory was refused |
| `Patterns.RegExec` | pub/regex.c:4811-4875 | a text matches exactly when one of the pattern's strings occurs in it |
| `Limits.StarThenRightIff` | pub/regex.c:4036-4048 | `[set]*` before characters is matched right in every text exactly when the set's bitmap is shorter than 32 bytes or lacks the next character |
| `Longest.BlockPaths` | pub/regex.c:3380-4339 | every path through a part of the code leaves it at its end, and the last one is given up or is the last one from there |
| `Longest.NodeBehind` | pub/regex.c:3940-4098 | for every expression the path tried last takes least, even compared with paths that start later in the text |
| `Longest.OneAlternative` | pub/regex.c:3380-3438 | in a pattern without a bare alternative the path tried last ends no later than any other |
| `Limits.OneAlternativeLongest` | pub/regex.c:3391-3438 | a pattern without a bare alternative reports its longest match in every text, whatever groups, options, loops and intervals it has |
| `Limits.InBracketsLongest` | pub/regex.c:3391-3438 | any pattern put in brackets stands for the same strings and reports its longest match |
| `Alternatives.EarlyLeaves` | pub/regex.c:3940-3980 | of bare alternatives all but the last are tried before it, and what is met there are their matches |
| `Alternatives.StraightLast` | pub/regex.c:3391-3438 | when the last alternative has no choices, the longest match at a place is missed exactly where that alternative is longer than all matches before it, one at least, and does not reach the end |
| `Limits.LastAlternativeIff` | pub/regex.c:3391-3438 | bare alternatives of any kind report their longest match in every text if the last one never overtakes the others, and only then if it has no choices |
| `Limits.WordsLongestIff` | pub/regex.c:3391-3438 | bare alternatives of characters, any number of them, miss the longest match in some text exactly when an earlier one is a proper beginning of the last, none equals it, and there is a character that, put behind the last, does not give an earlier one |
| `Limits.LongestAlternativeIff` | pub/regex.c:3391-3438 | of two bare alternatives of characters the longest match is always reported exactly when the first is no proper beginning of the second |
| `Limits.ShorterReported` | pub/regex.c:3419-3438 | `a\|ab` on `abc`: one character is reported, two match |
| `Getopt.Getopt.Exchange` | pub/getopt.c:219-273 | the two blocks change places, nothing else moves, the indices describe the ordinary arguments in their new place |
| `Getopt.Getopt.SkipOrdinary` | pub/getopt.c:381-402 | options scanned since the last ordinary arguments move in front of them, further ordinary ones are passed over |
| `Getopt.Getopt.EndOfOptions` | pub/getopt.c:404-421 | `--` counts as an option, everything behind it as ordinary |
| `Getopt.Getopt.Decode` | pub/getopt.c:593-662 | the next option character with its argument, unknown characters and missing arguments |
| `Getopt.Getopt.Next` | pub/getopt.c:360-664 | each call reports the next event of the scan from left to right; the end leaves the arguments permuted and the index at the first ordinary one |
| `Getopt.ScanAll` | pub/getopt.c:360-678 | a whole run: all events in order, then options and other arguments each in their original order |
| `GetoptLaws.PermuteWritten` | pub/getopt.c:312-340 | options written alone, in clusters, with attached or separate arguments, between ordinary arguments, come back in order with just these arguments, and so do the ordinary ones; unknown letters give `?` and the letter, a missing argument `:` exactly if the list starts with a colon |
| `GetoptLaws.InOrderWritten` | pub/getopt.c:436-443 | behind a leading hyphen ordinary arguments are reported in their place with value 1; a missing argument gives `:` only in the first call |
| `GetoptLaws.RequireWritten` | pub/getopt.c:433-440 | where options come first, the first ordinary argument ends them and leaves everything from it on |
| `GetoptLaws.RequireToEnd` | pub/getopt.c:404-431 | and without one they go on to `--` or the end |
| `GetoptLaws.EveryLine` | pub/getopt.c:311-320 | every command line is written so: the laws leave none out |
| `GetoptLaws.Declares` | pub/getopt.c:328-337 | the list of option characters says of each character what was declared for it, the first declaration counting |
| `GetoptSpec.ScanKeepsOrder` | pub/getopt.c:132-157 | every argument ends up in one of the two groups, in its original order |
| `GetoptSpec.RescanDiffers` | pub/getopt.c:132-157 | `x -a` with an `-a` that wants an argument: it lacks one, but takes `x` in the permuted arguments |
| `GetoptSpec.RescanIff` | pub/getopt.c:132-157 | a scan that stops at the first ordinary argument sees the same in the permuted arguments, exactly when no missing argument meets ordinary ones |
| `FormatSpec.DigitsValue` | pub/snprintf.c:856-884 | digits with any number of zeros in front read back as the number, in every base |
| `FormatSpec.DigitsPartValue` | pub/snprintf.c:898-920 | the digits of a conversion, zeros included, read back as the magnitude; the precision is met, and an alternate `o` starts with a zero |
| `FormatSpec.ShownInRange` | pub/snprintf.c:733-810 | an argument in the range of its type is shown as it is, and what is shown always fits 64 bits |
| `FormatSpec.PlainShort` | pub/snprintf.c:584 | a number of 64 bits has at most 22 digits, so that the scratch buffer is never too small |
| `FormatSpec.NumberLength` | pub/snprintf.c:948-1008 | a conversion is as long as its width or as its sign and digits, whichever is more |
| `Snprintf.Parse` | pub/snprintf.c:603-682 | flags, width, precision, length modifier and synonyms are read in one pass as the grammar says |
| `Snprintf.Convert` | pub/snprintf.c:828-897 | the scratch buffer holds sign or prefix and digits, and the insertion point is between them |
| `Snprintf.ZerosToPad` | pub/snprintf.c:898-926 | the number of zeros for precision, alternate form and zero flag |
| `Snprintf.NumberField` | pub/snprintf.c:898-1008 | with these zeros at that place, the padded field is the text the standard demands for the number |
| `Snprintf.PutInteger` | pub/snprintf.c:733-926 | a whole `d`, `u`, `o`, `x` or `X` conversion adds the standard's text to the output |
| `Snprintf.PutPointer` | pub/snprintf.c:733-926 | what the system prints for a pointer is laid out like a number, with zeros behind its `0x`; a null pointer with precision 0 shows nothing |
| `Snprintf.PutConversion` | pub/snprintf.c:573-1010 | each conversion adds its text, takes its arguments, and leaves the format behind its conversion character |
| `Snprintf.Sink.Emit` | pub/snprintf.c:567-572 | the buffer keeps holding the beginning of the output, and nothing behind the bound changes |
| `Snprintf.Sink.Field` | pub/snprintf.c:948-1008 | padding, sign, zeros and digits are put out in the order the justification asks for |
| `Snprintf.VsnPrintf` | pub/snprintf.c:544-1029 | for output that an `int` can count, the result is the length of the unbounded output whatever the bound; the buffer holds its first characters and a NUL, and no other byte changes |
| `FormatRoundTrip.ReadWritten` | pub/snprintf.c:603-682 | every conversion specification written out is read back with all its flags and numbers, wherever it stands in a format |
| `FormatRoundTrip.OneNumber` | pub/snprintf.c:573-1010 | a format that is one numeric conversion gives exactly the text the standard demands, for all flags and for all widths and precisions that fit an `int` |
| `FormatLaws.NumberShape` | pub/snprintf.c:823-1008 | the output of one numeric conversion: padding on the side the `-` flag says, sign, `0x` or `0X` exactly for `#` and a number that is not 0, zeros, and digits in the case of the conversion character that read back as the number |
| `FormatLaws.ShownIs` | pub/snprintf.c:733-810 | the number shown is the argument cut to the width of its type, signed for `d` only |
| `FormatLaws.SignShown` | pub/snprintf.c:823-853 | the first character that is no space is `-` exactly for a negative `d` and `+` exactly for another with the `+` flag; with the space flag alone one space belongs to the sign |
| `FormatLaws.TextConversions` | pub/snprintf.c:684-731 | strings up to their precision, nothing of a null pointer, characters cut to eight bits, and the percent sign |
| `FormatLaws.PointerConversion` | pub/snprintf.c:733-926 | pointers as the system prints them, padded like numbers |
| `FormatLaws.FormatParts` | pub/snprintf.c:544-1029 | a whole format puts out its parts one after the other, each with its own arguments |
| `FormatLaws.AnyOutput` | pub/snprintf.c:603-682 | widths and precisions given by stars, negative ones included, length modifiers and the synonyms `i`, `D`, `U` and `O` mean what the plain form means |
| `Odometer.Fragment.Advance` | src/2Dlist.c:181-199 | a pointer goes to the next member, or back to the first and counts a round |
| `Odometer.Increment` | src/2Dlist.c:158-200 | the list goes to the next combination, the rightmost fastest; it wraps exactly after the last one; rounds keep count |
| `Odometer.ProductAt` | src/2Dlist.c:68-112 | there are as many combinations as the product of the lengths, and the one with the number of the pointers is their text |
| `Odometer.ProductOrder` | src/2Dlist.c:85-112 | the order of the combinations: behind each entry of the lists before it the members of the last list come in turn |
| `Odometer.ProductOne` | src/2Dlist.c:85-112 | a fragment with one value adds it to every combination, an empty one adds nothing, and nothing at all gives the empty combination |
| `Odometer.OneList` | src/2Dlist.c:85-112 | a single list variable gives its members as they stand |
| `Odometer.EndOf` | src/2Dlist.c:232-292 | the end is judged by the last list variable looked at, and a list without any is marked |
| `Odometer.GetEntry` | src/2Dlist.c:68-112 | the call with number `t` returns combination `t` until the end is reported |
| `Odometer.CompleteIff` | src/2Dlist.c:232-292 | all combinations are returned exactly when the leftmost list variable stands where the test for the end looks |
| `Odometer.HalfReported` | src/2Dlist.c:232-292 | two lists in front, of two members each: two of the four combinations are returned |
| `Odometer.AllEntries` | src/2Dlist.c:68-296 | a whole run returns a beginning of the combinations in order, each once, and all of them exactly for those shapes |
| `Odometer.TieIncrement` | src/2Dlist.c:204-228 | all pointers of tied lists go on together, unless one has run out |
| `Odometer.TiedEnd` | src/2Dlist.c:232-292 | when the shortest tied list has run out the end is seen exactly if none is longer, or, except for shell commands, just one is and another list variable follows it |
| `Odometer.AllTied` | src/2Dlist.c:68-296 | a whole run over tied lists returns the members with the same number together, as many as the shortest has; then it ends, or follows a null pointer, exactly as the lengths say |
| `Odometer.TiedOrder` | src/2Dlist.c:204-228 | an entry of tied lists is the entry of the lists before the last and the member with the same number of the last |
| `Odometer.UnevenLists` | src/2Dlist.c:204-292 | lengths 3 and 2 end well, except for shell commands; lengths 2 and 3 do not |
| `SparseCopy.FullWrite` | pub/full-write.c:47-64 | short and interrupted writes are continued until everything is written, or the error is returned |
| `SparseCopy.IsHole` | src/copy.c:107-151 | the scan by words and bytes with a sentinel says "hole" exactly when every byte of the block is zero |
| `SparseCopy.HolesAre` | src/copy.c:100-151 | a block that was read is skipped exactly when holes are asked for and all its bytes are zero, and nothing else is |
| `SparseCopy.CopyRegDisk` | src/copy.c:62-205 | the copy succeeds exactly when no system call fails, and then the destination has the bytes and the length of the source, and the blocks read, which cover the source, became holes exactly where holes are asked for and all bytes are zero, for all splits into reads and writes |
| `Listing.Pack` | src/cfservd.c:3032-3050 | the messages sent are the names spread over buffers, the last one with the terminator |
| `Listing.SplitFlat` | src/cfservd.c:3032-3050 | spreading loses, repeats and moves no name |
| `Listing.SplitOk` | src/cfservd.c:3036-3044 | what is put into one buffer leaves room for a longest name and the terminator |
| `Listing.SplitFull` | src/cfservd.c:3036-3044 | a buffer is sent only when the next name does not fit |
| `Listing.ReadNames` | src/client.c:427-442 | the names of one buffer are read back, whatever is behind them in the receive buffer |
| `Listing.RefusedMessage` | src/proto.c:39-44 | a listing looks like an error reply exactly when its first name does |
| `Listing.Unpack` | src/client.c:384-444 | all names in order, or nothing exactly when one of the messages looks like an error reply |
| `Listing.BadName` | src/proto.c:39-44 | a directory whose only file is called `BAD:x` is refused |
| `Listing.RoundTrip` | src/cfservd.c:3032-3050 | packing and unpacking give the same names exactly when no buffer starts with a name that looks like an error reply |
| `Admission.StepKeeps` | src/cfservd.c:1092-1166 | every step of every thread keeps the counter equal to the slots taken, and lock and counter reads consistent |
| `Admission.AdmissionSafe` | src/cfservd.c:1092-1166 | at every moment of every run fewer connections than the limit are served, and a finished thread took and gave back one slot |
| `Admission.LimitReached` | src/cfservd.c:1107-1138 | every number of connections below the limit can be served at once |
| `Admission.ServedIff` | src/cfservd.c:1092-1166 | the numbers of connections that some run serves at once are exactly those below the limit |
| `Admission.RefusedOnly` | src/cfservd.c:1107-1117 | in every run a connection is turned away exactly when as many threads as the limit have counted themselves and not yet taken that back, so as many must have arrived |
| `Admission.RefusedIff` | src/cfservd.c:1100-1136 | the numbers of served connections at which some run turns one away are all that are possible, none included, for every limit |
| `Admission.AllRefused` | src/cfservd.c:1100-1136 | for every limit, as many connections that arrive together can all be turned away with nobody ever let in |
| `Admission.BothRefused` | src/cfservd.c:1100-1136 | with a limit of 2, two connections that arrive together can both be turned away while nobody is served |
| `Admission.GivesUpOnly` | src/cfservd.c:1107-1134 | in every run the server gives up only at the end of a refusal with more than the allowed number of others since a connection was last let in, counted from the steps; a refusal that ends otherwise had no more |
| `Admission.RefusalEnds` | src/cfservd.c:1107-1134 | every refusal can come to its end: the server gives up, or the thread is done and the server goes on, as that number says |
| `Admission.GivesUp` | src/cfservd.c:1107-1134 | some run gives up with any number of connections being served that is possible at all |

## Left out

* Anchors, word operators and back-references to finished groups: `regex_compile` in this model stops with a code of its own.
* `RegexCompile.Compiler.Run`: stops with that code where `RegexCompile.Compiler.Step` does.
* `RegexCompile.Compiler.Step`: stops with it at an anchor, and where the following one does.
* `RegexCompile.Compiler.HandleBackslash`: stops with it at a word operator and at a reference to a finished group.
* `CompilerCorrect.StepInterval`: the machine crosses an interval in one move; the counters that the matcher keeps in the program are the subject of `IntervalSteps.dfy`.
* `WellFormed.ProgramWf`: only for loops and intervals over one character; the jumps of all other code are covered by `Boundaries.PatternCommands`.
* The other syntaxes, translate tables, two-string matching, register reporting, and the `.*\n` special case, which the POSIX extended syntax never takes.
* Loops over groups and intervals over anything but one character: they are read and compiled here, but not matched.
* `Fastmap.ReCompileFastmap`: when the last of several alternatives is empty the C code reads the byte behind the program; the model wants it not to be the code of a loop. Matching without a fastmap needs nothing of the kind.
* `RegexCompile.Compiler.HandleBracket`: character classes are those of ASCII; another locale could add characters.
* `Search.ReSearch2`: a backward search that would go on to place -1 stops at 0; the C code looks at the character before the text there.
* `Search.ReMatch2`: places behind `stop` are left out; the C code only compares the cursor with the end of the text for equality and would run past it.
* Sizes of requests for memory: the allocator may refuse any of them; a failure stack at its maximum counts as a refusal.
* `FastmapTight.FirstTight`: NUL is entered for `.` although no match begins with it, and characters before a command that takes nothing, such as a negated list of everything, are entered as well.
* A fastmap that could not be finished is marked accurate all the same; nothing is promised for it.
* Digits of an interval are read as unbounded numbers; in C a number that does not fit an `int` is undefined.
* The character after the pattern is taken to be NUL, as in a C string.
* `GetoptLaws.PermuteWritten`: lists of option characters with more than two colons behind a character.
* `GetoptLaws.InOrderWritten`: an option character that is the leading sign itself; from the second call on the C code takes the sign for one.
* Long options, messages on standard error and calls of `getopt` after the end of the options.
* The builds for compatibility with other systems. What `%p` prints is the system's own; `Snprintf.VsnPrintf` takes it as part of the argument, and wants it to fit the scratch buffer as the C code does.
* `Snprintf.VsnPrintf`: wants output of fewer than 2^31 - 1 characters; beyond that the `int`s it goes through wrap, as `Snprintf.AsInt` says. The system's `sprintf` is taken to print plain digits.
* `FormatRoundTrip.OneNumber`: widths and precisions below 2^31, for the same reason.
* The length modifier `h`: the argument is taken to be in the range of a short; for others the sign is decided before the conversion to short.
* An argument of another type than its conversion asks for, or a missing one, is undefined in C; here it reads as 0 or a null string.
* `Odometer.GetEntry`: an entry that outgrows its buffer ends the program; entries are unbounded here.
* `Odometer.AllEntries`: starts from a list just built; resetting a list sets its pointers back but not its rounds.
* `SparseCopy.CopyRegDisk`: opening and closing files; the number of interruptions and of writes of no bytes is finite.
* Copying over the network, and the decision which files may have holes.
* `Admission.AdmissionSafe`: lock calls that fail; a read or a write of the counter, and counting a refusal under the lock, are one step each.
* `Listing.Unpack`: framing, encryption and interrupted receives; a failed reply also begins with the error mark.
* The rest of the agent and the server: sockets, databases, process tables, access lists.
