# Verified models of GETweb's stateful core

GETweb is a small web server with CGI programs and a bundled copy of cpplint.  This project
models the parts of it that carry real state or arithmetic, and proves what they are for.
`dafny verify dfyconfig.toml` checks everything.

| files | what they model |
|---|---|
| `Brackets`, `Lines`, `ExprStacks` | a grammar of balanced text, a one-character-at-a-time machine for it, text that spans lines, and the shared list of pending brackets |
| `ForwardMatch`, `ReverseMatch`, `MatchLaws`, `AngleMatch`, `TemplateMatch` | cpplint's three bracket matchers, what they find from angle brackets, and the template-argument scan |
| `NestingModel`, `NestingHeap`, `NestingLaws`, `NestingBraces`, `NestingBlocks` | cpplint's nesting tracker: its values, its mutable objects, its laws about conditionals, about braces, and about what the blocks on the stack say |
| `Comments`, `Includes` | removal of multi-line comments; the order of includes |
| `Polygon` | the point-in-polygon test of the image map program |
| `CStrings`, `Forms`, `ShellEscape` | C strings changed in place, GET and POST form decoding, shell escaping |
| `Basics`, `ByteStreams` | optional values and stacks; a stream that is read byte by byte |
| `RequestReader`, `ThreadPool` | reading a request from a socket; the semaphore-guarded worker pool |

## How the proofs hang together

**Bracket matching.**  `Brackets.Enclosed` says by a grammar, with angle brackets and
semicolons erased, that a text is an opener, balanced text and the matching closer.
`ForwardMatch.MoveTracks` and `ReverseMatch.MoveTracks` are the erasure lemma for one
character: while a round, square or curly bracket is at the bottom of the stack, the stack
moves as a machine on erased text does.  From there both matchers are proved sound and
complete against `Enclosed` over any number of lines, so that they are mutually inverse, and
the third matcher, which stacks expected closers, agrees with the first.  The claim about a
template bracket is about a scan that starts at a tentative `<` or `>`: if it succeeds, what it
encloses is balanced and has no semicolon outside brackets.

From angle brackets the erased machine is not enough, as the tentative `<` on the stack decide.
`AngleMatch` says without a stack what is found: `AfterLess` and `BeforeGreater` follow each angle
bracket by recursion, pass over other brackets as a whole, and leave out shifts, arrows and
`operator`.  `LessTracks` and `GreaterTracks` prove the stack scans equal to that for any number of
pending angle brackets, so that `CloseAtLess` and `OpenAtGreater` hold from every `<` and `>` of
every text.  The frame lemmas `CloseFrame` and `OpenFrame` are what makes it work: above a bracket
a scan goes as if nothing were below.  `TemplateMatch` has the converse of `TemplateBalanced`: on
text where the four kinds of brackets nest, and in which an angle bracket is part of an operator
for both scans or for neither, as in "->" and "<<", both scans find the matching one.

**Nesting.**  `NestingHeap.NestingState` holds mutable block objects, and `Valid` implies that no
block is reachable in two ways: `NoSharing` says that the current stack and the two stacks of
each checkpoint have no block in common and none twice.  Each method is proved equal to a
function on values *because* `Valid` holds: `UpdateText` changes blocks in place and leaves every
saved object `unchanged`, which is what the deep copies at `#if` and `#else` buy.
`ReturnToFirstBranch` makes no copy, and is safe because the checkpoint is dropped in the same
step.  `NestingLaws.Erasure` is then about the values: reading a file leaves the state that
reading only its first branches leaves.  No assumption is made about what stands on the directive
lines themselves; the `#if` and `#endif` lines of a conditional are kept.  `Erasure` looks at what
a conditional leaves; `BranchStart` and `InsideBranch` look inside: each later branch is read from
the stack before the `#if`, whatever the branches before it did.  `FileStack` reduces a
file to what its kept lines make of the stack alone, and the laws of `NestingBraces` are about
such files: heads, bodies and closing braces may stand on different lines, with conditionals
between them.  `ReadMarks` is what the tracker reads in the lines, class heads only where it
accepts them, and `Level` is the shape of the blocks that this opens; the laws hold for every file
that closes no block but its own.  `WrittenBalanced` and `WrittenBlock` tell from the text alone,
whatever heads are accepted, that it is balanced: the texts of the grammar `Body`, with blocks
that begin with a bare brace, a head and its brace on the same line or a later one, or an opening
namespace, and with statements, parentheses and forward declarations between them.
`ArgumentsLeaveNoTrace` is the law behind the count of open parentheses, and `HeadWithoutBody`
says what becomes of a head that does not get its brace.  `NestingBlocks` is about what stands on
a block: its kind and name, the access of the last label, whether it is derived, and from where
to where it is inline assembly.

**Polygon.**  `Polygon.Crossings` counts, over all cyclic edges, those that straddle the
point's height and whose exact intersection is at or right of it.  The method that skips runs,
avoids divisions and treats the closing edge apart returns its parity.  The laws are about the
parity: rotation, reversal, cutting along any chord, the bounding box, and what rectangles and
triangles hold.  `FanGeometry` puts them together: for every vertex list, a point off the lines
through the sides of the triangles fanned out from the first vertex is inside exactly if an odd
number of these triangles surround it.

**Comments.**  `OpensIff` and `ClosesIff` say in terms of the text what starts and what ends a
comment, white space at either end of the line included.

**Forms.**  A field comes back exactly when its name and value have no NUL and its name has no
`=`; a field without `=` is a name with an empty value; for other fields decoding yields something
else.  Only an empty field at the end of a form is lost.  This is stated for every way of writing
the bytes that section 17.13.4.1 of HTML 4.01 and section 2.1 of RFC 3986 allow (`+` or an
escape for a space, hexadecimal digits of either case, escapes where none is needed).

**Requests.**  `readline` ends a line at the byte 255 as well, which it takes for the end of the
stream, and drops that byte.  `ParseRequest` is therefore stated for every stream: what it
consumes is the shortest prefix after which a line CRLF, or an empty line made by a byte 255,
has just been read; what it keeps is that prefix without the bytes 255.  For streams without
the byte 255, `CleanHead` gives the familiar form.  The request line comes back from its
tokens for a version without NUL, and for no other, since the line end is looked for with
`strstr`.  `AnyRequestLine` is the general case: any tokens, any spacing, CRLF or a lone LF.

**Thread pool.**  Steps of any number of workers and arrivals of connections are interleaved
freely.  `PoolSafety` holds after every run, `PoolRefinesLinear` maps every step to a step of
the server that handles one connection at a time, `BoundedWaiting` bounds the worker steps that a
connection waits whatever arrives after it, and `EveryScheduleDrains` says that once arrivals
stop, every schedule ends after the same number of steps with every connection handled.

## Points where the code and its comments or its intent part

- The class comment of `_IncludeState` speaks of raising an error (`cpplint.py:703-708`); the code returns a message and keeps its section (`cpplint.py:827-838`). The model follows the code.
- The comment on `previous_stack_top` says that blocks are not modified in place (`cpplint.py:2594-2596`); they are, and the reference may name a block that is still on the stack. The model keeps it as such a reference.
- When the bracket under `CloseExpression` is the second `<` of `<<`, the scan takes it for a shift, pushes nothing and goes on with an empty stack (`cpplint.py:1538-1543`). The model does the same.
- "Ignore '->' and operator functions" (`cpplint.py:1571`): the forward scan looks one character too far back (`cpplint.py:1573`), so that it ignores the `>` of `operator >` but not that of `operator>`; the backward scan ignores both (`cpplint.py:1669`). `AngleMatch.OperatorGreater` has the exact condition.
- `parse_request` means to stop at the end of the stream and also stops at a byte 255 (`src/tcp.cc:87`), and `if (sock >= 0)` in the worker is always true (`src/server.cc:314`).

## Model

| member | source | states |
|---|---|---|
| ExprStacks.ExprStack.Append | cpplint.py:1535 | the shared stack grows by one bracket, in place |
| ExprStacks.ExprStack.RemoveLast | cpplint.py:1562 | the shared stack loses its top, in place |
| ExprStacks.ExprStack.RemoveWhileTop | cpplint.py:1555-1556 | the loop removes exactly the run of one bracket on the top |
| ExprStacks.DropKeeps | cpplint.py:1553-1567 | removing tentative angle brackets keeps the bottom of the stack and every real bracket above it |
| ExprStacks.DropAll | cpplint.py:1555-1558 | with no real bracket on the stack, removing tentative angle brackets empties it |
| ForwardMatch.FindEndOfExpressionInLine | cpplint.py:1518-1593 | one line scanned against the caller's stack object: end found, given up, or the same object carried on with the stack that the scan function gives |
| ForwardMatch.CloseExpression | cpplint.py:1596-1637 | from a round, square or curly bracket it returns a position exactly if some later bracket encloses balanced text with it, and then the returned position is just past such a bracket; failures return the number of lines and -1 |
| ForwardMatch.MoveTracks | cpplint.py:1532-1590 | erasure: with a bracket at the bottom of the stack, no '<', '>' or ';' influences how a character moves the scan |
| ForwardMatch.ScanTracks | cpplint.py:1531-1593 | a scan of a line keeps step with the machine on erased text, from any column and any stack carried in |
| ForwardMatch.CloseFromSound | cpplint.py:1619-1637 | an end found on any later line is where the machine, fed all the text between, is done |
| ForwardMatch.CloseFromComplete | cpplint.py:1619-1637 | if the machine is done somewhere, the scan stops there and nowhere earlier |
| ForwardMatch.CloseIffEncloses | cpplint.py:1518-1637 | from an opener the result is a position if and only if the text up to it is enclosed by the grammar, whatever '<', '>' and ';' lie between |
| ForwardMatch.TemplateBalanced | cpplint.py:1536-1590 | a matched template bracket never cuts across structure: the text before the matched '>' is balanced and has no semicolon outside brackets, across any number of lines |
| ReverseMatch.FindStartOfExpressionInLine | cpplint.py:1640-1714 | one line scanned backward against the caller's stack object, operators consuming the character before them |
| ReverseMatch.ReverseCloseExpression | cpplint.py:1717-1752 | from a closer it returns a position exactly if some earlier bracket encloses balanced text with it, and then that bracket; failures return 0 and -1 |
| ReverseMatch.SkippedIsErased | cpplint.py:1666-1677 | the character that "->", " >= ", "operator>" and "<<" make the backward scan skip is never a bracket or a semicolon |
| ReverseMatch.MoveTracks | cpplint.py:1657-1712 | erasure for the backward scan, read right to left with brackets turned round |
| ReverseMatch.OpenFromSound | cpplint.py:1734-1752 | a start found on any earlier line is where the machine on reversed text is done |
| ReverseMatch.OpenFromComplete | cpplint.py:1734-1752 | if the machine on reversed text is done somewhere, the backward scan stops there, although it skips characters |
| ReverseMatch.ReverseCloseIffEncloses | cpplint.py:1640-1752 | from a closer the result is a position if and only if the text from it is enclosed |
| ReverseMatch.TemplateBalanced | cpplint.py:1662-1684 | the text between a matched '<' and the '>' that the backward scan started at is balanced and has no semicolon outside brackets |
| AngleMatch.CloseFrame | cpplint.py:1531-1593 | a forward scan above a bracket goes as if nothing were below it on the stack, and goes on with what is below where it would have ended |
| AngleMatch.LessTracks | cpplint.py:1536-1590 | for any number of pending '<', the stack scan finds what following each '<' by recursion finds, shifts, arrows, operator names, brackets and semicolons included |
| AngleMatch.CloseAtLess | cpplint.py:1536-1637 | exactly what is found from any '<' of any text, and where the search gives up; "<<" and "<=" start no scan, nor does a character that is no opening bracket |
| AngleMatch.OpenFrame | cpplint.py:1656-1714 | the frame property of the backward scan |
| AngleMatch.GreaterTracks | cpplint.py:1660-1712 | for any number of pending '>', the backward stack scan finds what following each '>' by recursion finds |
| AngleMatch.OpenAtGreater | cpplint.py:1660-1752 | exactly what is found backward from any '>' of any text, and nothing from a character that is no closing bracket |
| AngleMatch.OperatorGreater | cpplint.py:1571-1574 | the '>' that names an operator function is ignored by the backward scan always, and by the forward scan if and only if white space stands before it |
| TemplateMatch.ShiftForth | cpplint.py:1538-1550 | a forward scan takes the first half of "<<" for a bracket and the second half takes that back, whatever is on the stack |
| TemplateMatch.TemplateCloses | cpplint.py:1536-1637 | from a '<' around text in which angle brackets nest with the others, shifts "<<" and any '>' that both scans ignore standing between them as plain text, the forward scan ends just past the matching '>', on however many lines; from "<=" no scan is begun |
| TemplateMatch.TemplateOpens | cpplint.py:1662-1752 | from that '>' the backward scan returns to the '<', over shifts and all |
| MatchLaws.CloseThenReverse | cpplint.py:1518-1752 | forward from an opener reaches a closer if and only if backward from that closer reaches that opener, on every document |
| MatchLaws.RoundTripForward | cpplint.py:1518-1752 | a successful forward match ends at a closer from which the backward match returns to the start |
| MatchLaws.RoundTripBackward | cpplint.py:1518-1752 | a successful backward match ends at an opener from which the forward match returns |
| MatchLaws.ExpectTracks | cpplint.py:4629-4637 | a stack of expected closers moves as a stack of seen openers does, for every character |
| MatchLaws.GetTextInside | cpplint.py:4589-4642 | the expected-closer matcher returns the text inside exactly when the forward scan finds its end there, and None exactly when that scan fails; that is, the text that the grammar encloses, or None if there is none |
| MatchLaws.TextInsideIff | cpplint.py:4589-4642 | the text inside is the one that stands between the opener and the bracket that closes it by the grammar, and None means that no bracket does |
| MatchLaws.InTemplateArgumentList | cpplint.py:2472-2522 | terminates on every document, since each hop over a nested list lands strictly later; answers yes if and only if hops over nested lists lead to a character that only a template argument list has there |
| MatchLaws.InTemplateIff | cpplint.py:2482-2522 | the same for the recursive reading: each hop is a match of CloseExpression at a '<', the last telling character is one of '>', '=', '[', ']' and '.', and nothing telling lies between, on however many lines |
| NestingHeap.BlockInfo.CountParentheses | cpplint.py:2607-2626 | the innermost block's counter and inline assembly state are updated in place |
| NestingHeap.PreprocessorInfo.constructor | cpplint.py:2391-2402 | a checkpoint holds the stack before #if in blocks of its own |
| NestingHeap.PreprocessorInfo.SeeElse | cpplint.py:2552-2557 | a checkpoint remembers the stack at the first #else, keeping the stack before #if and sharing no block with it |
| NestingHeap.DeepCopy | cpplint.py:2548 | a copy shows the same values in fresh objects only |
| NestingHeap.NestingState.NoSharing | cpplint.py:2548-2560 | in every valid state no block object is reachable in two ways, from two of the current stack and the saved stacks before #if and before #else, or twice from one |
| NestingHeap.NestingState.constructor | cpplint.py:2408-2429 | starts empty and without sharing |
| NestingHeap.NestingState.SeenOpenBrace | cpplint.py:2431-2438 | the answer read off the objects is that of the values they show |
| NestingHeap.NestingState.EnterIf | cpplint.py:2545-2548 | #if saves a deep copy and leaves the current blocks as they are |
| NestingHeap.NestingState.SeeFirstElse | cpplint.py:2552-2557 | the first #else copies the end of the first branch into the checkpoint |
| NestingHeap.NestingState.RestoreStack | cpplint.py:2559-2560 | the stack before #if comes back in fresh blocks, the checkpoint keeping its own |
| NestingHeap.NestingState.ReturnToFirstBranch | cpplint.py:2570-2575 | #endif after #else takes over the checkpoint's blocks without a copy, and no sharing arises |
| NestingHeap.NestingState.UpdatePreprocessor | cpplint.py:2524-2578 | each directive has exactly its effect on values, keeps the no-sharing invariant, and does nothing for an unexpected #else or #endif |
| NestingHeap.NestingState.ConsumeNamespaces | cpplint.py:2631-2646 | the loop pushes one block for each namespace at the start of the line, in order |
| NestingHeap.NestingState.ConsumeClass | cpplint.py:2657-2673 | a class head is pushed unless it stands in parentheses or in a template argument list |
| NestingHeap.NestingState.CheckBegin | cpplint.py:2677-2678 | a head whose brace is still awaited notes a base class, in place |
| NestingHeap.NestingState.UpdateAccess | cpplint.py:2681-2688 | an access label changes the innermost class in place, and nothing else |
| NestingHeap.NestingState.ConsumeToken | cpplint.py:2713-2742 | a brace completes a head, opens a block or closes one; a semicolon or parenthesis removes an unfinished head |
| NestingHeap.NestingState.ConsumeTokens | cpplint.py:2707-2743 | the loop over a line's braces, semicolons and parentheses has the effect of all of them in order |
| NestingHeap.NestingState.UpdateText | cpplint.py:2605-2743 | whatever a line does to blocks in place, every saved checkpoint and every block it holds is unchanged |
| NestingHeap.NestingState.Update | cpplint.py:2581-2743 | a line has exactly its effect on values, keeps the no-sharing invariant, and previous_stack_top names the old innermost block |
| NestingHeap.NestingState.Process | cpplint.py:2581-2743 | over whole files the mutable objects always show the value model's state |
| NestingLaws.BranchesRun | cpplint.py:2549-2560 | however many #else and #elif branches follow, the checkpoint keeps the stack before #if and the end of the first branch |
| NestingLaws.EndifForgets | cpplint.py:2564-2575 | at #endif it makes no difference whether later branches were read |
| NestingLaws.Erasure | cpplint.py:2524-2578 | for every properly nested file and every starting state, the final state equals that of the file with all branches but the first deleted, and the saved stacks return to their starting contents |
| NestingLaws.DiscardedBranchesIrrelevant | cpplint.py:2534-2540 | files that differ only in discarded branches leave the same state |
| NestingLaws.FileStack | cpplint.py:2524-2578 | a properly nested file leaves the stack that its kept lines make when their directives are overlooked, and the saved stacks as they were |
| NestingLaws.BranchStart | cpplint.py:2549-2560 | after any #else or #elif the stack is the one before #if, as that directive line itself changes it, whatever the branches before did; the checkpoint keeps that stack and the end of the first branch |
| NestingLaws.InsideBranch | cpplint.py:2527-2560 | every line inside a later branch finds what the branch itself has made of the stack before #if |
| NestingLaws.InsideFirstBranch | cpplint.py:2545-2548 | inside the first branch it is as if there were no conditional |
| NestingLaws.StrayDirective | cpplint.py:2558-2578 | #else, #elif and #endif without #if are read as text |
| NestingBlocks.NamespacesByName | cpplint.py:2628-2646 | the namespaces at the start of a line are on the stack in order, by name, with their brace seen exactly if it is on the line |
| NestingBlocks.ClassIsPushed | cpplint.py:2648-2688 | a class head outside parentheses is on the stack from its line, waiting for its brace, derived if the line has a bare colon, with the access of its keyword or of a label after it |
| NestingBlocks.ClassIsNotPushed | cpplint.py:2657-2671 | inside parentheses, or as a template argument, a class head is not pushed |
| NestingBlocks.LabelsAndColons | cpplint.py:2675-2688 | over any number of lines that open and close nothing, the innermost class has the access of the last label, and a head that waits becomes derived at any bare colon, an open class at none |
| NestingBlocks.BraceOpens | cpplint.py:2713-2725 | a brace where no head waits opens a block of the kind that the line says, extern "C", assembly or plain |
| NestingBlocks.AsmSpan | cpplint.py:2612-2626 | a block is inside assembly from the line that opens it with one parenthesis until its parentheses are closed, and the line that closes them is its end |
| NestingBlocks.TrackerCounts | cpplint.py:2605-2626 | over such lines the innermost block of the tracker has the parentheses and the assembly state of that count |
| NestingBlocks.AsmElsewhere | cpplint.py:2612-2623 | a line that starts no assembly leaves a block outside of it, or takes it out of the end of one; a block that is all assembly stays so |
| NestingBraces.FileDepth | cpplint.py:2607-2743 | a file that closes no block but its own leaves on the stack the blocks that it leaves open, waiting heads included, changes none below the innermost block it found, and leaves that one the same block but for parentheses, assembly state and label |
| NestingBraces.BalancedFile | cpplint.py:2607-2743 | a file that closes what it opens, nested classes, namespaces and forward declarations included, leaves every block below the innermost unchanged, and the innermost with the parentheses of the lines that begin outside the file's blocks |
| NestingBraces.WrittenBalanced | cpplint.py:2628-2743 | lines whose marks are a text of the grammar of balanced texts are read as balanced from any stack, whichever of their class heads the tracker accepts |
| NestingBraces.WrittenBlock | cpplint.py:2628-2743 | the same between the beginning of a block and its closing brace |
| NestingBraces.BlockClosesItself | cpplint.py:2706-2743 | a head on the stack waits for its brace and is removed by its own closing brace, on whatever later line and wherever on it that stands and whatever is declared between; the rest of that line and what follows find the stack as it was |
| NestingBraces.ClassClosesItself | cpplint.py:2648-2743 | the same from the line with the class head on, also if the closing brace stands on that line |
| NestingBraces.ClassDefinition | cpplint.py:2648-2743 | a whole class definition, with the semicolon after its closing brace, leaves the stack as it was before its head |
| NestingBraces.NamespacesClose | cpplint.py:2628-2743 | a namespace that a line opens first is removed by its own closing brace, wherever that stands and whatever is declared inside, further namespaces and a class head on the same line included |
| NestingBraces.HeadWithoutBody | cpplint.py:2713-2742 | an accepted class head is removed by any first token but an opening brace, whatever follows on the line: a forward declaration leaves no trace, and a closing brace meant for the block around it goes to the head |
| NestingBraces.ParenthesesCounted | cpplint.py:2607-2610 | in a file that closes no block but its own, the innermost block it finds counts the parentheses of exactly the lines at whose beginning no block of the file is open |
| NestingBraces.ArgumentsLeaveNoTrace | cpplint.py:2605-2673 | class and struct heads among the arguments of a function, on however many lines, leave no trace on the stack, as long as they stand where the count of open parentheses is not 0 or have a semicolon or closing parenthesis after them |
| NestingBraces.AsmSafety | cpplint.py:2612-2626 | in every run a block counts as inside assembly only while a parenthesis is open and as just past it only while none is, in every checkpoint too |
| Lines.StripIff | cpplint.py:1366 | what stripping leaves is the middle of the line: white space before it and after it, none at its ends |
| Lines.EndsWithOperatorIff | cpplint.py:1544 | the look-behind for `operator` succeeds exactly on the matches of its regular expression: the whole word and white space |
| Comments.OpensIff | cpplint.py:1366-1368 | a line starts a comment that it does not end exactly if it is, between white space, a text that begins with a comment start and has no comment end after that |
| Comments.ClosesIff | cpplint.py:1377 | a line ends a comment exactly if white space alone follows a comment end |
| Comments.FindNextMultiLineCommentStart | cpplint.py:1363-1371 | the first line at or after a line that starts a comment it does not end, or the number of lines |
| Comments.FindNextMultiLineCommentEnd | cpplint.py:1374-1380 | the first line at or after a line that ends in a comment end, or the number of lines |
| Comments.RemoveMultiLineCommentsFromRange | cpplint.py:1383-1388 | exactly the lines of the range are overwritten, in place |
| Comments.RemoveMultiLineComments | cpplint.py:1391-1404 | terminates, keeps the number of lines, overwrites exactly the lines that a left-to-right reading finds inside a comment that ends, and reports the start of the comment that never ends, if there is one |
| Comments.BlankedIff | cpplint.py:1391-1404 | a line is overwritten if and only if it lies between the start and the first end of a comment |
| Comments.UnclosedIff | cpplint.py:1398-1402 | nothing is reported if and only if every comment ends; at most one line can be reported |
| Comments.Idempotent | cpplint.py:1391-1404 | a second pass changes nothing and reports the same line, unterminated comments included |
| Includes.IncludeState.constructor | cpplint.py:731-733 | starts in the initial section, with one empty list of includes |
| Includes.IncludeState.FindHeader | cpplint.py:735-748 | the line of the first include of the header over all lists in order, or -1 exactly if there is none |
| Includes.IncludeState.AddInclude | cpplint.py:4561 | the include is added at the end of the last list, and no other list changes |
| Includes.IncludeState.ResetSection | cpplint.py:750-766 | the order starts anew; a conditional starts a list of its own and a later branch forgets the list of the branch before |
| Includes.IncludeState.CheckNextIncludeOrder | cpplint.py:807-858 | a message, never an empty one, is returned exactly if a system header comes after the last group has begun, or a C header after a C++ header; the section is always the one that the headers seen determine, misplaced ones included |
| Includes.InOrderIff | cpplint.py:807-858 | no header of a sequence is reported if and only if the sequence is headers of this file, C, C++, then anything but system headers |
| Includes.SectionGrows | cpplint.py:708-714 | the section never moves back on any sequence, and a misplaced header does not move it |
| Polygon.PointInPoly | http-root-dir/cgi-src/imagemap.c:299-363 | the optimised test returns the parity of the plain count of crossings over all cyclic edges of the vertices before the sentinel |
| Polygon.CountCrossings | http-root-dir/cgi-src/imagemap.c:309-360 | closing edge and open path together count every cyclic edge once |
| Polygon.SkipSide | http-root-dir/cgi-src/imagemap.c:332-336 | the skipping loops pass over edges that cross nothing and stop before the next edge that changes sides |
| Polygon.WalkPath | http-root-dir/cgi-src/imagemap.c:331-360 | the walking loop with its skips counts what the edge-by-edge count does |
| Polygon.CountEdge | http-root-dir/cgi-src/imagemap.c:337-344 | an edge is counted exactly if its exact intersection is at or right of the point, with or without the division |
| Polygon.CrossesShortcut | http-root-dir/cgi-src/imagemap.c:337-340 | the intersection lies between the ends of the edge, so ends on one side decide without a division |
| Polygon.CrossesIffDet | http-root-dir/cgi-src/imagemap.c:341-344 | the quotient test is the sign of a determinant, rising edges including the edge and falling ones too |
| Polygon.CrossesSymmetric | http-root-dir/cgi-src/imagemap.c:337-344 | an edge counts the same in both directions, although the formula is not symmetric |
| Polygon.RotationLaw | http-root-dir/cgi-src/imagemap.c:306-362 | the first vertex listed does not matter |
| Polygon.ReversalLaw | http-root-dir/cgi-src/imagemap.c:306-362 | the direction of listing does not matter |
| Polygon.SplittingLaw | http-root-dir/cgi-src/imagemap.c:299-363 | cutting any vertex list along any chord: inside the whole is inside exactly one of the parts, for every point, so a shared edge is never claimed twice |
| Polygon.StraddlesEven | http-root-dir/cgi-src/imagemap.c:313-362 | a closed vertex list changes sides of every height an even number of times |
| Polygon.BoundingBox | http-root-dir/cgi-src/imagemap.c:313-362 | nothing outside the half-open bounding box is inside |
| Polygon.RectangleExact | http-root-dir/cgi-src/imagemap.c:299-363 | a rectangle holds exactly a half-open rectangle of points, so tiles hold each point once |
| Polygon.TriangleExact | http-root-dir/cgi-src/imagemap.c:299-363 | off the lines through its sides, a triangle of either orientation holds exactly its geometric interior |
| Polygon.FanLaw | http-root-dir/cgi-src/imagemap.c:299-363 | for every vertex list of two points or more, inside is inside an odd number of the triangles fanned out from the first vertex, for every point |
| Polygon.FanGeometry | http-root-dir/cgi-src/imagemap.c:299-363 | off the lines through the sides of those triangles, inside is being surrounded by an odd number of them |
| CStrings.WordAndRest | http-root-dir/cgi-src/util.c:9-20 | splitting loses nothing but the stop and strictly shortens a string that is not empty |
| CStrings.GetWord | http-root-dir/cgi-src/util.c:9-20 | the part before the first stop is moved out and the part after it shifted to the front, in place |
| CStrings.MakeWord | http-root-dir/cgi-src/util.c:22-35 | the same into new memory |
| CStrings.PlusToSpace | http-root-dir/cgi-src/util.c:85-89 | every plus becomes a space in place, and nothing else changes |
| CStrings.WithoutCaseBit | http-root-dir/cgi-src/util.c:67-69 | the mask 0xdf clears the bit that tells the cases of a letter apart, and no other bit |
| CStrings.X2COfHex | http-root-dir/cgi-src/util.c:64-71 | two hexadecimal digits of either case give back the byte they write, for all 256 bytes |
| CStrings.UnescapeUrl | http-root-dir/cgi-src/util.c:73-83 | the two-index loop leaves the decoded text in place, cut at a decoded NUL |
| Forms.DecodeNext | http-root-dir/cgi-src/query.c:45-48 | one field is split off, decoded and split at its first '=', and the query holds the rest |
| Forms.DecodeQuery | http-root-dir/cgi-src/query.c:43-49 | terminates, and the entries show the decoded fields of the query in order, each in buffers of its own |
| Forms.FMakeWord | http-root-dir/cgi-src/util.c:37-62 | reads one field from the stream and counts down, at the end of the stream keeping the byte that fgetc returns there |
| Forms.DecodePost | http-root-dir/cgi-src/post-query.c:45-51 | terminates, and the entries show the decoded fields of what the counter and the stream let through, for every CONTENT_LENGTH |
| Forms.PostIsGet | http-root-dir/cgi-src/post-query.c:45-51 | streaming and in-memory decoding give the same entries on every body without NUL whose length is CONTENT_LENGTH, empty fields and a trailing ampersand included |
| Forms.PostIsGetOf | http-root-dir/cgi-src/util.c:37-62 | for any other CONTENT_LENGTH the same entries as for the first bytes of the body, or, where there are not as many, for the body with the byte 255 that is stored at the end of the stream |
| Forms.TextDecodes | http-root-dir/cgi-src/util.c:64-89 | text written byte by byte in any legal way decodes to those bytes, after any prefix |
| Forms.CutIff | http-root-dir/cgi-src/query.c:48 | cutting at NUL and '=' gives back a name and value if and only if they have no NUL and the name no '=' |
| Forms.CutBareIff | http-root-dir/cgi-src/query.c:48 | without '=' the whole text is the name and the value is empty, if and only if it has neither NUL nor '=' |
| Forms.FieldDecodes | http-root-dir/cgi-src/query.c:46-48 | one written field, with '=' or without, decodes to what it says if and only if that is recoverable |
| Forms.FormRoundTrip | http-root-dir/cgi-src/query.c:43-49 | the form text of any list of fields, with '=' or without, decodes to as many entries, but for an empty field at the end, and an entry is the field written if and only if it has no NUL and no '=' in its name |
| Forms.PostRoundTrip | http-root-dir/cgi-src/post-query.c:43-51 | the same for a posted form with the right CONTENT_LENGTH |
| ShellEscape.Ind | http-root-dir/cgi-src/util.c:128-135 | the first place of a character, or -1 exactly if it is absent |
| ShellEscape.ShiftRight | http-root-dir/cgi-src/util.c:143-144 | the downward loop moves the rest of the buffer, its NUL included, one place to the right |
| ShellEscape.EscapeShellCmd | http-root-dir/cgi-src/util.c:137-150 | given room, the buffer ends up holding the escaped text, although the loop shifts the part it still has to read |
| ShellEscape.SpecialIff | http-root-dir/cgi-src/util.c:142 | the characters that are escaped are exactly those of the program's list |
| ShellEscape.EscapedAt | http-root-dir/cgi-src/util.c:141-150 | each byte is escaped by itself: a special one gets a backslash before it, another stays, wherever it stands |
| ShellEscape.EscapedLength | http-root-dir/cgi-src/util.c:141-150 | the text grows by one byte for each special character |
| ShellEscape.UnquoteEscaped | http-root-dir/cgi-src/util.c:137-150 | removing quoting backslashes restores the text, and every special in the result is the second half of a pair |
| ShellEscape.EscapedUnquote | http-root-dir/cgi-src/util.c:137-150 | every text quoted in this way is the escaped form of one text only |
| ByteStreams.ByteStream.GetC | src/tcp.cc:63-74 | takes one byte, or reports the end as the byte 255 |
| RequestReader.ReadLine | src/tcp.cc:84-94 | takes the bytes up to the first LF, byte 255 or end, and keeps an LF but not a byte 255 |
| RequestReader.Tokenize | src/server.cc:350-362 | appends exactly the maximal stretches without delimiter, in order |
| RequestReader.TokensOfSpread | src/server.cc:350-362 | tokens written down with any gaps of delimiters are found again, and no others |
| RequestReader.SpreadOfTokens | src/server.cc:350-362 | every text is its tokens spread by gaps of delimiters: tokenizing drops nothing else |
| RequestReader.ParseRequest | src/server.cc:363-389 | consumes exactly the head, the shortest prefix that stops or everything; the message body is the head without bytes 255; fails, leaving the body alone, exactly if the first line is empty |
| RequestReader.CleanHead | src/server.cc:384-387 | without the byte 255 the message body is the shortest prefix that ends in an empty line, or the whole stream |
| RequestReader.HeadStays | src/server.cc:384-387 | bytes after a complete head neither lengthen nor shorten it |
| RequestReader.StripTokens | src/server.cc:683-688 | every token that shows a CRLF before its first NUL loses its last two bytes, the others are unchanged |
| RequestReader.ReceiveRequest | src/server.cc:677-688 | what handle starts from: the head consumed and the tokens without the line end |
| RequestReader.RequestLineRoundTrip | src/server.cc:350-389 | method, URI and version of a rendered request line, with any runs of spaces between, come back if and only if the version has no NUL |
| RequestReader.AnyRequestLine | src/server.cc:350-389 | for a line of any tokens in any spacing, with CRLF or a lone LF: the tokens come back, a lone LF stays on the last one, so does a CRLF behind a NUL, and after a trailing space the line end is a token of its own, left empty if it was CRLF |
| ThreadPool.InitInv | src/server.cc:322-346 | the pool starts in the invariant, for any number of threads |
| ThreadPool.StepKeepsInv | src/server.cc:310-320 | every step of any worker, and every arrival, keeps the invariant |
| ThreadPool.PoolSafety | src/server.cc:310-347 | in every run the pool keeps its workers, the semaphore and the workers past it add up to one, so handle calls never overlap; arrivals are, in order, handled, at most one in flight, and pending; the log is serial |
| ThreadPool.PoolRefinesLinear | src/server.cc:208-218 | every step of the pool is a step of the one-at-a-time accept and handle loop, or invisible to it |
| ThreadPool.StepCounts | src/server.cc:311-318 | every worker step uses up one of the steps left |
| ThreadPool.Progress | src/server.cc:311-318 | some worker can step if and only if steps are left, in particular whenever a connection is pending; while none is past the semaphore, any of them can |
| ThreadPool.BoundedWaiting | src/server.cc:310-347 | whatever arrives meanwhile and in every schedule, once the workers have made the steps that were left, every connection that had arrived has been handled, in order |
| ThreadPool.EveryScheduleDrains | src/server.cc:310-347 | without further arrivals every schedule stops after exactly the steps left, and every connection that arrived has then been handled, in order |

## Left out

- Sockets, TLS, files, directory listings, CGI processes, dlopen, log and statistics files, and all response text: foreign calls and text building. A connection is a byte stream or a number in a queue.
- The rest of cpplint: its regular-expression checks, options and file handling. What the regular expressions of `Update` see in a line is recorded per line in `NestingModel.Line`. Its braces, semicolons and parentheses are those after its namespaces; whether a class head is accepted does not change them, as the pattern of a head admits none.
- The messages of `CheckEnd` and the indentation checks of `Update`: they report and change no nesting state.
- `last_line` and indentation of a class, and the answer of `InTemplateArgumentList` for it, are recorded with the line, since they depend on the whole file.
- `check_namespace_indentation`, which nothing in the modelled part reads.
- NestingHeap.NestingState.constructor: `previous_stack_top` starts as null, where the program starts with an empty list; both are false, and the first line replaces it.
- MatchLaws.InTemplateArgumentList: lines hold no newline character, which the pattern's final dot would not match.
- White space is the six ASCII characters; Python's `\s` and `strip` also know others.
- MatchLaws.GetTextInside: the regular-expression search that finds the start is a parameter.
- The alphabetical order of headers and the other checks of an include line (`cpplint.py:768-805`, `cpplint.py:4530-4585`): string comparison. The classification of a header is a parameter.
- Polygon.PointInPoly: coordinates are exact reals; rounding of doubles is not modelled. At least one vertex and a sentinel inside the array are required, as the program reads outside the array without them.
- CStrings.UnescapeUrl: every '%' is followed by two more bytes, since the program otherwise reads past the NUL. The digits may be any bytes, and chars are signed.
- CStrings.GetWord: the buffer for the word is required to be large enough, as the program checks nothing.
- Forms.FMakeWord: the growth of its buffer, including the byte written at its end before it is enlarged, is not modelled; the word is collected as a sequence and stored once.
- Forms.DecodeQuery: at most 10000 fields of less than 128 bytes, the sizes of the program's arrays. Forms.DecodePost has the same bound on the number of fields.
- ShellEscape.EscapeShellCmd: the buffer has room for the backslashes, as the program checks nothing.
- ShellEscape.Ind: searches a sequence, as its one caller here passes a constant string.
- Failing system calls and exceptions in `getc`, and requests with fewer than three tokens, which `handle` indexes without a check.
- ByteStreams.ByteStream.GetC: the same class serves a C stream and a socket, which has no end-of-file flag to look at. Chars are signed, so that the byte 255 equals EOF.
- RequestReader.Tokenize: positions are unbounded integers, with -1 for npos.
- Creation and failure of threads, `run_thread` and `run_fork`, and handlers that never return: the pool's workers are there from the start and each `handle` call ends.
- `phf.c`, `jj.c`, `jj-mod.c`, `change-passwd.c`, the circle and rectangle tests, and the trim helpers: the same decoding calls around fixed output, or one comparison.
