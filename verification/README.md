# Verified models of a Plan 9 tool set

This project models the stateful algorithms of a Plan 9 system in Dafny and proves what they
promise: the object files of the assemblers and what the linkers read back from them, the
assembler's preprocessor, the flood fill and the partial redraw of the paint program, the
ISO-2022-JP converter, and the search, path, table, cropping and cookie code of the browsers and
of the face cropper. `dafny verify dfyconfig.toml` checks everything.

Code that works by changing things is modelled that way: classes with fields, linked lists, arrays
and loops. Each such method is tied by its contract to a function of the old state or to the
promised property itself, and the theorems are about those.

## How the parts fit together

| modules | subject |
|---|---|
| `Bytes`, `Wrappers` | bytes, 32-bit words, C strings, missing values |
| `SymbolCache` | the circular symbol table of an object file, writer and reader |
| `ArmObject`, `ArmLink` | object files of 5a as 5l reads them |
| `X86Object`, `X86Link` | object files of 8a as 8l reads them |
| `InputStack` | the stack of buffers that makes one character stream |
| `MacroBody`, `MacroSource`, `MacroCall` | macro definitions as they are read and written, calls and expansion |
| `Directive`, `Conditional` | directive lines and nested conditions |
| `LineHistory` | global lines back to file lines |
| `PixelGraph`, `FloodFill`, `RectDiff` | paint |
| `Jis` | ISO-2022-JP |
| `Search`, `UrlPath`, `UrlCanon`, `TableWidth` | abaco |
| `CropSquare` | mug |
| `CookieOrder`, `CookieJar`, `CookieStore` | webcookies |

## Where the code does not do what it should

The code is modelled as it is. Where it breaks the law it is there for, a lemma shows an input on
which it does, and another lemma says exactly when the law holds.

- **A second END.** 5l clears its symbol table at an END, but the assembler keeps its cache, so a
  symbol used on both sides of an END in the source is lost (`ArmLink.EndLosesSymbol`). The round
  trip holds if and only if no operand hits a slot announced before an END
  (`ArmLink.LinkerRecovers`); the END that the assembler itself appends is harmless
  (`ArmLink.RoundTrip`). The same holds of 8a and 8l (`X86Link.LinkerRecovers`).
- **Right-hand diagonals.** The fill's scan to the right runs even where the pixel it starts from
  does not match, so the filled region is closed under right-hand diagonals as well as the four
  neighbours, and depends on which end of a diagonal is clicked (`FloodFill.DiagonalLeaks`).
- **`#` in a macro with an empty parameter list**, `F()`, is not doubled by the definition but is
  interpreted by the expansion (`MacroBody.HashIsLost`, `MacroBody.CompileThenExpand`). A macro
  without a list is copied and keeps its `#`.
- **`f()` with one parameter** is a mismatch, not an empty argument (`MacroCall.CallRoundTrip`).
- **A character behind a comment** in a condition line is lost (`Directive.BlockCommentTrails`).
- **Comments in arguments** are closed at their first slash behind a star if and only if the number
  of stars there is odd (`MacroCall.CommentClosesIff`, `MacroCall.TwoStarsStayOpen`).
- **A newline pushed back** by `unget` is uncounted, and not counted again when it is read again
  (`InputStack.Input.Reread`). Bytes from 128 up may arrive negative, and 254 and 255 are then taken
  for other things (`InputStack.Input.Drain`, `InputStack.Input.Reread`).
- **Outer files in messages.** `prfile` prints for an outer file its own newlines plus those of
  the files still open inside it, and lines are lost beyond HISTSZ nested files
  (`LineHistory.OwnLineIff`).
- **Escape sequences as text.** Runes that spell a shift sequence are not quoted by the
  ISO-2022-JP encoder (`Jis.RoundTrip` is an equivalence), and output whose last rune is not ASCII
  does not end in ASCII, as RFC 1468 requires (`Jis.EndsInAscii`).
- **Search from the end.** With the insertion point at the end of the text a search for a missing
  pattern may never return. It returns if and only if the last rune is not the pattern's first and
  no window starts at it (`Search.ReturnsIff`).
- **The host of a URL** is treated like a directory, so `host/../a` becomes `a`; it survives if and
  only if no prefix of the path climbs above it (`UrlPath.HostSurvivesIff`).
- **Spanning cells** are widened for in proportion, which can leave a column with a minimum above
  its maximum; it is then squeezed below its minimum (`TableWidth.SpanNarrowsColumn`,
  `TableWidth.NarrowedIff`).
- **The bottom side** of the crop square tests the wrong sign and ignores a drag that would double
  the square (`CropSquare.BottomIgnoresDoubling`).
- **Half pixels.** Dragging a side in and out again moves the crop square if the way was odd
  (`CropSquare.InAndOut`), although the comment in the source says the half is divided equally.
- **Re-adding a deleted cookie** before the jar is purged leaves it deleted
  (`CookieJar.AddAfterDeleteIsLost`); the same rule is what keeps a deleted cookie from coming
  back out of the cookie file (`CookieJar.ListedUnlessDeleted`). A lookup shows deleted cookies
  that have not been purged (`CookieJar.FoundLive`).
- **Domains beyond ASCII.** `cistrcmp` returns a signed character where one string ends, so two
  cookies can each sort after the other (`CookieOrder.CookieCmpFlips`).

## Model

| member | source | states |
|---|---|---|
| Bytes.WordRoundTrip | assemblers/5a/obj.c:6-96 | four bytes written low first and read back give any integer, of either sign, modulo 2^32 |
| SymbolCache.SettleHolds | assemblers/5a/obj.c:177-184 | from every cache state both operands hold their own slots at once, indices are equal exactly when both refer to the same symbol and kind, and a retry is never retried |
| SymbolCache.RetryTestsAgree | assemblers/8a/lex.c:893-951 | the x86 retry test and the ARM one differ but lead to the same table, indices and records |
| SymbolCache.ReplayAppend | linkers/5l/obj.c:335-423 | replaying records in two portions is replaying them at once |
| SymbolCache.TouchAgrees | assemblers/5a/obj.c:122-149 | announcing a symbol, with any eviction, keeps writer and reader in agreement |
| SymbolCache.SettleAgrees | assemblers/5a/obj.c:154-202 | so does an instruction with its retry |
| SymbolCache.ResolvedIffLive | linkers/5l/obj.c:49-178 | a slot resolves to the meant symbol if and only if it was announced since the last END |
| SymbolCache.SettleResolves | assemblers/5a/obj.c:154-202 | a reader that only replays ANAME records resolves both operands of an instruction if and only if neither is stale |
| SymbolCache.EndLastIsStaleFree | assemblers/5a/main.c:206-212 | a program whose only END is the last instruction never hits a stale slot |
| ArmLink.AdjustedSameAction | linkers/5l/codegen.c:129-167 | a branch written with a condition is one that 5l generates with exactly that condition field, or nothing if it is never; every other instruction keeps opcode and bits |
| ArmObject.AdjustedBranchesDiffer | assemblers/5a/obj.c:99-170 | folding a branch's condition into its opcode loses nothing: branches that differ in the condition stay different |
| ArmObject.EmitAppend | assemblers/5a/obj.c:154-202 | the bytes of a longer program are those of the shorter one followed by those of one more instruction from the cache it left |
| ArmObject.Assembler.constructor | assemblers/as/lexbody.c:482-509 | the state at the start of a pass |
| ArmObject.Assembler.SymIdxOfSymOpt | assemblers/5a/obj.c:122-149 | table, counter, hints, index and output after one reference |
| ArmObject.Assembler.PlaceBoth | assemblers/5a/obj.c:177-184 | the goto loop ends after at most one retry, in the settled state with the settled records written |
| ArmObject.Assembler.OutCode | assemblers/5a/obj.c:154-202 | one instruction appends exactly its records, moves pc except for data, and fails exactly on an unknown operand type; what the records mean is stated by `ArmLink.Assemble` |
| ArmLink.OpdRoundTrip | linkers/5l/obj.c:49-178 | an operand of any known type reads back with its register, symbol, kind and 32-bit value, and its length is known |
| ArmLink.InstrRoundTrip | linkers/5l/obj.c:236-460 | so does an instruction with its condition, register and line |
| ArmLink.NameRoundTrip | linkers/5l/obj.c:335-423 | an ANAME record with its NUL-terminated name reads back |
| ArmLink.NamesRoundTrip | linkers/5l/obj.c:335-423 | loading a run of ANAME records is replaying them |
| ArmLink.LoadFirst | linkers/5l/obj.c:236-460 | the first instruction is loaded against the table its own records leave, and an END clears the table and starts a new version |
| ArmLink.LinkerRecovers | linkers/5l/obj.c:236-606 | for every program and cache state the linker reads back the program with its symbols inline if and only if no operand hits a slot announced before an END |
| ArmLink.RoundTrip | assemblers/5a/obj.c:154-202 | for every program finished with its one END, of any length and with any evictions, and whatever the records in front of it left in the table, the linker recovers every symbol, operand and line |
| ArmLink.MeantSameOperand | linkers/5l/obj.c:366-373 | said of the operand as written: type, register, value, and a symbol that is private to the file if and only if its kind is N_INTERN |
| ArmLink.InlineSame | linkers/5l/obj.c:236-606 | so it is for every instruction of a program, each END starting a new version |
| ArmLink.EndLosesSymbol | assemblers/5a/a.y:202 | a call before and after an END statement is read back wrongly |
| ArmLink.Assemble | assemblers/5a/main.c:206-212 | the running second pass fails exactly on an unknown operand; otherwise the linker, from any table that earlier records leave, reads back instructions with the action, operands, symbols and line that were written |
| X86Object.PackFlags | assemblers/8a/lex.c:791-875 | seven flags fit one byte and unpack to themselves |
| X86Object.Assembler.Find | assemblers/8a/lex.c:893-951 | table, index and record after one reference, and whether a record was written |
| X86Object.Assembler.PlaceBoth | assemblers/8a/lex.c:893-951 | the retry loop ends in the same settled state as the ARM one |
| X86Object.Assembler.OutCode | assemblers/8a/lex.c:879-965 | one instruction appends exactly its records, and pc moves except for data; what the records mean is stated by `X86Link.Assemble` |
| X86Object.EmitAppend | assemblers/8a/lex.c:879-965 | the bytes of a longer program are those of the shorter one followed by those of one more instruction |
| X86Link.OpdRoundTrip | linkers/8l/obj.c:761-835 | an operand, with any flags, reads back with type, index, scale, offsets, constant and symbol |
| X86Link.InstrRoundTrip | linkers/8l/obj.c:1060-1227 | so does an instruction with its two-byte opcode and its line |
| X86Link.NamesRoundTrip | linkers/8l/obj.c:1060-1227 | loading a run of ANAME records is replaying them |
| X86Link.Const2Misread | linkers/8l/obj.c:761-835 | 8l takes a D_CONST2 operand, which the format has and the assembler never builds, for one without a type |
| X86Link.ReaderRecovers | linkers/8l/obj.c:1060-1363 | for every program, of the format as a whole, the reader recovers it if and only if no operand is stale and, for 8l, none is a D_CONST2 |
| X86Link.LinkerRecovers | linkers/8l/obj.c:1060-1363 | for every program the grammar of 8a can build, 8l recovers it if and only if no operand is stale |
| X86Link.RoundTrip | assemblers/8a/lex.c:879-965 | so it recovers every program finished with its one END, from any table |
| X86Link.MeantSameOperand | linkers/8l/obj.c:1164-1171 | said of the operand as written: all fields, and a symbol that is private to the file if and only if the operand, or the address it is taken of, is D_STATIC |
| X86Link.InlineSame | linkers/8l/obj.c:1060-1363 | so it is for every instruction of a program, each END starting a new version |
| X86Link.Assemble | assemblers/8a/lex.c:762-770 | what the running second pass writes is read back as instructions with the opcode, operands, symbols and line that were written |
| X86Link.Const2NeedsFullReader | assemblers/8a/lex.c:815-845 | the dead case of the operand writer: what it would write is read back by a reader that follows all flags, and not by 8l |
| InputStack.Input.NewIo | assemblers/as/lexbody.c:55-80 | a buffer is reserved, reused if one is free, and refused exactly when none is free and a thousand exist; no buffer is lost or shared |
| InputStack.Input.PushIo | assemblers/as/lexbody.c:35-50 | the read position is saved in the top of the stack; it fails exactly on an empty stack |
| InputStack.Input.NewFile | assemblers/as/lexbody.c:86-109 | the file's text goes in front of everything still to be read; it fails exactly on a file that cannot be opened |
| InputStack.Input.PushExpansion | assemblers/5a/lex.c:409-426 | the expansion and then the character read ahead go in front of everything still to be read |
| InputStack.Input.Filbuf | assemblers/as/lexbody.c:513-567 | whatever blocks are read and buffers popped, the next byte of the stream is delivered, or EOF exactly when there is none; the two lists stay disjoint and acyclic |
| InputStack.Input.GETC | assemblers/as/aa.h:56-58 | the next byte of the stream; negative exactly for a byte above 127 that `filbuf` delivers |
| InputStack.Input.Drain | assemblers/as/lexbody.c:513-567 | reading to EOF delivers the unread remainders from top to bottom, for any nesting and block sizes: each byte as it is or, from 128 up, possibly less 256, and all of them unless a byte 255 is taken for EOF |
| InputStack.Input.GetC | assemblers/as/lexbody.c:370-391 | a pushed-back character first, else the stream; newlines count only when they come from the stream |
| InputStack.Input.Reread | assemblers/as/lexbody.c:370-415 | a character pushed back by `unget` and read again is consumed once but a newline is not counted; which bytes out of `filbuf` do not come back |
| MacroBody.ScanLexical | assemblers/as/macbody.c:285-394 | what a definition scans is names and characters, without a newline |
| MacroBody.ScanRender | assemblers/as/macbody.c:285-394 | a body without quotes, comments and backslashes scans to the elements it spells |
| MacroBody.ExpandIsSubst | assemblers/as/macbody.c:540-564 | interpreting an encoded body replaces every parameter by its argument and leaves all else alone |
| MacroBody.HashIsLost | assemblers/as/macbody.c:380-384 | an unencoded body expands to itself if and only if it has no `#` |
| MacroBody.CompileThenExpand | assemblers/as/macbody.c:285-435 | compiling a body and expanding it is substitution if and only if the macro is not one with an empty parameter list and a `#` in its body |
| MacroBody.ScanEndsWithLine | assemblers/as/macbody.c:285-394 | a body that its line does not continue ends with the line, whatever quotes and comments are in it |
| MacroSource.ScanPieces | assemblers/as/macbody.c:285-394 | a body as it is written, over as many lines as backslashes join, with quoted text, escapes and comments of both kinds, scans to the elements of its pieces, and reading goes on behind its last line |
| MacroSource.ElemsSpellVisible | assemblers/as/macbody.c:285-394 | those spell the joined text without the comments |
| MacroSource.ScanPiece | assemblers/as/macbody.c:287-386 | one round takes one piece: a name, a character, a quote, an escape, a comment or a joint |
| MacroBody.ExpandStored | assemblers/as/macbody.c:427-435 | a macro without a parameter list is copied, any other interpreted |
| MacroBody.ExpandHash | assemblers/as/macbody.c:551-560 | a `#` before a character that names no argument takes it away, and one at the end is an error |
| MacroBody.Definer.CompileBody | assemblers/as/macbody.c:285-403 | the loop stores the encoding of the scanned body and stops behind its line, or at an end of file behind a plain character; any other end of file is the exit. What bodies scan to is stated by `MacroSource.ScanPieces` |
| MacroBody.Definer.Quoted | assemblers/as/macbody.c:312-318 | one round inside quotes |
| MacroBody.Definer.Slash | assemblers/as/macbody.c:327-359 | comments leave no trace; a lone slash stays |
| MacroBody.Definer.Continuation | assemblers/as/macbody.c:361-377 | a continued line is joined |
| MacroBody.Definer.Name | assemblers/as/macbody.c:288-311 | a name is taken whole and encoded as the first parameter it equals |
| MacroBody.ExpandBody | assemblers/as/macbody.c:540-564 | the loop computes the interpretation |
| MacroCall.Across | assemblers/as/macbody.c:451-532 | an argument with balanced parentheses and quotes is read to its end whatever room is left |
| MacroCall.TakeAll | assemblers/as/macbody.c:445-534 | a list of closed arguments is split at its own commas, or there is too much text |
| MacroCall.CallRoundTrip | assemblers/as/macbody.c:440-539 | a call written out reads back as its arguments if and only if it is not a single empty one and the text fits |
| MacroCall.NestedCallIsClosed | assemblers/as/macbody.c:510-531 | a call inside an argument is part of it, commas and all |
| MacroCall.QuotedIsClosed | assemblers/as/macbody.c:455-486 | so is quoted text, whatever commas, parentheses and slashes are in it |
| MacroCall.CommentIsBlank | assemblers/as/macbody.c:487-500 | a closed comment is a blank |
| MacroCall.LineCommentIsBlank | assemblers/as/macbody.c:501-504 | so is a line comment with its newline |
| MacroCall.NewlineIsBlank | assemblers/as/macbody.c:525-527 | and a newline |
| MacroCall.BlanksBeforeCall | assemblers/as/macbody.c:440-442 | blanks before the parenthesis do not matter |
| MacroCall.WrongNumber | assemblers/as/macbody.c:511-539 | a call with another number of arguments than parameters is a mismatch |
| MacroCall.CallMeansSubstitution | assemblers/as/macbody.c:420-579 | for macros with a parameter list, variadic or not: the call reads as its arguments, reading goes on behind it, and the expansion is substitution if and only if there are parameters or no `#` |
| MacroCall.SkipRemarkExact | assemblers/as/macbody.c:491-498 | a comment is closed at the first slash behind an odd number of stars, and nowhere else |
| MacroCall.CommentClosesIff | assemblers/as/macbody.c:491-498 | so it is closed at its first slash behind a star if and only if the number of stars there is odd |
| MacroCall.TwoStarsStayOpen | assemblers/as/macbody.c:491-498 | the smallest comment that is not closed there |
| MacroCall.Caller.Quoted | assemblers/as/macbody.c:455-486 | quoted text is taken whole, or the call fails as specified |
| MacroCall.Caller.Round | assemblers/as/macbody.c:451-532 | one round goes on in the specified state or ends with the specified outcome |
| MacroCall.Caller.ReadCall | assemblers/as/macbody.c:440-539 | the loops compute the specified outcome of a call |
| Directive.GetSymInLine | assemblers/as/macbody.c:38-65 | a symbol is read within its line, whatever follows |
| Directive.GetComInLine | assemblers/as/macbody.c:92-129 | blanks and comments behind a condition take the line to its end and no further |
| Directive.BlockCommentTrails | assemblers/as/macbody.c:97-127 | a comment trails if nothing follows it, and otherwise exactly if what follows the next character does, which is lost |
| Directive.OtherTextIsNoTrail | assemblers/as/macbody.c:100-109 | other text does not trail |
| Directive.DefHeadInLine | assemblers/as/macbody.c:248-281 | an accepted name and parameter list are read within their line |
| Directive.MacDefInLine | assemblers/as/macbody.c:239-416 | a definition that is accepted and not continued takes its line and no more, and stores a macro under its name |
| Directive.DefinesObject | assemblers/as/macbody.c:248-281 | a name with any body that does not run into it is accepted |
| Directive.DefinesFunction | assemblers/as/macbody.c:256-278 | so is a name with up to twenty-five parameters, blanks around them, and any body |
| Directive.ParamsDots | assemblers/as/macbody.c:70-88 | dots are accepted as the last parameter, under the name `__VA_ARGS__`, and nothing behind them |
| Directive.TooManyParams | assemblers/as/macbody.c:265-268 | a twenty-sixth parameter is refused |
| Directive.StoresObject | assemblers/as/macbody.c:239-403 | a definition without a list, over one line or several, stores the compiled elements of its body and takes exactly its lines |
| Directive.StoresFunction | assemblers/as/macbody.c:239-403 | so does one with parameters |
| Conditional.SkipText | assemblers/as/macbody.c:776-811 | a line that does not start with `#` is skipped without effect |
| Conditional.SkipRender | assemblers/as/macbody.c:776-811 | skipping passes over any well-nested source, at any depth, whatever it defines and however its directives are indented and followed |
| Conditional.RunRender | assemblers/as/macbody.c:757-812 | a well-nested source in front of any text delivers its active lines and leaves its definitions |
| Conditional.SourceDeliversActive | assemblers/as/macbody.c:757-812 | for every well-nested source, with indented directives, definitions with parameters and bodies, and trailing text and comments, the lines that reach the lexer are exactly those whose enclosing conditions all hold where they stand |
| Conditional.NullDirective | assemblers/as/macbody.c:196-200 | a `#` alone is dropped |
| Conditional.NamelessCondition | assemblers/as/macbody.c:766-768 | a condition without a name is dropped |
| Conditional.CrowdedCondition | assemblers/as/macbody.c:769-770 | so is one with other text behind its name |
| Conditional.Preprocessor.SkipGroup | assemblers/as/macbody.c:776-811 | the skipping loop stops where the skipping function says |
| Conditional.Preprocessor.GetSymbol | assemblers/as/macbody.c:38-65 | the loop reads the longest symbol behind blanks |
| Conditional.Preprocessor.NextChar | assemblers/as/macbody.c:92-129 | the loop reads over blanks and comments |
| Conditional.Preprocessor.Definition | assemblers/as/macbody.c:239-416 | name, parameters and body are read as specified, and the compiled macro is stored under the name exactly if the head is accepted |
| Conditional.Preprocessor.EnterIf | assemblers/as/macbody.c:757-812 | a condition reads on or skips as specified |
| Conditional.Preprocessor.Directive | assemblers/as/macbody.c:190-232 | definitions change the set of macros, conditions the place to read on |
| Conditional.Preprocessor.Preprocess | assemblers/as/macbody.c:757-812 | running over the text of any well-nested source delivers its active lines in order and its final macros |
| LineHistory.History.LineHist | assemblers/as/hist.c:6-36 | the list stays linked from `hist` to `ehist` without repetition and gains one entry at its end |
| LineHistory.ApplyEntry | assemblers/as/hist.c:51-85 | one entry changes array and depth as the replay does, which `TracksAll` pins down |
| LineHistory.History.PrFile | assemblers/as/hist.c:41-92 | walking the list prints file and line of every replayed entry, at most HISTSZ |
| LineHistory.TracksAll | assemblers/as/hist.c:41-92 | over every well-bracketed run the replay knows the depth and, up to HISTSZ, the name of every open file and the newlines of it and those inside it |
| LineHistory.UpToReplays | assemblers/as/hist.c:51-52 | replaying the history for an earlier line is replaying what there was when that line ended |
| LineHistory.PrintedLines | assemblers/as/hist.c:87-91 | for every line so far, the file printed at each depth is the one open there when the line ended, and its line is one plus the newlines read until then |
| LineHistory.LineDirective | assemblers/as/hist.c:60-71 | a `#line` entry prints the file and the line it names, and a later one takes its place |
| LineHistory.OwnLineIff | assemblers/as/hist.c:41-92 | for every line so far, a file gets its own line if and only if no file open inside it had read a newline and none was lost beyond HISTSZ; so the innermost one does |
| FloodFill.SetOneBit | applications/misc/paint.c:340-346 | setting a bit of the packed mask sets that bit and no other |
| FloodFill.Mask.Set | applications/misc/paint.c:340-346 | the mask gains one pixel |
| FloodFill.Mask.Get | applications/misc/paint.c:326-329 | a bit is set exactly for a marked pixel |
| FloodFill.Fill.MarkLeft | applications/misc/paint.c:337-341 | the run to the left is marked up to the first mismatch |
| FloodFill.Fill.MarkRight | applications/misc/paint.c:342-346 | the run to the right is marked, also from a pixel that does not match |
| FloodFill.Fill.FillScan | applications/misc/paint.c:318-375 | the recursion ends, keeps the cached row right and the marks reachable, and leaves nothing it marked unfinished |
| FloodFill.Fill.VisitRow | applications/misc/paint.c:348-374 | every pixel beside the run has been scanned |
| FloodFill.MarksAreReach | applications/misc/paint.c:318-375 | the marks are exactly the pixels that walks over four neighbours and right-hand diagonals reach from the seed |
| FloodFill.FloodFill | applications/misc/paint.c:377-423 | exactly the reachable pixels turn into ink; a seed outside changes nothing |
| FloodFill.Sandwich | applications/misc/paint.c:318-375 | the region lies between the 4-connected and the 8-connected one |
| FloodFill.FourConnectedIffNoLeak | applications/misc/paint.c:342-346 | it is the 4-connected one if and only if no right-hand diagonal leads out of that |
| FloodFill.DiagonalLeaks | applications/misc/paint.c:342-346 | a two by two picture where the fill crosses a diagonal in one direction only |
| RectDiff.GenDrawDiff | applications/misc/paint.c:72-126 | every pixel of `bot` outside `top` is drawn once and no other, with the source and mask pixels it has in a draw of all of `bot` |
| Jis.TabInit | browsers/tcs/conv_jis.c:399-415 | the inverse table gives the last kuten index of every rune |
| Jis.EncodeSplit | browsers/tcs/conv_jis.c:419-461 | splitting the runes into calls changes no byte |
| Jis.Encoder.JisjisOut | browsers/tcs/conv_jis.c:419-461 | one call writes the encoding and leaves its shift state for the next |
| Jis.DecodeSplit | browsers/tcs/conv_jis.c:259-336 | splitting the bytes into blocks changes no rune |
| Jis.StepEmitsAtMostThree | browsers/tcs/conv_jis.c:259-367 | a byte emits at most three runes, which the flush threshold leaves room for |
| Jis.TextBehindShift | browsers/tcs/conv_jis.c:272-306 | text behind `ESC ( J` is JIS-Roman with yen sign and macron, behind `ESC ( B` and `ESC ( H` ASCII |
| Jis.KanjiShift | browsers/tcs/conv_jis.c:295-298 | `ESC $ @` and `ESC $ B` both lead into the two-byte set |
| Jis.PairExact | browsers/tcs/conv_jis.c:319-333 | two bytes are the rune of their row and column; what has none is marked or dropped |
| Jis.HighBytes | browsers/tcs/conv_jis.c:308-334 | bytes with the top bit pair up in any set, and one followed by a byte without it stands for itself |
| Jis.CutShort | browsers/tcs/conv_jis.c:309-313 | a character cut short by the end of the input is completed with the first column |
| Jis.UnmappedRune | browsers/tcs/conv_jis.c:450-455 | a rune without a code is marked or dropped, and the shift state stays |
| Jis.RuneExact | browsers/tcs/conv_jis.c:259-336 | a decoder in step delivers a rune behind what it held, or the rune completes the text of a shift sequence |
| Jis.RuneCount | browsers/tcs/conv_jis.c:259-336 | no decoder, in step or not, delivers more runes than it was given plus a bounded excess |
| Jis.TotalCount | browsers/tcs/conv_jis.c:259-336 | nor does it over a whole text |
| Jis.InStepRoundTrip | browsers/tcs/conv_jis.c:259-461 | from any state in step the text comes back, or fewer runes do |
| Jis.RoundTrip | browsers/tcs/conv_jis.c:259-461 | for every sequence of mappable runes decoding inverts encoding if and only if the runes do not spell a shift sequence |
| Jis.EndsInAscii | browsers/tcs/conv_jis.c:419-461 | the output ends in ASCII if and only if the last rune is ASCII |
| Jis.Decoder.Put | browsers/tcs/conv_jis.c:259-336 | one call writes its runes into the buffer without overflow |
| Jis.Decoder.DoIn | browsers/tcs/conv_jis.c:338-367 | however the input is cut into blocks, the runes handed on are those of the whole input |
| Search.RoundProgress | browsers/abaco/exec.c:398-445 | every round finds the first occurrence in cyclic order, proves there is none, or moves on without passing one |
| Search.WindowStep | browsers/abaco/exec.c:405-427 | a round stays in its window, goes on to the next one, or ends at the end of the text |
| Search.StartsAtLastIff | browsers/abaco/exec.c:419-427 | if the pattern's first rune does not occur, a window starts at the last rune exactly when the text is one longer than a multiple of the window |
| Search.DoomedForever | browsers/abaco/exec.c:398-445 | from the end of the text, the search for an absent pattern that compares the last rune goes on for any number of rounds |
| Search.ReturnsIff | browsers/abaco/exec.c:381-448 | the search returns if and only if it does not start at the end, the pattern occurs, or the last rune is neither the pattern's first nor the start of a window |
| Search.Text.Find | browsers/abaco/exec.c:381-448 | whenever the search returns: true if and only if the pattern occurs and fits; then the first occurrence in cyclic order is selected, else the selection stays |
| Search.Text.LookOnce | browsers/abaco/exec.c:398-445 | one round on the buffer does what the round on the text does, and the buffer still holds the text at the position |
| UrlPath.FilterNormal | browsers/abaco/urls.c:155-171 | no dot, no empty component but the last, and dot-dot only as a prefix |
| UrlPath.FilterFixesNormal | browsers/abaco/urls.c:155-171 | a path in that form passes unchanged |
| UrlPath.FilterKeepsLast | browsers/abaco/urls.c:155-171 | the last component is empty afterwards exactly when it was before, so a final slash stays |
| UrlPath.SplitJoin | browsers/abaco/urls.c:140-182 | joining and splitting again gives the components back |
| UrlPath.CanonIsNormal | browsers/abaco/urls.c:132-184 | every result is in that form and rooted exactly when the path was |
| UrlPath.CanonIdempotent | browsers/abaco/urls.c:132-184 | canonicalising twice is canonicalising once |
| UrlPath.CanonKeepsPlace | browsers/abaco/urls.c:132-184 | the result leads to the same place, levels up and names down, as the path |
| UrlPath.HostSurvivesIff | browsers/abaco/urls.c:132-184 | the first component, the host, survives if and only if no prefix of the rest climbs above it |
| UrlCanon.Cut | browsers/abaco/urls.c:140-154 | slashes become NULs and the offsets of all components are listed |
| UrlCanon.FilterComps | browsers/abaco/urls.c:159-171 | compacting with two indices leaves the filtered components, in order and apart |
| UrlCanon.CopyPart | browsers/abaco/urls.c:179 | a component is copied down without overwriting what is not yet read |
| UrlCanon.Rebuild | browsers/abaco/urls.c:172-182 | the name is rebuilt over itself as the joined components, never ahead of an unread one |
| UrlCanon.UrlCanon | browsers/abaco/urls.c:132-184 | the buffer ends up holding the canonical path, which is not longer than the path |
| TableWidth.SharesAtMost | browsers/abaco/tabs.c:153-164 | all shares together are at most the missing width |
| TableWidth.SharesAtLeast | browsers/abaco/tabs.c:153-164 | and at least that but for one percent and one pixel a column |
| TableWidth.ShareExact | browsers/abaco/tabs.c:157-163 | a share is the whole part of as many hundredths as the column has whole percents |
| TableWidth.WidenedBound | browsers/abaco/tabs.c:138-165 | widening for a cell shrinks no column, touches only spanned ones, never gives them more than is missing, and falls short by at most one percent and one pixel a column |
| TableWidth.CellGetsWidth | browsers/abaco/tabs.c:79-96 | so a spanning cell that was too narrow gets the width it asks for, spacing and separators included, and no more, but for the rounding |
| TableWidth.LastCellSatisfied | browsers/abaco/tabs.c:138-165 | cells are widened for in their order, so the last spanning one always gets its width |
| TableWidth.ColumnIsWidestAsk | browsers/abaco/tabs.c:179-189 | a column is as wide as the most that a cell of its own asks for, a width from its tag counting but never below its minimum |
| TableWidth.SqueezedFits | browsers/abaco/tabs.c:201-212 | squeezed widths lie between minimum and maximum and miss the width by less than one per column |
| TableWidth.NarrowedIff | browsers/abaco/tabs.c:206-210 | exactly which columns are squeezed below their minimum |
| TableWidth.LaidFits | browsers/abaco/tabs.c:169-218 | bounds on every width and on the total in all cases, whenever no column has a minimum above its maximum |
| TableWidth.SingleColumns | browsers/abaco/tabs.c:179-191 | without spanning cells none has |
| TableWidth.SpanNarrowsColumn | browsers/abaco/tabs.c:130-166 | a table of three cells whose second column is laid out narrower than its minimum |
| TableWidth.GetWidth | browsers/abaco/tabs.c:117-128 | the total of an array of widths |
| TableWidth.Table.FixCols | browsers/abaco/tabs.c:130-166 | the loop over the cells widens for each of them in turn |
| TableWidth.Table.Lay | browsers/abaco/tabs.c:169-218 | the columns get the widths laid out for the measured minima and maxima, and the total is returned |
| CropSquare.Follow | applications/todo/mug.c:634-642 | the other two sides follow a moved one, off centre by at most the lost half |
| CropSquare.Cropper.Move | applications/todo/mug.c:601-749 | in all nine regions and for both toggles the selection stays a square of side at least three inside the picture; the opposite side or corner stays, the side grows or shrinks as the mouse pulls as far as there is room, the middle moves it, the toggle turns with every drag of a side that is not dropped at once, and the result says whether anything changed |
| CropSquare.Cropper.MoveTop | applications/todo/mug.c:620-643 | the top side follows the mouse within the room of three sides; the other two follow centred but for the half that the toggle assigns |
| CropSquare.Cropper.MoveBot | applications/todo/mug.c:713-732 | the same for the bottom side, which ignores a drag that would double the square |
| CropSquare.Cropper.MoveTopLeft | applications/todo/mug.c:611-619 | the corner follows the mean of both mouse coordinates within the room of its sides |
| CropSquare.Cropper.MoveMiddle | applications/todo/mug.c:673-683 | the square moves as it is, as far as the picture goes |
| CropSquare.BottomIgnoresDoubling | applications/todo/mug.c:713-732 | with room all round the top side can be pulled out by the whole side and the bottom side cannot |
| CropSquare.Cropper.Drags | applications/todo/mug.c:601-749 | so it does over every sequence of drags |
| CropSquare.InAndOut | applications/todo/mug.c:634-642 | a side dragged there and back restores the square if and only if the way was even |
| CropSquare.CellExact | applications/todo/mug.c:751-785 | a point is in the one region its coordinates select, and in none outside the square |
| CropSquare.RList | applications/todo/mug.c:751-785 | the nine rectangles partition the square, and all can be hit if and only if both sides are at least four |
| CookieOrder.CookieCmpZero | browsers/misc/webcookies.c:155-169 | cookies compare equal exactly when name, case-folded domain and path are the same |
| CookieOrder.ExactCmpZero | browsers/misc/webcookies.c:173-210 | exactly equal means equal in everything but flags and the case of the domain |
| CookieOrder.CookieCmpFlips | browsers/misc/webcookies.c:155-169 | exactly when swapping two cookies turns the comparison round |
| CookieOrder.CookieCmpOrder | browsers/misc/webcookies.c:148-169 | with ASCII domains the order is by name, folded domain, longer path first, then path, as section 4.3.4 of RFC 2109 wants |
| CookieOrder.LongerPathFirst | browsers/misc/webcookies.c:164-165 | with any domains the longer path comes first |
| CookieOrder.CookieCmpTransitive | browsers/misc/webcookies.c:155-169 | with ASCII domains the comparison is transitive |
| CookieJar.AddedCopy | browsers/misc/webcookies.c:267-278 | adding a cookie of which any copy is there changes nothing but a mark |
| CookieJar.AddedSettled | browsers/misc/webcookies.c:254-288 | adding keeps the jar's invariant |
| CookieJar.IncompleteIgnored | browsers/misc/webcookies.c:259-262 | a cookie without name, value, domain or path is not added |
| CookieJar.ExpiredExact | browsers/misc/webcookies.c:372-377 | expiry deletes exactly what has expired and, at the exit, what lives until then |
| CookieJar.AddedInForce | browsers/misc/webcookies.c:254-288 | an added cookie is in force if and only if no deleted copy of it is in the jar |
| CookieJar.AddAfterDeleteIsLost | browsers/misc/webcookies.c:267-278 | a cookie set again after it was deleted stays deleted |
| CookieJar.PurgedExact | browsers/misc/webcookies.c:292-304 | the purge keeps exactly the undeleted cookies, as a multiset |
| CookieJar.PurgedSettled | browsers/misc/webcookies.c:292-304 | it keeps the jar's invariant although it moves cookies |
| CookieJar.AddedAllShape | browsers/misc/webcookies.c:421-435 | what adding a whole list does to every cookie of the jar, and which cookies are new |
| CookieJar.MergedExact | browsers/misc/webcookies.c:421-440 | after a merge a cookie is gone exactly if it was deleted, is replaced by a line the jar has no copy of, or was marked and not listed; the news follow |
| CookieJar.ListedUnlessDeleted | browsers/misc/webcookies.c:421-440 | a listed cookie is in force afterwards if and only if no deleted copy was in the jar |
| CookieJar.EditedIsListed | browsers/misc/webcookies.c:1236-1248 | after the whole list is rewritten nothing else is in force |
| CookieJar.RunSettled | browsers/misc/webcookies.c:254-379 | over every run of adds, deletes, expiries, purges and merges no two undeleted cookies share a key, as section 4.3.3 of RFC 2109 wants |
| CookieJar.FoundExact | browsers/misc/webcookies.c:583-594 | a lookup yields exactly the matching cookies in order |
| CookieJar.FoundLive | browsers/misc/webcookies.c:583-594 | all of them undeleted if and only if no deleted cookie matches |
| CookieStore.Jar.Delete | browsers/misc/webcookies.c:240-250 | one cookie is marked deleted and the jar dirty |
| CookieStore.Jar.Add | browsers/misc/webcookies.c:254-288 | the array after an add, grown if full; dirty unless only a mark changed; an incomplete cookie is ignored |
| CookieStore.Jar.Expire | browsers/misc/webcookies.c:364-379 | exactly the stale cookies are deleted, and their number returned |
| CookieStore.Jar.Purge | browsers/misc/webcookies.c:292-304 | the loop computes the purge |
| CookieStore.Jar.Merge | browsers/misc/webcookies.c:421-440 | the three loops compute the merge |
| CookieStore.Jar.Search | browsers/misc/webcookies.c:583-594 | a new jar with the matching cookies; the searched one is unchanged |

## Left out

Parts of the modelled code:

- Object files: the AHISTORY records themselves (the round trips start from any table they may leave), signatures in ASIGNAME records, the linkers' automatic variables, branch targets and other processing of opcodes after reading, and `readsome`'s refilling of the input buffer. Linker register numbers above NREG, which 5l refuses, are excluded by `WellFormed`.
- Object files: the overlap of offset, float and string in one union; each operand has all three and writes the one its type selects. Floating constants are two opaque words.
- The first pass of the assemblers, which emits nothing; only the `symidx` fields it leaves enter, as arbitrary values.
- InputStack: `char` is taken as signed.
- InputStack.Input.NewFile: the history entries made there are in LineHistory.
- InputStack.Input.PushExpansion: the expansion fits the buffer; the source does not check it.
- MacroBody: `symb` overflow and the text of error messages.
- MacroCall: the round trip is for arguments without comments and newlines; those are read as blanks.
- Conditional: text is followed line by line, so what the lexer does inside an active line is not modelled; text lines do not contain `#`, which starts a directive anywhere in an active line. `#include`, `#line` and `#pragma` are only skipped to the newline, and definitions that the next line continues are read by `Preprocessor.Definition` but are not among the sources of the theorems: skipping knows no continuation.
- Conditional: a condition or definition line that the assembler rejects is not well formed; it can swallow the next line.
- LineHistory: `#line` entries are replayed by `PrFile` and described by `LineDirective`, but the runs in the theorems have none.
- FloodFill.FloodFill: does not model failing allocation or image unloading; the rectangle is already clipped and moved to the origin, and the source image is one colour.
- RectDiff.GenDrawDiff: rectangles are canonical, as every caller passes them.
- Jis: Shift-JIS, EUC and the other character sets, which repeat the same round trip; error counts and messages. The kuten table is data: entries only at columns below 96 and runes from 128 up are what the proofs need. A kuten index below zero, which the source uses to read before the table, counts as unmapped.
- Search.Text.Find: its precondition is exactly that the search returns; NUL runes are excluded, as the source relies on a NUL behind the window.
- UrlCanon.UrlCanon: the part of the URL behind the two slashes; does not model the size of the component array.
- TableWidth: no 32-bit overflow; row heights and the placing of cells.
- CropSquare: mouse handling.
- CookieStore.Jar.Search: `qsort` and the domain and path test, which enters as any predicate on cookies.
- CookieStore.Jar.Merge: lock file, file format and rewriting of the file; lines come as the cookies they hold.

Other parts of the repository: windows, menus, drawing, networking, process control, parsers and
lexers, instruction tables and encodings, HTML, image scaling and the kernel are not modelled. They
are interfaces to code that is not here, or data, or would only add easy members.
