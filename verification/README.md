# A verified model of the xv6/JOS coursework

Each Dafny module models one component of the repository in the form the C code has: objects with fields, loops,
arrays updated in place. Methods are proved against specification functions, and the lemmas beside them say what
those functions mean.

- `Kdebug.dfy`: the STABS symbol lookup. The search loop is a state machine (`Probe`, `Search`); the lemmas say when
  it brackets the address. The comment in lab/kern/kdebug.c:32-34 says that crossed bounds mean "not contained"; the
  code crosses them only when the kind does not occur at all, and the model follows the code.
- `ShellSyntax.dfy`, `ShellParser.dfy`, `ShellRunner.dfy`: tokens and grammar of the shell, its recursive-descent
  parser over a shared cursor and heap nodes (an exec node's `argv` array is filled after redirection nodes wrap it),
  and the running of a tree as processes with descriptor tables.
- `Printfmt.dfy`, `PrintfmtLaws.dfy`, `FormatLaws.dfy`, `Strtol.dfy`: the format interpreter with its global colour,
  the bounded sink of `vsnprintf`, and the number reader. The comments in lab/lib/printfmt.c:12-13 and 146 promise
  field widths for numbers only and a flag that pads on the right; the code also pads strings, and for numbers `-`
  pads on the left with `-` characters. The model follows the code.
- `Console.dfy`, `Readline.dfy`, `InputRing.dfy`, `Keyboard.dfy`: the scrolling screen as the window of an unbounded
  tape, the line editor on top of it, the input ring and the scan-code state machine.
- `Memory.dfy`: `memmove` and `memset`, word-wise and byte-wise.
- `Boot.dfy`, `Monitor.dfy`: sector-rounded segment loading, and in-place splitting of a command line. The comment in
  lab/boot/main.c:84-86 says that the over-copy does not matter since loading is in increasing order;
  `Boot.NamedByteIff` says exactly when it does not, and `Boot.IncreasingOrderSpoils` is an image for which it does.

`Machine.dfy` holds the fixed-width integers. The truncation rule of `vsnprintf` is that of
section 7.19.6.12 of ISO C99. The number reader accepts less than section 7.20.1.4 does: only spaces and tabs as
blanks and only a lower-case `0x`, which it also consumes when no digit follows; the model follows the code.

Where a property fails for some inputs, the condition under which it holds is part of the statement:
`Kdebug.RegionExact` (an exact hit followed by a second one), `ShellRunner.WiringNeedsStandardFds` and
`ShellRunner.RedirectNeedsStdin` (standard descriptors closed beforehand), `Strtol.PrintReadBack` (padding between a
minus sign and the digits, or made of dashes), `InputRing.FirstInFirstOut` (overflow), `Boot.CongruenceIff` (address
and offset not congruent), `Boot.NamedByteIff` (segments that share a sector), `Memory.ForwardWrongOnOverlap` (a
forward copy over itself), `Memory.PlainFillsIff` (a length that does not fit an int).

## Model

| member | source | states |
|---|---|---|
| Kdebug.Search | lab/kern/kdebug.c:56-82 | the search loop ends on every table, sorted or not, by the interval size and whether the left entry equals the moving address |
| Kdebug.Probe | lab/kern/kdebug.c:57-81 | every iteration decreases that measure, also an exact hit that leaves the window as it is |
| Kdebug.SearchOrdered | lab/kern/kdebug.c:56-86 | on any table the bounds stay in range and the match flag records whether the kind occurs |
| Kdebug.SearchNarrowed | lab/kern/kdebug.c:56-82 | on a sorted table a safe search keeps everything left of the window at or below the address, everything right of it above, and the left bound on the last entry passed |
| Kdebug.UnsafeSearch | lab/kern/kdebug.c:75-81 | an unsafe search reaches a hit after which the moved address meets a second entry or has wrapped, on every address |
| Kdebug.RegionCrosses | lab/kern/kdebug.c:84-93 | on any table the bounds cross exactly when the range holds no entry of the kind |
| Kdebug.RegionBrackets | lab/kern/kdebug.c:50-94 | sorted and safe: left is the last entry at or below the address, right is just before the next entry, and the final scan does not move left |
| Kdebug.RegionMisses | lab/kern/kdebug.c:75-93 | sorted and not safe: the result is never that bracket, except that a second hit on the topmost address wraps and stops the search before that entry, which is right iff an entry at the address stands there |
| Kdebug.RegionExact | lab/kern/kdebug.c:50-94 | for every sorted table and every address with an entry at or below it, the exact condition for the bracket |
| Kdebug.RegionAbove | lab/kern/kdebug.c:84-93 | all entries above the address: left stays, or both bounds drop below the range when the first entry opens it |
| Kdebug.RegionSearchable | lab/kern/kdebug.c:50-94 | the three outcomes of a safe search of a sorted table, in terms of its entries only |
| Kdebug.NoNeighbourIsSafe | lab/kern/kdebug.c:75-81 | no entry at addr + 1, or none at addr, makes every search safe |
| Kdebug.AdjacentFunctionsMiss | lab/kern/kdebug.c:75-81 | a two-entry table on which the search finds the wrong entry |
| Kdebug.AdjacentFunctionsMayHit | lab/kern/kdebug.c:56-82 | a third entry moves the probes and the same lookup succeeds, so the addresses alone do not decide |
| Kdebug.TopFunctionsHit | lab/kern/kdebug.c:75-81 | the two adjacent functions at the top of the address space: unsafe, and still bracketed because the address wraps |
| Kdebug.TopFunctionsMiss | lab/kern/kdebug.c:75-81 | with an entry of another kind between them the result is wrong |
| Kdebug.StabBinsearch | lab/kern/kdebug.c:50-94 | the C loop computes the region, and the two main facts about it |
| Kdebug.LookupFile | lab/kern/kdebug.c:139-144 | the file is the last N_SO at or below the address unless it is entry 0; exactly when a leading N_SO lies above the address the next search would start before the table |
| Kdebug.LookupFunction | lab/kern/kdebug.c:146-205 | the C steps of the second half compute the lookup for the file found, on any table; what that is, `Kdebug.LookupAnswers` says |
| Kdebug.LastFile | lab/kern/kdebug.c:184-194 | the nearest preceding N_SOL or non-zero N_SO, not before the file entry |
| Kdebug.Psyms | lab/kern/kdebug.c:197-203 | the run of N_PSYM entries cut at the right bound |
| Kdebug.StrFind | lab/lib/string.c:111-118 | the first colon or NUL of a name, which the table's final NUL guarantees |
| Kdebug.DebuginfoEip | lab/kern/kdebug.c:104-206 | the filled-in fields and the return code are those of the lookup, on any table; `Kdebug.LookupAnswers` says what they mean |
| Kdebug.LookupAnswers | lab/kern/kdebug.c:139-205 | what the lookup answers, entry by entry: the function start is the greatest N_FUN value at or below the address in its file, the name is that entry's string up to its first colon or NUL, the file is that of the nearest naming entry, and the parameters are the run from the next entry on, cut where the function's region ends; likewise when the file entry, or nothing, stands in for the function |
| ShellSyntax.LexSpell | hw/hw1/shell/sh.c:199-237 | whatever the legal white space, a spelling is read as its tokens |
| ShellSyntax.SpellLex | hw/hw1/shell/sh.c:199-237 | every line is a spelling of its tokens |
| ShellSyntax.BlankLine | hw/hw1/shell/sh.c:199-237 | a line has no tokens exactly when it is all white space |
| ShellSyntax.OnlyWords | hw/hw1/shell/sh.c:199-237 | a line has words only exactly when none of the three symbols is in it |
| ShellSyntax.ParseAcceptsRenderings | hw/hw1/shell/sh.c:292-359 | the parser returns a tree exactly for the token sequences that render it: complete, sound, unambiguous |
| ShellSyntax.RoundTrip | hw/hw1/shell/sh.c:202-359 | any spelling of any interleaving of a tree's words and redirections parses to that tree |
| ShellSyntax.PrintParse | hw/hw1/shell/sh.c:202-359 | printing a well-formed tree with any legal white space and parsing it gives the tree back |
| ShellSyntax.ParseWellFormed | hw/hw1/shell/sh.c:158-195 | parsing only builds right-nested pipes over redirection chains with at most nine words |
| ShellSyntax.ParseFails | hw/hw1/shell/sh.c:268-359 | parsing fails exactly on a redirection without a word or a tenth argument, whichever is first; no other exit is taken |
| ShellParser.ChainValue | hw/hw1/shell/sh.c:329-359 | a chain of redirection nodes stands for the wrapped command, whatever argv holds by then |
| ShellParser.LexAt | hw/hw1/shell/sh.c:202-237 | the tokens from a position, by its first character |
| ShellParser.Cursor.GetToken | hw/hw1/shell/sh.c:202-237 | takes exactly the first remaining token and advances |
| ShellParser.Cursor.Peek | hw/hw1/shell/sh.c:239-249 | skips white space only, and answers for the next character |
| ShellParser.ParseRedirs | hw/hw1/shell/sh.c:305-327 | wraps the command in the redirections that come next, the first one innermost |
| ShellParser.ParseExec | hw/hw1/shell/sh.c:329-359 | reads one command although argv is filled after wrapping; the syntax-error exit is dead |
| ShellParser.ParsePipe | hw/hw1/shell/sh.c:292-303 | reads the whole line as a right-nested pipe |
| ShellParser.ParseCmd | hw/hw1/shell/sh.c:268-282 | the heap tree equals the specified tree, and nothing is left over |
| ShellRunner.LowestFrom | hw/hw1/shell/sh.c:75-80 | the lowest free descriptor |
| ShellRunner.WiringNeedsStandardFds | hw/hw1/shell/sh.c:89-105 | the parent's wiring works iff 0 was open, the child's iff 0 or 1 was |
| ShellRunner.RedirectNeedsStdin | hw/hw1/shell/sh.c:72-87 | the file takes over the closed descriptor iff that is 0 or 0 is open |
| ShellRunner.System.RunCmd | hw/hw1/shell/sh.c:44-109 | running a heap tree gives its processes, for every tree and every descriptor table |
| ShellRunner.RunsAsMeant | hw/hw1/shell/sh.c:72-106 | with standard input open, and standard output open or closed, the step-by-step descriptor tables are those of the tree's meaning |
| ShellRunner.RunLine | hw/hw1/shell/sh.c:140-141 | parsing and running a line end to end, from every descriptor table |
| ShellRunner.MeaningBase | hw/hw1/shell/sh.c:72-106 | what a tree does depends on descriptors 0 and 1 only through its input and output |
| ShellRunner.CommandMeaning | hw/hw1/shell/sh.c:72-87 | all files are opened in reverse textual order, the textually first redirection of each descriptor is in force, and one failing open stops the command |
| ShellRunner.StageFiles | hw/hw1/shell/sh.c:72-87 | a command reaches exec exactly when its input files open for reading and its output files for writing, and then descriptor 0 is the textually first input file, read-only, and descriptor 1 the textually first output file, created and truncated, or what the command was given |
| ShellRunner.RunFiles | hw/hw1/shell/sh.c:72-106 | the same for every stage of a line run on real descriptor tables, with the pipe ends or the starting descriptors where there is no redirection |
| ShellRunner.PipelineWiring | hw/hw1/shell/sh.c:89-106 | process i reads from pipe i - 1 and writes to pipe i, before its own redirections |
| ShellRunner.NoStrayPipeEnds | hw/hw1/shell/sh.c:89-106 | every process reaching exec has the starting set of descriptors and no other pipe end |
| PrintfmtLaws.NoLeadingZero | lab/lib/printfmt.c:37-52 | digits are printed without a leading zero, and zero as one digit |
| Printfmt.NumberFieldStep | lab/lib/printfmt.c:37-52 | recursive printing with a narrower width builds the padded field |
| Printfmt.Sink.Putch | lab/lib/printfmt.c:301-307 | everything is counted, what fits is stored, nothing else is touched |
| Printfmt.Sink.PrintNum | lab/lib/printfmt.c:37-52 | emits the padded number field |
| Printfmt.Printer.ColorSequence | lab/lib/printfmt.c:113-131 | applies the semicolon-separated numbers and stops at the m |
| Printfmt.Printer.ReadSpec | lab/lib/printfmt.c:143-195 | reads flags, widths and precisions up to the conversion |
| Printfmt.Printer.PrintString | lab/lib/printfmt.c:215-228 | emits the padded and cut string field in the current colour |
| Printfmt.Printer.PrintConversion | lab/lib/printfmt.c:197-273 | emits what the conversion means for its argument, by the laws below |
| Printfmt.Printer.BackUp | lab/lib/printfmt.c:275-280 | an unknown escape is left just after its percent sign |
| Printfmt.ScanSkips | lab/lib/printfmt.c:275-280 | no percent sign lies between an escape's start and its conversion |
| Printfmt.Printer.VPrintFmt | lab/lib/printfmt.c:100-283 | the emitted values and the final colour are the meaning of the format, which the laws below describe |
| Printfmt.VSNPrintF | lab/lib/printfmt.c:309-324 | returns the full length, stores what fits and a NUL, leaves the rest of the buffer alone, and rejects an empty buffer |
| PrintfmtLaws.GlyphOfChar | lab/lib/printfmt.c:133 | a character and a colour share no bits |
| PrintfmtLaws.GlyphLowByte | lab/lib/printfmt.c:301-307 | the stored byte is the character whatever the colour |
| PrintfmtLaws.PlainText | lab/lib/printfmt.c:110-135 | text without escapes is emitted as it stands and what follows keeps its meaning |
| PrintfmtLaws.UnknownEscape | lab/lib/printfmt.c:275-280 | an unknown escape comes out as written, its star arguments used up |
| PrintfmtLaws.SetColorReversesBits | lab/lib/printfmt.c:80-94 | terminal colours map to screen colours by reversing their three bits |
| PrintfmtLaws.NumberSetsOneHalf | lab/lib/printfmt.c:121-127 | a colour number sets its own half and keeps the other |
| PrintfmtLaws.ColorSequenceMeaning | lab/lib/printfmt.c:113-131 | a colour sequence prints nothing and recolours what follows |
| PrintfmtLaws.FieldWidths | lab/lib/printfmt.c:215-228 | fields are as wide as their width or their contents, whichever is more |
| PrintfmtLaws.ScanWritten | lab/lib/printfmt.c:137-195 | a specification written in the standard shape is read back as its flags, width, precision and length, stars taking their arguments |
| PrintfmtLaws.ConversionMeaning | lab/lib/printfmt.c:137-273 | any conversion written in the standard shape means the field of its values, followed by the meaning of the rest of the format; what the fields hold is in the laws below |
| PrintfmtLaws.NameAndOffset | lab/kern/monitor.c:80 | the backtrace's format prints the name cut to n characters, a plus sign and the signed offset |
| PrintfmtLaws.ErrorIsNested | lab/lib/printfmt.c:203-212 | the error conversion prints what its nested printfmt call would |
| PrintfmtLaws.LastPadWins | lab/lib/printfmt.c:145-156 | the last dash or zero among the flags is the pad character |
| FormatLaws.UnsignedReadBack | lab/lib/printfmt.c:54-66 | what u, o and x print is read back as the argument's residue modulo 2^32, or 2^64 from two l's on |
| FormatLaws.SignedReadBack | lab/lib/printfmt.c:68-78 | what d prints is read back as the argument itself, unless spaces may stand between a minus sign and the digits |
| FormatLaws.LowerCaseDigits | lab/lib/printfmt.c:37-52 | digits are below the base, and the letters among them in lower case |
| FormatLaws.NumeralOf | lab/lib/printfmt.c:113-131 | the decimal digits of a number stand for it in a format |
| FormatLaws.SequenceApplies | lab/lib/printfmt.c:113-131 | a colour sequence written out of numbers applies them one after the other |
| FormatLaws.BannerColor | lab/lib/printfmt.c:80-94 | the monitor's banner is green on black, from whatever colour came before |
| FormatLaws.RightColumn | lab/lib/printfmt.c:215-228 | a string stands at the right end of its column, after spaces or zeros |
| FormatLaws.LeftColumn | lab/lib/printfmt.c:215-228 | with a dash alone it stands at the left end, before spaces |
| FormatLaws.NumberColumn | lab/lib/printfmt.c:37-52 | a number is as long as its width, or as its digits, and its sign besides |
| FormatLaws.CharConversion | lab/lib/printfmt.c:198-201 | a character is printed in the current colour |
| FormatLaws.PercentConversion | lab/lib/printfmt.c:270-273 | two percent signs print one |
| FormatLaws.NullString | lab/lib/printfmt.c:215-218 | a null string prints as its replacement text |
| FormatLaws.PointerReadBack | lab/lib/printfmt.c:252-259 | what p prints is read back as the pointer in base 0 |
| FormatLaws.ErrorChars | lab/lib/printfmt.c:203-212 | the error conversion prints the name of a known code, whatever its sign, and the number of any other |
| Strtol.StrToL | lab/lib/string.c:239-284 | the C loops read the specified number and stop position, in every base |
| Strtol.DigitsReadBack | lab/lib/printfmt.c:37-52 | the printed digits have the number as their value |
| Strtol.LeadingZeros | lab/lib/string.c:263-279 | leading zeros do not change the value |
| Strtol.ReadsNumber | lab/lib/string.c:245-283 | blanks, a sign and digits are read as the number, up to a character that is no digit |
| Strtol.ReadsWritten | lab/lib/string.c:239-284 | blanks and tabs, either sign, a 0x or a leading 0 and digits are read in the radix that the prefix and the base select |
| Strtol.LetterValues | lab/lib/string.c:266-273 | digits and letters have their usual values in either case |
| Strtol.NegativeBase | lab/lib/string.c:239-284 | in a negative base nothing is a digit, and the number is 0 |
| Strtol.DashPaddedReadsBack | lab/lib/printfmt.c:45-47 | a number padded with dashes is read as its negative or as zero |
| Strtol.PrintReadBack | lab/lib/printfmt.c:230-268 | reading back a printed number gives it exactly, for every pad character, iff no padding separates a minus sign from the digits or poses as one |
| Strtol.FormatReadBack | lab/lib/printfmt.c:109-268 | end to end: for every d, u, o or x conversion in the standard shape and every argument, what is formatted is read back in the conversion's base as the number printed, iff its field is readable in that sense |
| Console.TapeStep | lab/kern/console.c:161-201 | every character keeps the cursor on the screen's 25 rows of the tape |
| Console.Screen.CgaPutc | lab/kern/console.c:161-208 | the frame buffer stays the window of the tape |
| Console.Screen.ScrollIfNeeded | lab/kern/console.c:193-201 | scrolling moves the rows up and exposes a blank one |
| Console.Screen.PutAll | lab/kern/console.c:424-431 | a run of characters is the run of tape steps |
| Console.RunKeepsHistory | lab/kern/console.c:161-201 | no run of characters changes a row that has scrolled off |
| Console.PrintedOnTape | lab/kern/console.c:188-190 | printable text of any length lies on the tape, a coloured character as sent and an uncoloured one in grey on black |
| Console.BackspaceStep | lab/kern/console.c:169-174 | a backspace steps back and leaves a space in the last cell, grey on black for code 8 and else in the code's own colours |
| Console.BackspaceRefused | lab/kern/console.c:169-174 | at the start of the screen a backspace does nothing |
| Console.TypeThenErase | lab/kern/console.c:168-201 | typing and erasing restores the cursor even across a scroll |
| Console.NewlineStep | lab/kern/console.c:175-180 | a newline keeps all cells and exposes only blanks |
| Console.ReturnToText | lab/kern/console.c:178-190 | a carriage return after text that fits its row goes back to the text's start and keeps the text |
| Console.TabBlanksFive | lab/kern/console.c:181-201 | a tab blanks the next five cells and passes them, also across a scroll |
| Readline.EchoAgreement | lab/lib/readline.c:15-36 | over every editing session the cells from the prompt to the cursor hold the line |
| Readline.NeverRefused | lab/lib/readline.c:22-25 | a backspace on a non-empty line is never refused by the screen |
| Readline.LineOnScreen | lab/lib/readline.c:15-36 | the whole line is always inside the visible window |
| Readline.TextOnScreen | lab/lib/printfmt.c:110-135 | printed text lies on the tape from the cursor on, each cell the character and the printing colour, across scrolls |
| Readline.ColouredOnScreen | lab/lib/printfmt.c:110-135 | the same after a colour sequence, in its colour |
| Readline.EraseKey | lab/lib/readline.c:22-25 | backspace and delete take away the last byte of a non-empty line |
| Readline.TypedKey | lab/lib/readline.c:26-29 | a printable key, space included, is appended while there is room |
| Readline.IgnoredKey | lab/lib/readline.c:22-29 | every other key changes nothing |
| Readline.TypedText | lab/lib/readline.c:26-29 | what is typed without corrections is the line |
| Readline.Correction | lab/lib/readline.c:15-36 | typing a text and erasing as many keys gives the line back |
| Readline.ErrorFormatMeaning | lab/lib/readline.c:18-21 | the message about a read error is its text, the error's name or number and a newline |
| Readline.ErrorSpelled | lab/lib/readline.c:18-21 | that message spelled out |
| Readline.LineEditor.ReadLine | lab/lib/readline.c:7-37 | for ordinary keys the returned buffer is those keys with a NUL, and in general the edited line; the tape is the echoed session followed by a newline or the error message |
| InputRing.Ring.ConsIntr | lab/kern/console.c:388-400 | stores the non-zero bytes as queue pushes |
| InputRing.Ring.ConsGetc | lab/kern/console.c:402-422 | returns the oldest byte, and 0 exactly when the queue is empty |
| InputRing.LostInBlocks | lab/kern/console.c:388-400 | without reads exactly a multiple of 512 of the oldest bytes is lost |
| InputRing.FirstInFirstOut | lab/kern/console.c:388-422 | over every interleaving the unread bytes are the latest arrivals and nothing is lost iff there was no overflow |
| Keyboard.EscapeFlag | lab/kern/console.c:326-339 | the escape flag is set iff the last byte was 0xE0 |
| Keyboard.ModifierFlag | lab/kern/console.c:330-341 | shift, control and alt are set iff the latest event on their keys was a press |
| Keyboard.ControlAndAlt | lab/kern/console.c:225-233 | control is set exactly while 0x1D is down, alt while 0x38 is, on either side |
| Keyboard.ShiftDown | lab/kern/console.c:225-233 | shift is set exactly when the last byte of an unescaped shift key was a press |
| Keyboard.LockFlag | lab/kern/console.c:342 | a lock is set iff its key was pressed an odd number of times |
| Keyboard.Locks | lab/kern/console.c:235-240 | each lock is toggled by its own key |
| Keyboard.LetterTyped | lab/kern/console.c:344-350 | a letter key types its letter, capital iff one of shift and caps lock is on, or its control code |
| Keyboard.LetterAfter | lab/kern/console.c:314-350 | what a letter key types after any sequence of scan codes, in terms of the bytes of that sequence |
| Keyboard.LegendTyped | lab/kern/console.c:242-286 | every digit and punctuation key types its legend, the upper one exactly with shift |
| Keyboard.EditingKeys | lab/kern/console.c:242-307 | escape, backspace, tab and enter |
| Keyboard.ControlKeys | lab/kern/console.c:242-307 | control with keys that are no letters, and the escaped slash, enter and home |
| Keyboard.SpecialKeys | lab/kern/console.c:242-307 | the escaped arrow and editing keys type the same codes under every modifier |
| Keyboard.CharactersAre | lab/kern/console.c:314-358 | each byte types what the flags after all bytes before it make of it |
| Keyboard.RebootsExactly | lab/kern/console.c:352-355 | over every scan-code sequence the machine is reset iff control and alt are held and an escaped delete is pressed |
| Keyboard.Driver.KbdProcData | lab/kern/console.c:314-358 | the flags, the character and the reset of one byte |
| Keyboard.Driver.KbdIntr | lab/kern/console.c:360-364 | the characters of all pending bytes reach the input ring |
| Memory.WordBytes | lab/lib/string.c:152-163 | a little-endian word gives its four bytes back |
| Memory.Memmove | lab/lib/string.c:141-169 | a simultaneous copy for every overlap, length and alignment |
| Memory.MemmovePlain | lab/lib/string.c:187-205 | the plain C version is the same copy |
| Memory.ForwardWrongOnOverlap | lab/lib/string.c:149 | on an overlap a forward copy is right iff the source repeats with the distance |
| Memory.MoveThrough | lab/lib/string.c:141-169 | moving through a second place is moving directly |
| Memory.Memset | lab/lib/string.c:121-139 | the word-wise fill equals the byte fill |
| Memory.MemsetPlain | lab/lib/string.c:173-185 | the plain C version, with its int counter: the same fill below 2^31, nothing from there on |
| Memory.PlainFillsIff | lab/lib/string.c:177-182 | the plain C version fills every memory iff the length fits an int |
| Boot.ReadSeg | lab/boot/main.c:71-96 | loads the sectors from the start to the end as computed in 32 bits, and nothing else |
| Boot.WrappedReadsNothing | lab/boot/main.c:76-89 | a range whose end wraps around the address space is not read at all |
| Boot.LoadedBytes | lab/boot/main.c:71-96 | every byte of a segment comes from its source despite the over-copy |
| Boot.SourceIsNamed | lab/boot/main.c:78-82 | the source is the byte the header names iff address and offset are congruent modulo 512 |
| Boot.WrongByte | lab/boot/main.c:78-82 | without congruence, a disk and the memory it leaves behind with a wrong byte |
| Boot.CongruenceIff | lab/boot/main.c:71-96 | loading puts the named byte in place from every disk iff address and offset are congruent |
| Boot.LastCoverWins | lab/boot/main.c:53-56 | after loading in order every address holds what the last segment that covers it read |
| Boot.NamedByteIff | lab/boot/main.c:53-96 | a segment's address holds the byte its header names, from every disk, iff the last segment covering it reads that position |
| Boot.IncreasingOrderSpoils | lab/boot/main.c:84-86 | two congruent segments in increasing order of which the first loses a byte |
| Boot.ApartSurvives | lab/boot/main.c:53-56 | a segment that shares no sector with a later one keeps all its bytes |
| Boot.BootMain | lab/boot/main.c:38-65 | all of memory is the header page and the segments loaded in order, with headers read from memory; segments that share no sector are all in place; a wrong magic number takes the bad exit |
| Boot.ReadsElfHeader | lab/inc/elf.h:6-22 | the loader takes the magic number, the entry and the headers' place and number out of an encoded image header |
| Boot.ReadsProgramHeader | lab/inc/elf.h:24-33 | the loader takes p_pa, p_memsz and p_offset out of an encoded program header |
| Boot.SegmentIsImage | lab/boot/main.c:53-56 | a congruent segment equals its stretch of the image |
| Monitor.WordsAreRuns | lab/kern/monitor.c:105-120 | the words are exactly the maximal runs, in order |
| Monitor.CutWord | lab/kern/monitor.c:106-119 | in the rewritten buffer the string at a word's start is the word |
| Monitor.BlankLine | lab/kern/monitor.c:92-120 | a line has no words exactly when it is all white space |
| Monitor.Interpreter.Split | lab/kern/monitor.c:102-121 | argv points at the words, or there are 16 or more |
| Monitor.Interpreter.RunCmd | lab/kern/monitor.c:95-132 | which lines are rejected, empty, unknown or call which command with which arguments |

## Left out

- Kdebug.DebuginfoEip: does not model the panic on user addresses or `eip_line`, which the source never fills in; the read before the table is a separate outcome.
- ShellRunner.RunsAsMeant: is about processes started with descriptor 0 open; `ShellRunner.System.RunCmd` covers all tables.
- ShellRunner.System.RunCmd: runs the child before the parent, since the two share no descriptor table; failing forks, failing pipes, waiting and a failing exec are not modelled.
- The shell's prompt, its `cd` case and the main loop.
- Printfmt.Printer.VPrintFmt: requires a format whose arguments fit and whose colour sequences end in m, because C gives the other calls no meaning or no end; numbers in a format are unbounded, since C leaves their overflow undefined.
- Printfmt.Printer.PrintError: calls the two fields directly where the source calls printfmt again; `PrintfmtLaws.ErrorIsNested` shows they are the same.
- The variable argument list is a sequence of typed values, and `vcprintf`'s return value, which is always 0, is not modelled.
- Strtol.StrToL: requires a number that fits a 32-bit long, because the source's overflow is undefined in C; that is where `Strtol.FormatReadBack` is about the reader itself.
- Console.Screen.CgaPutc: copies cells in a loop where the source calls memmove; cursor register writes, `cga_init`, the waits of the serial and parallel ports and the printer's bytes, which equal the serial ones, are left out.
- Readline.LineEditor.ReadLine: takes the keys as a sequence that contains a line end or an error, where the source waits for them; 0 is never a key.
- Readline.Cprintf: sends the characters to the console after formatting, where the source sends each as it is produced.
- InputRing.Ring.ConsGetc: takes the bytes the two devices hold as parameters.
- Keyboard.Driver.KbdProcData: reports the reset on control, alt and delete as a result, and leaves out its message and the status port.
- Memory.PlainFillsIff: counts the length 2^31 as not filled, although C defines nothing for it.
- Memory.MemsetPlain: leaves out the length 2^31 itself, where the decrement of the counter overflows and C defines nothing.
- Memory.Memmove: addresses are indices of one memory array, so ranges that wrap around the address space are left out.
- Boot.BootMain: requires segments to keep clear of the header page, which the loader still reads while it loads them.
- Boot.ReadSeg: requires the rounded-up end to lie in a memory smaller than 2^32 bytes, because the source's loop never ends on one in the last sector of the address space; the disk controller's handshake is a function from positions to bytes.
- Monitor.Interpreter.RunCmd: says which command is called; the commands' bodies and the printed messages are left out.
- The remaining string routines, page-table constants, system-call glue, build files and notes: single-step facts.
