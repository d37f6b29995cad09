# Verified models of the bootloader's zlib kernels and the RT-Thread application's core

The repository is a firmware in two parts: a bootloader that carries zlib 1.2.11, and an application on the
RT-Thread kernel with its finsh shell. This project models the parts whose correctness is hardest to see from the code
and proves what they are for. `dafny verify dfyconfig.toml` checks everything.

**zlib.** `InflateFast` takes its bits from a 32-bit buffer refilled without checks and copies matches out of a
circular window; it is proved to take exactly the steps of the bit-at-a-time decoder in `InflateSpec`, whose output is
one growing history (`InflateWindow` holds the window and the copies). `Crc32` starts from polynomial division over
GF(2) and proves the bytewise form, both slicing forms and the matrix form of concatenation. `Adler32` proves the
deferred modulo, its 32-bit bound and the closed-form combination.

**finsh.** `FinshLang` gives the language its meaning and the compiler's output as functions; `FinshCorrect` proves
that the code preserves that meaning and says exactly where it does not; `FinshCompiler` and `FinshMachine` are the
compiler and the virtual machine in place, on one node table, text segment and stack (`FinshVm` is the meaning of
bytecode). `FinshHeap` is the shell's heap with its collector; `FinshHeapBlocks` its layout.

`Lists` and `Widths` hold what several modules share.

**Heaps.** `MemHeap` (memheap.c) and `SmallMem` (mem.c) are classes over an array of words with the blocks as ghost
sequences. `Layout` in `MemHeapBlocks` and `SmallMemBlocks` is the invariant: blocks tile the memory, links are mutual
inverses, no two neighbours are free, and for memheap the circular free list holds each free block once. `Live` maps
each block in use to its size.

**Kernel.** `RtList` is the intrusive list. `WaitList`, `Mailbox`, `Mutex` and `MessageQueue` model one step per region
with interrupts off, and timeouts, in any interleaving. `ReadyBitmap` and `Scheduler` are the ready lists with their
one- or two-level bitmap. `TimerSpec` is the timer list in wrapping tick order, `TimerRun` what happens to a timer over
a run of ticks, `TimerSkip` the skip list that implements it for any number of levels.

Objects whose fields the source changes in place are classes; each of their methods is proved against a function or a
predicate on its state, and the lemmas about those state what the operation is for.

The functions a method is proved against have laws of their own, stated without those functions' branches:
`InflateLaws` says what any stream of code words decodes to, `CrcLaws` has the residue and the check value,
`FinshLaws` the arithmetic of the shell's operators and the equations between its expressions, `MailboxLaws` what each
call does and that a mail gets through, `MutexLaws` that takes and releases balance.

Where the code does not do what it is for, the exact condition is proved. For the compiler: `FinshCorrect.OnePushIff`
says when an expression nets one push, and `InvertOfVoid`, `DerefOfVoid`, `BinaryOfVoid`, `AssignOfVoid`,
`PreStepOfSysVariable`, `PostStepOfSysVariable`, `SilentPushesNothing` and `AssignOfVoidPointer` say what happens
outside `Typed` and when it is right all the same. `MemHeap.GrowGuardExact` is about a guard that can wrap around,
`MemHeap.Heap.RoomMeans` and `SmallMem.Heap.RefusesWhat` about blocks that fit and are refused, `SmallMem.Heap.Shrink`
about the lowest-free hint, `Adler32.Adler32Z` about the one-byte shortcut, and `Mutex.TimeoutExact` about priorities
that stay raised.

A comment in timer.c (line 318) allows timeouts up to half the tick range; the code's assertion excludes the bound
itself, and the model follows the code.

## Model

| member | source | states |
|---|---|---|
| `Adler32.PlainCongruent` | IAP project/Projects/zlib-1.2.11/adler32.c:102-127 | Deferring the modulo changes nothing: the plain sums of any bytes, reduced at the end, are the byte-by-byte sums of RFC 1950 reduced at each step |
| `Adler32.ClosedForm` | IAP project/Projects/zlib-1.2.11/adler32.c:63-131 | The low half is 1 plus the sum of the bytes, the high half their number plus the sum of each byte times the number of bytes from it to the end, both modulo BASE |
| `Adler32.NmaxFits` | IAP project/Projects/zlib-1.2.11/adler32.c:12-14 | From any 16-bit halves, no sum leaves 32 bits within NMAX bytes |
| `Adler32.NmaxTight` | IAP project/Projects/zlib-1.2.11/adler32.c:13-14 | NMAX is the largest such length: one byte of 255 more than NMAX overflows from the largest reduced sums |
| `Adler32.Mod28Correct` | IAP project/Projects/zlib-1.2.11/adler32.c:33-37 | The division-free MOD28 is the modulo below 2^28 |
| `Adler32.Mod32Correct` | IAP project/Projects/zlib-1.2.11/adler32.c:27-42 | The division-free MOD is the modulo on all 32-bit values |
| `Adler32.Mod63Correct` | IAP project/Projects/zlib-1.2.11/adler32.c:43-55 | The division-free MOD63 is the modulo on all non-negative 63-bit values |
| `Adler32.AdlerOne` | IAP project/Projects/zlib-1.2.11/adler32.c:75-84 | The one-byte shortcut: first sum reduced, second right up to one BASE, and within BASE exactly when the unreduced second sum was below 2 BASE |
| `Adler32.OneByteMeets` | IAP project/Projects/zlib-1.2.11/adler32.c:75-84 | What the shortcut returns reduces to the definition's sums, and equals them exactly when the start value's second half was not left unreduced |
| `Adler32.AdlerShort` | IAP project/Projects/zlib-1.2.11/adler32.c:90-100 | Fewer than 16 bytes: the definition's sums, with one subtraction and one MOD28 |
| `Adler32.SumAndReduce` | IAP project/Projects/zlib-1.2.11/adler32.c:102-127 | A block of at most NMAX bytes keeps 32 bits in every sum and ends with the definition's sums, below BASE |
| `Adler32.AdlerLong` | IAP project/Projects/zlib-1.2.11/adler32.c:102-130 | Sixteen bytes or more: the definition's sums of all bytes |
| `Adler32.Adler32Z` | IAP project/Projects/zlib-1.2.11/adler32.c:63-131 | For every start value, buffer and length: congruent to the RFC 1950 definition, and equal to it if and only if the one-byte shortcut did not leave an unreduced second half; a null buffer gives 1 |
| `Adler32.CombineSums` | IAP project/Projects/zlib-1.2.11/adler32.c:156-163 | The closed form behind the combination: the sums of a + b from the sums of a and of b and the length of b |
| `Adler32.Adler32Combine` | IAP project/Projects/zlib-1.2.11/adler32.c:143-169 | For all a and b, combining their checksums gives the checksum of a + b; negative lengths give 0xffffffff |
| `Crc32.RegisterIsRemainder` | IAP project/Projects/zlib-1.2.11/crc32.c:62-80 | The shift register computes the remainder of polynomial long division of the message followed by 32 zero bits |
| `Crc32.MakePoly` | IAP project/Projects/zlib-1.2.11/crc32.c:103-106 | The loop over the exponents builds the polynomial of the definition |
| `Crc32.PolyValue` | IAP project/Projects/zlib-1.2.11/crc32.c:387 | The literal in crc32_combine_ is that polynomial |
| `Crc32.MakeTable0` | IAP project/Projects/zlib-1.2.11/crc32.c:108-114 | Table 0 holds the register after eight zero bits, for every byte |
| `Crc32.MakeCrcTable` | IAP project/Projects/zlib-1.2.11/crc32.c:88-131 | Tables 1 to 3 hold the registers after 16, 24 and 32 zero bits, tables 4 to 7 their byte reversals |
| `Crc32.FeedIsZeros` | IAP project/Projects/zlib-1.2.11/crc32.c:74-80 | Up to 32 message bits may be added to the register at once, followed by as many zero steps |
| `Crc32.Do1Correct` | IAP project/Projects/zlib-1.2.11/crc32.c:198 | One table step is eight bit steps of the register |
| `Crc32.SliceFour` | IAP project/Projects/zlib-1.2.11/crc32.c:260-262 | 32 zero steps of a register are the exclusive or of those of its four bytes |
| `Crc32.DoLit4Correct` | IAP project/Projects/zlib-1.2.11/crc32.c:260-262 | One little-endian word step is four byte steps |
| `Crc32.BigIsSwapped` | IAP project/Projects/zlib-1.2.11/crc32.c:300-302 | A word read big-endian is the byte reversal of the one read little-endian |
| `Crc32.DoBig4Correct` | IAP project/Projects/zlib-1.2.11/crc32.c:300-302 | One big-endian word step on the reversed register is four byte steps, reversed |
| `Crc32.DoBig1Correct` | IAP project/Projects/zlib-1.2.11/crc32.c:316-319 | One byte step on the reversed register is a byte step, reversed |
| `Crc32.CrcFromRegister` | IAP project/Projects/zlib-1.2.11/crc32.c:225-233 | A CRC that continues from an earlier one is the complemented register run from the complemented start |
| `Crc32.Crc32Bytewise` | IAP project/Projects/zlib-1.2.11/crc32.c:225-234 | The bytewise form is the CRC of the bytes, for every start CRC and length |
| `Crc32.Crc32Little` | IAP project/Projects/zlib-1.2.11/crc32.c:266-297 | The little-endian slicing form is the same CRC, for every start CRC, length and alignment |
| `Crc32.Crc32Big` | IAP project/Projects/zlib-1.2.11/crc32.c:306-337 | The big-endian slicing form is the same CRC, for every start CRC, length and alignment |
| `Crc32.Crc32Z` | IAP project/Projects/zlib-1.2.11/crc32.c:202-234 | Whatever form the build and the machine select, the result is the CRC; a null buffer gives 0 |
| `Crc32.CrcFromAppend` | IAP project/Projects/zlib-1.2.11/crc32.c:202-243 | A CRC can be continued: crc(a + b) is the CRC of b started from crc(a) |
| `Crc32.Gf2MatrixTimes` | IAP project/Projects/zlib-1.2.11/crc32.c:344-358 | The product of matrix and vector over GF(2) |
| `Crc32.TimesIsZeros` | IAP project/Projects/zlib-1.2.11/crc32.c:344-358 | Multiplying by the matrix of the n-zeros operator applies n zero bits to any register, by linearity |
| `Crc32.Gf2MatrixSquare` | IAP project/Projects/zlib-1.2.11/crc32.c:361-369 | Squaring turns the n-zeros operator into the 2n-zeros operator |
| `Crc32.SquareIsZeros` | IAP project/Projects/zlib-1.2.11/crc32.c:361-369 | Squaring a zeros operator composes it with itself |
| `Crc32.OneZeroBit` | IAP project/Projects/zlib-1.2.11/crc32.c:386-392 | The starting matrix is the operator for one zero bit |
| `Crc32.HalveStep` | IAP project/Projects/zlib-1.2.11/crc32.c:400-420 | One turn of the squaring loop keeps "zeros still to apply": the lowest length bit is applied, the rest is left for the doubled operator |
| `Crc32.CrcConcat` | IAP project/Projects/zlib-1.2.11/crc32.c:400-424 | crc(a + b) is crc(a) pushed through 8 times the length of b zero bits, plus crc(b) |
| `Crc32.Crc32Combine` | IAP project/Projects/zlib-1.2.11/crc32.c:372-425 | For all a and b, combining their CRCs gives the CRC of a + b; otherwise the operator is applied exactly 8 len2 times |
| `CrcLaws.Residue` | IAP project/Projects/zlib-1.2.11/crc32.c:202-234 | Any bytes followed by their own CRC, low byte first, have the CRC 0x2144df1c: this fixes both complements and the order of bytes and bits |
| `CrcLaws.Check` | IAP project/Projects/zlib-1.2.11/crc32.c:202-234 | The CRC of the ASCII digits 1 to 9 is 0xcbf43926 |
| `InflateSpec.LookupIsNextSymbol` | IAP project/Projects/zlib-1.2.11/inftrees.h:24-36 | On well-formed two-level tables, indexing by peeked bits gives the same symbol and code length as reading the code word bit by bit, within 15 bits |
| `InflateSpec.CopyBackPoints` | IAP project/Projects/zlib-1.2.11/inffast.c:251-264 | Repeating the byte dist back yields a history that is unchanged up to its old end and periodic behind it |
| `InflateSpec.CopyBackUnique` | IAP project/Projects/zlib-1.2.11/inffast.c:251-264 | Those two facts determine the copied history, overlaps included |
| `InflateLaws.OpByte` | IAP project/Projects/zlib-1.2.11/inftrees.h:30-36 | Each of the five encodings of the op byte is read as what it is listed for, with its number of extra or index bits |
| `InflateLaws.LookupFinds` | IAP project/Projects/zlib-1.2.11/inffast.c:110-115 | Enough bits that start with a code word are looked up as that word |
| `InflateLaws.WordIsRead` | IAP project/Projects/zlib-1.2.11/inffast.c:110-115 | A code word is read as itself whatever follows it |
| `InflateLaws.MatchStep` | IAP project/Projects/zlib-1.2.11/inffast.c:122-264 | A length and a distance, each base plus extra bits: the step is an error exactly if the distance exceeds the history; otherwise that many bytes are added, each the byte that distance before it, and the position is past all bits read |
| `InflateLaws.SingleStep` | IAP project/Projects/zlib-1.2.11/inffast.c:116-121 | A literal adds its byte, the end of the block ends in TYPE, an invalid code in BAD, one code word on |
| `InflateLaws.NoDistanceStep` | IAP project/Projects/zlib-1.2.11/inffast.c:270-274 | A length followed by an invalid distance code ends in BAD with the history as it was |
| `InflateLaws.RepeatsIsMeaning` | IAP project/Projects/zlib-1.2.11/inffast.c:251-264 | Each byte equal to the one dist before it, and the last dist bytes over and over, are the same history |
| `InflateLaws.RoundTrip` | IAP project/Projects/zlib-1.2.11/inffast.c:101-290 | The code words of any literals and matches, followed by the end of the block, decode to exactly what those mean, in as many steps as there are tokens, and end in TYPE behind the last bit |
| `InflateLaws.TooFarBack` | IAP project/Projects/zlib-1.2.11/inffast.c:170-178 | After the codes of any tokens, a match that reaches in front of the history ends in BAD there, with the tokens before it expanded |
| `InflateLaws.AnyStop` | IAP project/Projects/zlib-1.2.11/inffast.c:101-290 | Wherever a decoder stops on such a stream, it has expanded a prefix of the tokens, never with an error |
| `InflateWindow.CopyRest` | IAP project/Projects/zlib-1.2.11/inffast.c:239-249 | Three bytes per turn, then one or two: exactly the len source bytes, also when source and destination overlap forwards |
| `InflateWindow.WindowCopy` | IAP project/Projects/zlib-1.2.11/inffast.c:199-238 | Bytes from the window's end and then from the output's start make up the match |
| `InflateWindow.CopyMatch` | IAP project/Projects/zlib-1.2.11/inffast.c:169-264 | All four sources of a match (output; window contiguous, with wnext 0, wrapped) give each byte the byte dist earlier in unwrapped window plus output |
| `InflateWindow.CopiedIsCopyBack` | IAP project/Projects/zlib-1.2.11/inffast.c:199-264 | What the copy leaves is the specification's repeated copy |
| `InflateWindow.Unwrapped` | IAP project/Projects/zlib-1.2.11/inflate.c:424-444 | The circular window read oldest byte first has whave bytes |
| `InflateWindow.UpdateWindow` | IAP project/Projects/zlib-1.2.11/inflate.c:399-445 | After the update the window, unwrapped, is the last wsize bytes of the old history plus the new output |
| `InflateFast.PullValue` | IAP project/Projects/zlib-1.2.11/inffast.c:104-109 | A byte above up to 24 held bits extends the held bit string and stays within 32 bits |
| `InflateFast.PeekAndDrop` | IAP project/Projects/zlib-1.2.11/inffast.c:110-114 | Masking reads the next n stream bits; shifting moves the position on by n |
| `InflateFast.FollowLinks` | IAP project/Projects/zlib-1.2.11/inffast.c:276-279 | The dolen and dodist loops end at the symbol the link leads to |
| `InflateFast.FindCode` | IAP project/Projects/zlib-1.2.11/inffast.c:110-115 | With 15 held bits the lookup finds the next symbol of the bit-at-a-time reading |
| `InflateFast.DecodeDistance` | IAP project/Projects/zlib-1.2.11/inffast.c:135-274 | From the distance code on: extra bits, reach check and copy are the specification's distance step |
| `InflateFast.DecodeSymbol` | IAP project/Projects/zlib-1.2.11/inffast.c:103-289 | One turn of the loop is one step of the bit-serial decoder, reads at most 6 input bytes, writes at most 258 output bytes and leaves all others alone |
| `InflateFast.SixBytes` | IAP project/Projects/zlib-1.2.11/inffast.c:37-43 | A length and distance pair is at most 48 bits, so at most six bytes are read |
| `InflateFast.DecodeLoop` | IAP project/Projects/zlib-1.2.11/inffast.c:103-290 | The do loop is some number of decoder steps, and in mode LEN ends only when a margin is used up |
| `InflateFast.GiveBack` | IAP project/Projects/zlib-1.2.11/inffast.c:292-296 | Giving back whole bytes never goes before this call's input, keeps the stream position and clears the bits above |
| `InflateFast.StoreBack` | IAP project/Projects/zlib-1.2.11/inffast.c:298-306 | avail_in and avail_out account for every byte left, whichever side of the margin the loop stopped on |
| `InflateFast.InflateFast` | IAP project/Projects/zlib-1.2.11/inffast.c:50-307 | For every well-formed table pair, window and input at the entry conditions: exactly the output, mode and consumed bits of the bit-serial decoder on one growing history; no access outside the buffers; fewer than 8 bits held at the end |
| `InflateLaws.CallExpands` | IAP project/Projects/zlib-1.2.11/inffast.c:50-307 | What a call adds to the history of such a stream is what its next tokens mean |
| `FinshLang.LoadStore` | APP project/components/finsh/finsh_ops.c:428-434 | A long stored at any address, wrap-around included, is read back |
| `FinshLaws.AddCounts` | APP project/components/finsh/finsh_ops.c:69-74 | Adding 0 changes nothing, adding one more gives the next value around the circle |
| `FinshLaws.SubUndoesAdd` | APP project/components/finsh/finsh_ops.c:91-96 | Subtraction and addition undo each other |
| `FinshLaws.MulUnits` | APP project/components/finsh/finsh_ops.c:157-162 | A multiple by 0 is 0, by 1 the value itself |
| `FinshLaws.MulOverAdd` | APP project/components/finsh/finsh_ops.c:157-162 | Multiplication distributes over addition |
| `FinshLaws.SignedArithmetic` | APP project/components/finsh/finsh_ops.c:69-162 | Sum, difference and product of signed values are exact wherever a long can hold them |
| `FinshLaws.DivAndMod` | APP project/components/finsh/finsh_ops.c:113-140 | Defined except for a zero divisor and the one overflowing quotient; the dividend is quotient times divisor plus remainder, the remainder shorter than the divisor and zero or of the dividend's sign |
| `FinshLaws.DividesUnique` | APP project/components/finsh/finsh_ops.c:113-140 | No other quotient and remainder are like that |
| `FinshLaws.ShlMultiplies` | APP project/components/finsh/finsh_ops.c:267-272 | Defined for counts below 32; the product with that power of two |
| `FinshLaws.ShrFloors` | APP project/components/finsh/finsh_ops.c:289-294 | Defined for counts below 32; the signed value divided by that power of two and rounded down |
| `FinshLaws.AndOrXor` | APP project/components/finsh/finsh_ops.c:179-228 | Every binary digit of the result is that operator on the operands' digits |
| `FinshLaws.ComplementDigit` | APP project/components/finsh/finsh_ops.c:245-250 | Every binary digit is the other one |
| `FinshLaws.DigitsDetermine` | APP project/components/finsh/finsh_ops.c:179-250 | The binary digits make the value, so the two laws above leave no other result |
| `FinshLaws.StoreBytes` | APP project/components/finsh/finsh_ops.c:428-434 | A stored long is four bytes in base 256, least significant first, and no other byte changes |
| `FinshLaws.OnLiterals` | APP project/components/finsh/finsh_ops.c:42-45 | An operator on two values takes them left and right as written |
| `FinshLaws.LeftFirst` | APP project/components/finsh/finsh_compiler.c:43-53 | The right operand sees what the left one assigned |
| `FinshLaws.CallHandsOver` | APP project/components/finsh/finsh_ops.c:444-569 | A call hands over its arguments in order, and one zero if there are none |
| `FinshLaws.AssignReads` | APP project/components/finsh/finsh_compiler.c:311-372 | An assignment has the assigned value, and the target has it from then on |
| `FinshLaws.AssignThrough` | APP project/components/finsh/finsh_compiler.c:311-372 | What is assigned through a pointer is read back through it |
| `FinshLaws.DerefOfAddress` | APP project/components/finsh/finsh_compiler.c:718-757 | *&x is x, and &*e is e |
| `FinshLaws.PreStepAssigns` | APP project/components/finsh/finsh_compiler.c:373-534 | ++x and --x are x = x + 1 and x = x - 1 |
| `FinshLaws.PostStepLags` | APP project/components/finsh/finsh_compiler.c:535-713 | x++ and x-- have the value from before and the effect of ++x and --x |
| `FinshLaws.StatementsInOrder` | APP project/components/finsh/finsh_compiler.c:918-934 | Statements take effect in order; the last one gives the line its value |
| `FinshCompiler.Compiler.TypeCheck` | APP project/components/finsh/finsh_compiler.c:759-901 | The recursion leaves every node of the forest with the address flag and data type of the specification, links and other nodes untouched |
| `FinshCompiler.Compiler.CodeDword` | APP project/components/finsh/finsh_compiler.c:41 | The four bytes of a long, least significant first |
| `FinshCompiler.Compiler.EmitNode` | APP project/components/finsh/finsh_compiler.c:52-749 | The switch writes exactly the node's code of the specification |
| `FinshCompiler.Compiler.Compile` | APP project/components/finsh/finsh_compiler.c:43-757 | Children, node, siblings: the recursion writes exactly the code of the tree behind what was written |
| `FinshCompiler.Compiler.CompileStatement` | APP project/components/finsh/finsh_compiler.c:922-933 | One statement off the list: its code, and a pop if another follows |
| `FinshCompiler.Compiler.CompilerRun` | APP project/components/finsh/finsh_compiler.c:903-937 | The text segment holds the program's code followed by zeros; stack cell 0 is cleared |
| `FinshCorrect.TypeAgrees` | APP project/components/finsh/finsh_compiler.c:786-898 | The type found on the tree is that of the expression's leftmost leaf |
| `FinshCorrect.ExprCorrect` | APP project/components/finsh/finsh_ops.c:69-441 | Running the code of any typed expression pushes its value and changes memory as the evaluator does, whatever code follows |
| `FinshCorrect.LValueCorrect` | APP project/components/finsh/finsh_compiler.c:311-372 | The code of an assignment target pushes the address the evaluator writes to |
| `FinshCorrect.CallCorrect` | APP project/components/finsh/finsh_compiler.c:285-310 | A call evaluates function and arguments left to right and leaves the result in their place |
| `FinshCorrect.ArgsCorrect` | APP project/components/finsh/finsh_compiler.c:285-310 | Arguments are pushed one cell each, in order |
| `FinshCorrect.PreStepCorrect` | APP project/components/finsh/finsh_compiler.c:373-534 | ++x and --x on a shell variable update it and push the new value |
| `FinshCorrect.PostStepCorrect` | APP project/components/finsh/finsh_compiler.c:535-713 | x++ and x-- on a shell variable update it and push the old value |
| `FinshCorrect.ProgramCorrect` | APP project/components/finsh/finsh_compiler.c:918-934 | Of a statement list only the last value stays on the stack, memory has the effects of all |
| `FinshCorrect.CompilerCorrect` | APP project/components/finsh/finsh_compiler.c:903-937 | Running the whole text segment, trailing zeros included, leaves the last statement's value alone on the stack and the evaluator's memory |
| `FinshCorrect.EffectIsHeight` | APP project/components/finsh/finsh_ops.c:48-569 | Any code that runs through changes the stack height by its static effect |
| `FinshCorrect.OnePushIff` | APP project/components/finsh/finsh_compiler.c:217-757 | For every expression that runs through: it pushes 1 + (operator nodes whose type is none) - (leaves of type void * or void) cells, so exactly one if and only if these two numbers are equal |
| `FinshCorrect.TypedHasNoMisfit` | APP project/components/finsh/finsh_compiler.c:786-795 | Typed expressions have neither |
| `FinshCorrect.InvertOfVoid` | APP project/components/finsh/finsh_compiler.c:266-271 | ~x where x's type is void leaves x itself: for these the pushed value is always wrong |
| `FinshCorrect.DerefOfVoid` | APP project/components/finsh/finsh_compiler.c:718-740 | *x where x has no type leaves x itself: right if and only if memory holds x at address x |
| `FinshCorrect.BinaryOfVoid` | APP project/components/finsh/finsh_compiler.c:217-284 | A binary operator whose left side has no type leaves both operands on the stack |
| `FinshCorrect.AssignOfVoid` | APP project/components/finsh/finsh_compiler.c:311-372 | An assignment to what has no type stores nothing and leaves address and value on the stack |
| `FinshCorrect.SilentPushesNothing` | APP project/components/finsh/finsh_compiler.c:71-126 | A variable of type void * or void, and no other identifier, has no code, for its value or for its address |
| `FinshCorrect.AssignOfVoidPointer` | APP project/components/finsh/finsh_compiler.c:137-194 | p = x for a void * p stores x where the cell below on the stack points, and underflows with nothing below |
| `FinshCorrect.PreStepOfSysVariable` | APP project/components/finsh/finsh_compiler.c:373-534 | On a system variable ++x counts in the table entry, not the variable: the result is right if and only if the two hold the same value |
| `FinshCorrect.PostStepOfSysVariable` | APP project/components/finsh/finsh_compiler.c:535-713 | On a system variable x++ pushes the right value but counts in the table entry: the memory is right if and only if the entry's value field is the variable itself |
| `FinshCorrect.CallPlusTwo` | APP project/components/finsh/finsh_compiler.c:217-222 | f() + 2 leaves both operands on the stack: no addition is emitted for a void first child |
| `FinshMachine.Machine.PopParameters` | APP project/components/finsh/finsh_ops.c:455-463 | The parameters come off the stack in reverse and stand in order |
| `FinshMachine.Machine.OpCall` | APP project/components/finsh/finsh_ops.c:444-569 | Parameters and function leave the stack, the function's result and memory effect take their place |
| `FinshMachine.Machine.OpStDword` | APP project/components/finsh/finsh_ops.c:428-434 | The value is stored at the address below it and that address stays on the stack |
| `FinshMachine.Machine.OpLdValueDwordStack` | APP project/components/finsh/finsh_ops.c:389-397 | The address on top of the stack is replaced by the long it points to |
| `FinshMachine.Machine.Dispatch` | APP project/components/finsh/finsh_vm.c:65-70 | One turn through the opcode table moves pc, sp, stack and memory as the instruction's meaning says |
| `FinshMachine.Machine.VmRun` | APP project/components/finsh/finsh_vm.c:47-72 | The loop over the text segment ends in the state the text denotes |
| `FinshMachine.RunLine` | APP project/components/finsh/finsh_init.c:52-55 | Compiling and running a typed program on one shared text and stack yields the evaluator's memory, and the stack bottom is the last statement's value; an empty program gives 0 |
| `FinshHeap.WordsExact` | APP project/components/finsh/finsh_heap.c:43 | The aligned size is the least that covers the request, and leaves room for a header in 32 bits, exactly for the sizes stated |
| `FinshHeap.Heap.constructor` | APP project/components/finsh/finsh_heap.c:55-68 | One free block over the whole heap, nothing allocated |
| `FinshHeap.Heap.BlockInsert` | APP project/components/finsh/finsh_heap.c:166-200 | The list stays sorted by address with the block in its place, though its own link may be stale, unless it would go last |
| `FinshHeapBlocks.TopIsLast` | APP project/components/finsh/finsh_heap.c:189-199 | Because the topmost block is free, a block to be freed is never the last of the free list: the stale link is always overwritten |
| `FinshHeap.Heap.BlockRemove` | APP project/components/finsh/finsh_heap.c:205-227 | The list without the block; its own link is cleared if it was first and stale otherwise |
| `FinshHeap.Heap.BlockSplit` | APP project/components/finsh/finsh_heap.c:232-246 | Two headers that share the room and the link of one |
| `FinshHeapBlocks.SplitTiles` | APP project/components/finsh/finsh_heap.c:232-246 | After a split the blocks still tile the heap |
| `FinshHeapBlocks.AdjacentRight` | APP project/components/finsh/finsh_heap.c:274-276 | The address comparison finds the next free block adjacent exactly when the next block is free |
| `FinshHeapBlocks.AdjacentLeft` | APP project/components/finsh/finsh_heap.c:269-271 | The same on the other side |
| `FinshHeapBlocks.MergeBoth` | APP project/components/finsh/finsh_heap.c:273-283 | Three blocks become one: layout and allocated blocks as they should be |
| `FinshHeap.Heap.BlockMerge` | APP project/components/finsh/finsh_heap.c:248-298 | After the four-way merge no two neighbours are free; only headers changed |
| `FinshHeap.Heap.Free` | APP project/components/finsh/finsh_heap.c:115-128 | Sorted lists tile the heap, neighbours merged, top free; exactly this block is no longer allocated and all other contents are kept |
| `FinshHeap.Heap.FindSlot` | APP project/components/finsh/finsh_heap.c:143-150 | The scan ends inside the table if and only if a variable in use holds the pointer |
| `FinshHeap.Heap.Gc` | APP project/components/finsh/finsh_heap.c:133-161 | Exactly the blocks some variable points to stay allocated, with their contents |
| `FinshHeap.Heap.FindRoom` | APP project/components/finsh/finsh_heap.c:79-95 | First fit with a strict bound, after a collection with the weaker one; failing means no block is long enough |
| `FinshHeap.Heap.Allocate` | APP project/components/finsh/finsh_heap.c:73-110 | A zeroed block of the aligned size that was not in use, the lowest free one that fits if no collection was needed; NULL only after a collection with no block long enough; all surviving contents kept |
| `MemHeap.RequestSize` | APP project/src/memheap.c:154-157 | The request is a multiple of 4, at least MINIALLOC and otherwise less than 4 above the size, and covers the size exactly up to 2^32 - 4 |
| `MemHeap.GrowGuardExact` | APP project/src/memheap.c:354 | The guard for growing in place says what it should if and only if newsize + MINIALLOC does not wrap around 32 bits |
| `MemHeap.GrowGuardWraps` | APP project/src/memheap.c:354 | A size for which it wraps and the guard wrongly holds |
| `MemHeap.Heap.constructor` | APP project/src/memheap.c:60-131 | One free block, one used tailer, counters as rt_memheap_init sets them |
| `MemHeap.Heap.Unlink` | APP project/src/memheap.c:222-226 | The circular free list without the block |
| `MemHeap.Heap.LinkFirst` | APP project/src/memheap.c:228-232 | The circular free list with the block behind its header |
| `MemHeap.Heap.NewBlock` | APP project/src/memheap.c:199-220 | A header inside a block splits it: blocks still tile the pool, prev inverts next |
| `MemHeap.Heap.Find` | APP project/src/memheap.c:176-187 | The walk finds the first block of the free list that is large enough |
| `MemHeapBlocks.SearchFails` | APP project/src/memheap.c:176-187 | The walk along the free list fails if and only if no free block anywhere has room |
| `MemHeap.Heap.RoomMeans` | APP project/src/memheap.c:162-190 | The test against available_size and the search together fail if and only if no free block has room or the request is for all that is available |
| `MemHeap.Heap.RefusedFit` | APP project/src/memheap.c:162 | The one case of a refused fit: then the block is the only free one, and exactly as long as the request |
| `MemHeap.Heap.Alloc` | APP project/src/memheap.c:146-288 | NULL if and only if no free block has room or the request equals available_size, with nothing changed; otherwise the first block on the free list with room, exactly the request of it if 4 HEADER + MINIALLOC bytes are left and all of it if not, the rest a free block that serves the next request, all other live blocks kept |
| `MemHeap.Heap.MergeLeft` | APP project/src/memheap.c:541-558 | With a free left neighbour the two become one; otherwise nothing changes |
| `MemHeap.Heap.MergeRight` | APP project/src/memheap.c:560-579 | With a free right neighbour the two become one; otherwise nothing changes |
| `MemHeap.Heap.Free` | APP project/src/memheap.c:499-596 | Exactly this block is free again; no two free neighbours, each free block once on the ring, available_size the sum of free payloads; other payloads kept |
| `MemHeap.Heap.HasRoom` | APP project/src/memheap.c:337-354 | The test says yes exactly when the next block is free and leaves more than MINIALLOC after growing |
| `MemHeap.Heap.GrowIfRoom` | APP project/src/memheap.c:332-407 | Grown in place, contents kept, exactly when that test says yes; otherwise nothing changes |
| `MemHeap.Heap.Grow` | APP project/src/memheap.c:354-406 | Growing in place, the new header possibly over the old one: layout, live blocks and every payload |
| `MemHeap.Heap.Shrink` | APP project/src/memheap.c:423-495 | Shrinking in place, merging the tail with a free neighbour: layout, live blocks and every payload |
| `MemHeap.Heap.Move` | APP project/src/memheap.c:412-420 | NULL, with nothing changed, if and only if no free block has room or the request equals available_size; otherwise in the first fit, of the size rt_memheap_alloc would give, its rest free for the next request, the old payload the front of the new one, other blocks kept |
| `MemHeap.Heap.Realloc` | APP project/src/memheap.c:291-496 | Which path is taken and what size results on it, in bytes of the request and of the block found; what a block leaves of its room is a free block that serves the next request; the first min(old, new) words survive and other live blocks are untouched; a NULL result for a nonzero size leaves the heap as it was |
| `MemHeap.FreeingAllRestores` | APP project/src/memheap.c:60-131 | With nothing in use the pool is one free block of the initial size again, whatever went before |
| `MemHeap.HighWaterMark` | APP project/src/memheap.c:241-242 | max_used_size, which the invariant ties to the log of all states, bounds each of them and was reached |
| `MemHeapBlocks.AllFree` | APP project/src/memheap.c:541-579 | A valid layout without live blocks has one free block: coalescing is complete |
| `MemHeapBlocks.LiveDetermines` | APP project/src/memheap.c:499-620 | The live blocks of a pool determine every other block and how much is free, whatever the calls in between: between two live blocks lies one free block |
| `SmallMem.Aligned` | APP project/src/mem.c:262-263 | The aligned size is less than 4 above the request and covers it exactly up to 2^32 - 4 |
| `SmallMem.Heap.constructor` | APP project/src/mem.c:184-231 | One free block, heap_end in use, lfree at the start |
| `SmallMemBlocks.SearchServes` | APP project/src/mem.c:279-292 | The loop's end test and size test select the first block from lfree on that is longer than the request, or exactly as long and not the last |
| `SmallMem.Heap.SearchMeans` | APP project/src/mem.c:279-292 | The search of a request fails if and only if no block from lfree on serves it, and otherwise finds the first that does |
| `SmallMem.Heap.RefusesWhat` | APP project/src/mem.c:279-292 | With a right hint a request is refused if and only if every free block is too short, or an exact fit that ends at heap_end |
| `SmallMem.Heap.WholeHeapRefused` | APP project/src/mem.c:279-281 | The failing case: a heap with nothing in use refuses a request for all of it, though its one block fits |
| `SmallMem.Heap.Find` | APP project/src/mem.c:279-285 | NULL if and only if no block from lfree on serves the request; otherwise the first that does |
| `SmallMemBlocks.HintSearch` | APP project/src/mem.c:279-285 | With a right hint, searching from lfree finds what searching from the start would |
| `SmallMem.Heap.Malloc` | APP project/src/mem.c:246-374 | NULL if and only if the size is 0, exceeds the heap, or no block from lfree on serves it, with nothing changed; otherwise the first that does, exactly the request of it if a header and MIN_SIZE bytes are left and all of it if not, the rest a free block that serves the next request; other live blocks kept, a right hint stays right, max_mem follows |
| `SmallMem.Heap.PlugForward` | APP project/src/mem.c:145-160 | A free block behind is combined; lfree follows |
| `SmallMem.Heap.PlugBackward` | APP project/src/mem.c:162-173 | A free block before is combined; lfree follows |
| `SmallMem.Heap.PlugHoles` | APP project/src/mem.c:136-174 | No two neighbours are free afterwards; a lowest-free hint stays one |
| `SmallMem.Heap.Free` | APP project/src/mem.c:504-558 | Exactly this block is freed, used_mem the span of used blocks, prev inverts next except at heap_end, lfree lowest if it was |
| `SmallMem.Heap.Shrink` | APP project/src/mem.c:430-454 | In place, contents kept; afterwards lfree is still lowest if and only if it does not lie behind the new free block |
| `SmallMem.Heap.Move` | APP project/src/mem.c:457-465 | NULL, with nothing changed, exactly when no block serves; otherwise in the block rt_malloc finds, of the size it would give, its rest free for the next request; the old payload up to the new size copied, the old block freed |
| `SmallMem.Heap.Realloc` | APP project/src/mem.c:385-466 | Which path is taken and what size results on it; what a block leaves of its room is a free block, found by the next request unless the block shrank below lfree; the first min(old, new) words survive, other blocks untouched, NULL changes nothing, and the hint goes wrong only by such a shrink |
| `SmallMemBlocks.LiveDetermines` | APP project/src/mem.c:136-173 | The live blocks of a heap determine every other block, whatever the calls in between: between two live blocks lies one free block |
| `SmallMem.FreeingAllRestores` | APP project/src/mem.c:183-232 | With nothing in use the heap is the one free block of rt_system_heap_init |
| `RtList.InsertAfter` | APP project/include/rtservice.h:62-69 | The ring with the node behind l; all other links as they were |
| `RtList.InsertBefore` | APP project/include/rtservice.h:77-84 | The ring with the node before l; before the head it is the last member |
| `RtList.Remove` | APP project/include/rtservice.h:90-96 | The ring without the node, which is a ring of its own again |
| `RtList.IsEmpty` | APP project/include/rtservice.h:102-105 | True exactly when the head is alone in its ring |
| `RtList.InsertAndRemove` | APP project/include/rtservice.h:62-96 | Inserting a node behind any entry and removing it again leaves every link of the list as it was |
| `WaitList.Position` | APP project/src/ipc.c:110-122 | The place before the first waiter that is less urgent |
| `WaitList.QueuedSorted` | APP project/src/ipc.c:105-131 | A priority queue stays sorted, and a newcomer stands behind exactly the waiters at least as urgent |
| `WaitList.QueuedAround` | APP project/src/ipc.c:92-140 | The others keep their order |
| `WaitList.FifoOrder` | APP project/src/ipc.c:103-107 | A FIFO list holds the threads in order of arrival, whatever their priorities |
| `WaitList.Suspend` | APP project/src/ipc.c:99-132 | The loop queues the thread as the flag demands |
| `Mailbox.StepKeeps` | APP project/src/ipc.c:1404-1674 | Every step of a sender, a receiver or a timeout keeps the invariant and conserves the mails |
| `Mailbox.RunKeeps` | APP project/src/ipc.c:1404-1674 | Over every interleaving: invariant kept, and what was stored before plus what was sent is what was received plus what is stored, in order |
| `Mailbox.NoLostWakeup` | APP project/src/ipc.c:1505-1522 | In every reachable state a waiting receiver means no more mails than receivers resumed but not yet back, and the same for senders and free places; mails arrive in the order sent |
| `Mailbox.NeverStuck` | APP project/src/ipc.c:1506-1508 | When all wake-ups are used up, waiting receivers face an empty mailbox and waiting senders a full one, never both |
| `MailboxLaws.RecvEnters` | APP project/src/ipc.c:1567-1674 | The oldest mail if there is one; otherwise failure exactly if the timeout is 0, and waiting with the timeout kept if not; a freed place wakes the first sender; nobody else is touched |
| `MailboxLaws.RecvGoesOn` | APP project/src/ipc.c:1579-1674 | The same after a wake-up, with the waiting time left: less the ticks elapsed, never negative, forever staying forever |
| `MailboxLaws.SendEnters` | APP project/src/ipc.c:1422-1522 | The mail becomes the newest if there is room; otherwise failure exactly if the timeout is 0, and waiting if not; a mail wakes the first receiver; nobody else is touched |
| `MailboxLaws.SendGoesOn` | APP project/src/ipc.c:1434-1522 | The same after a wake-up, with the mail of the call and the waiting time left |
| `MailboxLaws.TimesOut` | APP project/src/thread.c:636-653 | A timeout ends that call without a mail and touches nobody else |
| `MailboxLaws.HandOver` | APP project/src/ipc.c:1404-1674 | A receiver that waits at an empty mailbox, even forever, is woken by the next send and gets that mail |
| `MailboxLaws.MadeRoom` | APP project/src/ipc.c:1404-1674 | A sender that waits at a full mailbox is woken by the next receive, and its mail is then the newest |
| `Mailbox.MailboxObject.ReceiveLoop` | APP project/src/ipc.c:1578-1674 | From the loop test on, the object's fields move as the specification's step |
| `Mailbox.MailboxObject.PostLoop` | APP project/src/ipc.c:1433-1522 | The same for the sender |
| `Mailbox.MailboxObject.RecvSection` | APP project/src/ipc.c:1567-1621 | The first region of a receive is one step of the protocol |
| `Mailbox.MailboxObject.SendSection` | APP project/src/ipc.c:1422-1474 | The first region of a send is one step of the protocol |
| `Mailbox.MailboxObject.RecvResumed` | APP project/src/ipc.c:1623-1641 | After the schedule: an error ends the call, otherwise the loop goes on with the rest of the time |
| `Mailbox.MailboxObject.SendResumed` | APP project/src/ipc.c:1476-1494 | The same for the sender |
| `Mailbox.MailboxObject.ThreadTimeout` | APP project/src/thread.c:636-653 | The timeout takes the thread off its list with an error and is one step of the protocol |
| `Mutex.StepKeeps` | APP project/src/ipc.c:642-858 | Taking, releasing and timing out keep the mutex invariant |
| `Mutex.MutexInvariant` | APP project/src/ipc.c:642-858 | In every reachable state: value 1 iff no owner iff hold 0, then nobody waits; waiters sorted by urgency, equally urgent ones by arrival; the owner at least as urgent as every waiter; all others at their own priority |
| `Mutex.LastRelease` | APP project/src/ipc.c:806-849 | In every reachable state the last release restores the owner's own priority and passes the mutex to the waiter that precedes all others, by urgency or among equals by arrival |
| `Mutex.TakeInherits` | APP project/src/ipc.c:702-717 | A waiter is queued by priority and its urgency reaches the owner at once |
| `Mutex.TakeExact` | APP project/src/ipc.c:702-717 | Taking keeps the owner at exactly the urgency of itself and its waiters |
| `Mutex.ReleaseExact` | APP project/src/ipc.c:806-849 | So does releasing |
| `Mutex.TimeoutExact` | APP project/src/thread.c:636-653 | A timeout does if and only if the owner runs at its own priority, or the thread was less urgent than the owner, or another waiter is as urgent |
| `Mutex.RunExact` | APP project/src/ipc.c:642-858 | Over every run whose timeouts meet that condition the owner has exactly the urgency it should have |
| `Mutex.BoostLasts` | APP project/src/ipc.c:809-817 | Until the last release nothing but a more urgent waiter changes the owner's priority |
| `Mutex.TimeoutKeepsBoost` | APP project/src/ipc.c:706-713 | A run that ends with a boosted owner and no waiter: the case in which the condition of TimeoutExact fails |
| `MutexLaws.TakeMeans` | APP project/src/ipc.c:652-756 | Taken at once exactly if free or one's own, once more each time; refused exactly if another's and the time is 0; otherwise waiting, the others in order |
| `MutexLaws.ReleaseMeans` | APP project/src/ipc.c:786-852 | Only the owner releases, and keeps the mutex until the last release |
| `MutexLaws.Balance` | APP project/src/ipc.c:642-858 | After any run each thread has the mutex as often as it took it or was handed it, less its releases |
| `MutexLaws.OwnerOwes` | APP project/src/ipc.c:642-858 | In every reachable state the owner is the thread that has releases to make, and hold is their number |
| `MutexLaws.NestedTakes` | APP project/src/ipc.c:667-671 | Takes inside each other are undone by as many releases, whatever was inherited |
| `MutexLaws.TakenAndReleased` | APP project/src/ipc.c:642-858 | A free mutex taken k times is free again after k releases |
| `Mutex.MutexObject.TakeSection` | APP project/src/ipc.c:652-756 | The region of rt_mutex_take is one step of the specification |
| `Mutex.MutexObject.ReleaseSection` | APP project/src/ipc.c:786-852 | The region of rt_mutex_release is one step of the specification |
| `MessageQueue.Queue.constructor` | APP project/src/ipc.c:1767-1782 | All nodes on the free list, the queue empty |
| `MessageQueue.Queue.Obtain` | APP project/src/ipc.c:1939-1956 | A node passes from the free list to the call; queue contents and nodes held by others as before |
| `MessageQueue.Queue.CopyIn` | APP project/src/ipc.c:1958-1961 | Writing the held node touches neither the queue nor any other held node |
| `MessageQueue.Queue.LinkBack` | APP project/src/ipc.c:1963-1979 | The message becomes the last of the queue; the node is no longer held |
| `MessageQueue.Queue.LinkFront` | APP project/src/ipc.c:2049-2061 | The message becomes the first of the queue |
| `MessageQueue.Queue.TakeFront` | APP project/src/ipc.c:2192-2205 | The first message leaves the queue in a held node and is remembered as taken; the tail is cleared with the last |
| `MessageQueue.Queue.GiveBack` | APP project/src/ipc.c:2210-2216 | The held node returns to the free list, the queue as before |
| `MessageQueue.Queue.Reset` | APP project/src/ipc.c:2249-2267 | The whole queue goes to the free list; nodes held by calls in between stay theirs |
| `ReadyBitmap.ByteLowest` | APP project/src/kservice.c:1197-1215 | Every entry of the table but the first is its index's lowest set bit |
| `ReadyBitmap.FfsIsLowest` | APP project/src/kservice.c:1227-1241 | Zero for zero, otherwise one more than the position of the lowest set bit |
| `ReadyBitmap.SetMarks` | APP project/src/scheduler.c:297-300 | Setting marks exactly one priority more, with 32 levels or 256 |
| `ReadyBitmap.ClearMarks` | APP project/src/scheduler.c:340-348 | Clearing unmarks exactly that priority |
| `ReadyBitmap.HighestIsLowest` | APP project/src/scheduler.c:205-212 | The two-level (or one-level) search finds the smallest marked priority number |
| `Scheduler.Scheduler.constructor` | APP project/src/scheduler.c:120-147 | Empty queues and bitmap |
| `Scheduler.Scheduler.InsertThread` | APP project/src/scheduler.c:267-304 | Ready, last in the queue of its priority, every other queue as before, the bitmap right |
| `Scheduler.Scheduler.RemoveThread` | APP project/src/scheduler.c:313-353 | Off its queue, every other queue as before, the bitmap right |
| `Scheduler.Scheduler.Schedule` | APP project/src/scheduler.c:191-258 | Unlocked, the first thread of the smallest priority number with a ready thread becomes current; locked, nothing changes |
| `Scheduler.Scheduler.Startup` | APP project/src/thread.c:203-226 | The thread is ready at its initial priority, last in its queue |
| `Scheduler.Scheduler.Delete` | APP project/src/thread.c:340-366 | The thread is closed and in no queue |
| `Scheduler.Scheduler.Yield` | APP project/src/thread.c:377-411 | The current thread goes to the end of its queue exactly when it is ready and shares it |
| `Scheduler.Scheduler.ChangePriority` | APP project/src/thread.c:485-526 | A ready thread moves from its queue to the end of the new one, any other only changes its attributes |
| `Scheduler.Scheduler.Suspend` | APP project/src/thread.c:554-585 | Only a ready thread; it leaves its queue |
| `Scheduler.Scheduler.Resume` | APP project/src/thread.c:595-627 | Only a suspended thread; it goes last in its queue |
| `Scheduler.Scheduler.ThreadTimeout` | APP project/src/thread.c:636-653 | The suspended thread is ready and last in its queue |
| `TimerSpec.Comparisons` | APP project/src/timer.c:356-360 | Both unsigned comparisons order timeouts by ticks left, wrap-around included, in a window of half the tick range |
| `TimerSpec.StartKeeps` | APP project/src/timer.c:294-409 | Starting keeps the timer list sorted and in the window, the started timer init_tick away |
| `TimerSpec.StartPosition` | APP project/src/timer.c:351-363 | A started timer stands behind every timer that expires no later, equal ones included, and before all others |
| `TimerSpec.StopKeeps` | APP project/src/timer.c:419-439 | Stopping keeps the invariant and takes the timer off the list |
| `TimerSpec.CheckFires` | APP project/src/timer.c:488-546 | The expiry loop fires exactly the due timers in list order and leaves none due |
| `TimerSpec.NoneDue` | APP project/src/timer.c:501-540 | With none due, the window may move on by a tick |
| `TimerRun.CheckFate` | APP project/src/timer.c:501-540 | A timer fires if and only if it is due; it stays on the list unless it fired and is not periodic |
| `TimerRun.TickFate` | APP project/src/clock.c:83-105 | A tick fires a timer if and only if at most one tick was left, otherwise takes one tick off |
| `TimerRun.OtherFate` | APP project/src/timer.c:294-439 | Starting or stopping one timer leaves every other timer's time alone |
| `TimerRun.FiresInRun` | APP project/src/clock.c:83-105 | Over any run of ticks and operations on other timers, the complete list of the times a timer fires |
| `TimerRun.FiresExactly` | APP project/src/timer.c:320-321 | Started with n >= 1 and left alone, a timer fires exactly n ticks later, a periodic one every n ticks, and never otherwise |
| `TimerSkip.RowsNest` | APP project/src/timer.c:369-388 | Each row of the skip list is a sublist of the row below |
| `TimerSkip.SkipTimers.Remove` | APP project/src/timer.c:123-131 | The timer leaves every row it is in |
| `TimerSkip.SkipTimers.Search` | APP project/src/timer.c:339-367 | Going down row by row finds in each row the place of the new timer |
| `TimerSkip.SkipTimers.LinkRows` | APP project/src/timer.c:369-388 | The timer enters the row r rows above the last one exactly if 4^r divides the advanced insert counter, each at the place found, and no other row changes |
| `TimerSkip.SkipTimers.StartTimer` | APP project/src/timer.c:294-409 | For any number of levels the rows represent the specification's list after a start |
| `TimerSkip.SkipTimers.StopTimer` | APP project/src/timer.c:419-439 | Stopping refines the specification, and fails exactly for a timer that is not active |
| `TimerSkip.SkipTimers.CheckTimers` | APP project/src/timer.c:488-546 | The loop over the last row refines the specification's expiry and terminates |
| `TimerSkip.SkipTimers.TickIncrease` | APP project/src/clock.c:83-105 | Tick and expiry refine the specification's tick step |
| `MessageQueue.Queue.CopyOut` | APP project/src/ipc.c:2207-2208 | The message copied out is the one that was at the front when the receiver took its node, whatever other calls did in between |
| `Mutex.MutexObject.TimeoutSection` | APP project/src/thread.c:636-653 | The timeout of a waiting thread is one step of the specification |

## Left out

- InflateFast.InflateFast: the builds with INFLATE_STRICT or with invalid distances allowed, and `sane` = 0, are not modelled.
- InflateSpec: how inflate_table builds the tables; they enter through the predicate `WellFormed`.
- inflate.c: the outer state machine, apart from its window update, and allocation of the window.
- Crc32.MakeCrcTable: the guard against concurrent table building and the literal tables of crc32.h; `unsigned long` is 32 bits.
- Crc32, Adler32: unrolled macros are inner loops or repeated calls.
- Adler32.Adler32Z: a null buffer of length 1 is excluded, since the source reads its first byte before the null check.
- finsh_parser.c and finsh_token.c: the model starts from the child/sibling tree.
- FinshCorrect.CompilerCorrect: char and short variables, casts and NULL nodes are left out, and a string is the address it compiles to; void * and void variables are in the model but not `Typed`, since the compiler emits nothing for them.
- FinshCorrect.CompilerCorrect: C leaves division by zero, shifts by 32 or more and signed overflow undefined; the first two have no meaning on either side, overflow wraps on both.
- FinshMachine.RunLine: the program's memory is apart from the machine's own stack and text; functions called by the shell are a parameter.
- FinshMachine.Machine.VmRun: runs that overflow the stack or leave the text segment; the precondition is that the code runs through.
- FinshHeap.Heap.Allocate: requests whose aligned size plus a header wraps around 32 bits; `FinshHeap.WordsExact` says which.
- FinshHeap.Heap.Free: pointers that no allocation returned.
- MemHeap.Heap.Realloc: excludes requests for which the grow guard wraps around; `MemHeap.GrowGuardExact` gives the exact condition.
- MemHeap, SmallMem: calls are atomic, as their semaphores make them; magic words, pool pointers, hooks and debug output are not modelled.
- MemHeap.Heap.constructor: pools of at least two headers; SmallMem.Heap.constructor: heaps of at least MIN_SIZE_ALIGNED bytes.
- SmallMem.Heap.Free: pointers outside the heap, which rt_free and rt_realloc ignore; rt_calloc.
- Mailbox: deletion, detachment, control and reset while threads wait.
- MessageQueue: the list of waiting receivers (the mailbox's protocol on one side), message sizes and the size checks.
- Mutex: FIFO-flagged and nested mutexes, other priority changes during ownership, and more than 255 nested takes.
- Scheduler: real context switches, the defunct list, hooks, detach; Startup, Yield and ThreadTimeout end before their call of rt_schedule.
- TimerSkip: callbacks that start or stop timers, soft timers, timer control and rt_tick_set; rt_timer_start is one atomic step; time slices.
- WaitList, Scheduler, TimerSkip: lists are sequences; that the intrusive links represent sequences is proved in RtList alone.
- Semaphores and events: subsets of the protocols modelled here.
- slab.c, module.c, mempool.c, the printf family, the shell's commands, drivers, board and interrupt code.
