# Verification of the algorithms in mc/intl

The directory mc/intl of the Midnight Commander holds a copy of GNU libintl. This project models its algorithms in
Dafny and proves what they promise. `dafny verify dfyconfig.toml` checks everything.

**Bignum decimal conversion** (`vasnprintf.c`): `Limbs`, `Multiply`, `Division`, `DivisionStep`, `ShortDivision`,
`Divide`, `Rounding`, `Logarithms`, `Decimal`, `Scale10`. Bignums are arrays of 32-bit limbs with 64-bit accumulators,
written in place by the same loops; quotient and remainder share one buffer. The main theorem is
`Scale10.Scale10RoundDecimalDecoded`: the digits printed are those of m * 2^e * 10^n rounded half to even. The size
factors 0.03345 and 2.322 are taken as exact rationals.

**Red/black tree** (`tsearch.c`): `TreeShape`, `TreeHeap`, `TreeRotate`, `TreeSplit`, `TreeInsert`, `TreeRepair`,
`TreeTurn`, `TreeFixup`, `TreeUnchain`, `TreeHeight`, `TreeDelete`, `TreeRuns`. Nodes are heap objects that are
rewritten through slot pointers. The heap is described by a shape and a zipper (the surroundings of the node a slot
points to), and the memory of the nodes is a value, so that every write has an exact effect. Slot pointers that went
stale carry ghost flags; dereferencing one would be a proof failure. The main theorem is `TreeRuns.Run`: any run of
tsearch, tfind and tdelete behaves like the same run on a finite set, if the tree has fewer than 2^48 nodes whenever a
key is deleted. The root may be red between calls.

**Plural expressions** (`plural.c`, `eval-plural.h`): `PluralTables` (the Bison tables, literally), `PluralLexer`,
`PluralEngine` (one step of the automaton as a function), `PluralGrammar` (expressions as they are written, with C's
precedences), `PluralComplete`, `PluralSound`, `PluralMembers`, `PluralText` (how expressions are written in a text,
and how that is scanned), `PluralParser` (the parser with its two stacks and its lookahead on demand), `PluralPrint`,
`PluralEval`, `PluralLookup`. The main theorems are `PluralParser.Yyparse` (of all texts it accepts exactly those in
which an expression of the grammar is written) and `PluralPrint.PrintAndParse` (printing with the fewest parentheses
and parsing is the identity). The generated file calls `yylex (&yylval)` at plural.c:1281; the model passes the
cursor, as the definition at plural.c:116 intends.

**Locks** (`lock.c`): `Threads`, `RwCond` (mutex and condition variables), `WaitQueue` and `RwHandoff` (circular
queues of events, and the lock that hands itself over), `RwHandoffThreads`, `RecursiveLock`, `Once`. The fields are
classes whose methods are the critical sections; the same specification functions are the steps of transition systems
with one program counter per thread, whose invariants hold in every state of every run. What happens within a critical
section is one step; the once-initialiser and the owner test of the recursive lock, which work without a lock, are
modelled access by access.

**Catalogue index** (`loadmsgcat.c`, `dcigettext.c`, `hash-string.c`): `HashBits`, `HashString`, `Probing`,
`Catalogue`, `SysdepStrings`.

**Format strings** (`printf-parse.c`, `xsize.h`, and the driver in `vasnprintf.c`): `Xsize`, `Allocator`,
`TextBuffer`, `PrintfSyntax` (the language of format strings of section 7.19.6.1 of ISO C 99, with argument numbers),
`PrintfArgs`, `PrintfMeaning`, `PrintfParser`, `PrintfRebuild`, `PrintfBuffer`, `PrintfFormat`. The main theorems are
`PrintfMeaning.ParsesIff` with `PrintfParser.PrintfParse` (exactly the language is accepted),
`PrintfMeaning.ParsedWell` (the aborts behind the parser are unreachable), `PrintfRebuild.RebuiltMeansTheSame` and
`PrintfFormat.Vasnprintf`.

**Locale names and their fallback graph** (`l10nflist.c`, `explodename.c`): `LocaleExplode`, `LocaleMasks`,
`LocaleNames`, `LocaleReading` (what a file name says), `LocaleList`, `LocaleMake`. The list is one of heap objects,
and the recursion inserts into it while it fills in the successors of files that are already in it; those are the
pending files of the invariant; broken files are those that miss a successor because memory was refused. The comment
at l10nflist.c:310-313 says that the modifier is dropped first; the code drops it last
(`LocaleMasks.LaterBitsOutlast`), and the model follows the code.

**Converted strings** (`dcigettext.c`): `ConvertedStrings`. The blocks belong to the heap of malloc and realloc, of
which an oracle says which calls succeed and where the blocks go; an attempt with realloc that fails leaves its block
behind, as in the source.

Conventions. The two mirror images of the tree code are one text with a parameter of type `Side`. Keys are integers:
the rank of a key in the order of the comparison function. Allocation results are parameters (`granted`, `malloc`,
`grants`, `mem`), so that every statement covers every pattern of failures. An abort in the source that is proved
unreachable is `assert false`; one that can be reached is a result value. `Wrappers` has the type `Option`.

## Model

| member | source | states |
|---|---|---|
| Limbs.NormalisedLen | mc/intl/vasnprintf.c:486-500 | leading zero limbs are dropped: the result is the length of the normalised number, of the same value |
| Multiply.MultiplyLimb | mc/intl/vasnprintf.c:391-394 | the 64-bit accumulator cannot overflow: carry + digit1*digit2 + dp fits, and splits into the stored limb and the next carry |
| Multiply.AddRow | mc/intl/vasnprintf.c:384-397 | one row adds digit1 * 2^(32i) * src2 to the value in the buffer, in place |
| Multiply.Multiply | mc/intl/vasnprintf.c:342-405 | exact product, normalised, in fresh memory; fails exactly if the allocation fails |
| Division.ShiftCount | mc/intl/vasnprintf.c:552-581 | the bit count s that makes the top limb of b at least 2^31 without losing bits |
| Division.ShiftLeft | mc/intl/vasnprintf.c:592-607 | a shift by s bits multiplies the value by 2^s, the bits shifted out being the final accumulator |
| Division.TwoCorrections | mc/intl/vasnprintf.c:676-691 | the loop that corrects q* runs at most twice, so that the two ifs of the code are enough |
| Division.TrialDigit | mc/intl/vasnprintf.c:645-691 | q* after the two corrections, also on the overflow path, is the exact quotient of the three leading limbs by the two leading limbs (capped at beta-1) |
| Division.TrialDigitBound | mc/intl/vasnprintf.c:441-445 | for a divisor with its top bit set, such a q* is the true digit or one more |
| DivisionStep.WindowEstimate | mc/intl/vasnprintf.c:641-691 | the same for the whole window of n+1 limbs against all n limbs of the divisor |
| DivisionStep.TrialDigitNearTrueDigit | mc/intl/vasnprintf.c:641-691 | there is a true digit d with remainder below b, and q* is d or d+1 |
| DivisionStep.SubtractProduct | mc/intl/vasnprintf.c:697-714 | the complemented subtraction computes r - q* * b in place, with the borrow returned in cr and no 64-bit overflow |
| DivisionStep.AddBack | mc/intl/vasnprintf.c:722-738 | adding b back adds its value to the window, the carry being forgotten |
| DivisionStep.OneAddBack | mc/intl/vasnprintf.c:715-739 | when the subtraction borrows, q* was one too large and one add-back gives the true digit and remainder |
| DivisionStep.QuotientDigit | mc/intl/vasnprintf.c:643-742 | one round of the loop: afterwards the limb r[j+n], which is no longer needed, holds the true digit, and the window below it the remainder |
| Divide.LongDivide | mc/intl/vasnprintf.c:635-747 | the whole loop with q stored over the high limbs of r: quotient and remainder of the shifted numbers in one buffer |
| ShortDivision.DivideByLimb | mc/intl/vasnprintf.c:519-531 | single precision division, also in place: value = quotient * den + remainder |
| Divide.CompareDoubled | mc/intl/vasnprintf.c:772-791 | the loop over the limbs compares 2r with b, without computing 2r |
| Divide.Increment | mc/intl/vasnprintf.c:795-801 | the carry loop adds one to q, growing it by a limb if all limbs overflow |
| Divide.RoundQuotient | mc/intl/vasnprintf.c:772-801 | increments q exactly when r > b/2, or r = b/2 and q is odd: the result is the nearest integer, ties to even |
| Divide.KnuthDivide | mc/intl/vasnprintf.c:610-771 | quotient and remainder of the shifted numbers; the quotient is that of the original ones |
| Divide.Divide | mc/intl/vasnprintf.c:414-808 | for all a and b: abort exactly for b = 0 (once memory is granted), otherwise the normalised integer nearest to a/b with ties to even |
| Rounding.NearestEvenUnique | mc/intl/vasnprintf.c:410-412 | there is at most one integer nearest to a/b with ties to even |
| Rounding.NearestEvenScale | mc/intl/vasnprintf.c:752-753 | comparing r with b/2 may be done on numbers that are both shifted: scaling a and b changes nothing |
| Logarithms.LimbsFitChunks | mc/intl/vasnprintf.c:821-822 | 0.03345 (as the exact rational) is enough: 2^(32 len) needs at most that many chunks of nine digits |
| Logarithms.Pow5FitsLimbs | mc/intl/vasnprintf.c:1075-1081 | 2.322/32 (as the exact rational) is enough limbs for 5^n |
| Decimal.StoreNine | mc/intl/vasnprintf.c:842-847 | nine digits of a remainder, least significant first, continue the digits of the number |
| Decimal.StoreChunk | mc/intl/vasnprintf.c:829-851 | one round divides by 10^9 in place, writes nine digits and uses up one chunk of the size bound |
| Decimal.ConvertToDecimal | mc/intl/vasnprintf.c:816-862 | exactly the decimal digits of a * 10^extra_zeroes, without superfluous zeroes, all within the buffer |
| Decimal.RepresentsUnique | mc/intl/vasnprintf.c:810-815 | a number has only one such digit string |
| Scale10.PowerOfFive | mc/intl/vasnprintf.c:1087-1114 | the loop with the 5^13 table builds exactly 5^|n|, within the limbs allocated |
| Scale10.TimesPow2 | mc/intl/vasnprintf.c:1119-1151 | the two shifts multiply by 2^|s| in place |
| Scale10.PowerOfTwo | mc/intl/vasnprintf.c:1183-1192 | 2^|s| built behind the power of five, within the limbs allocated |
| Scale10.CancelTwos | mc/intl/vasnprintf.c:1060-1063 | rounding 2^s * 5^n * m is rounding 2^e * 10^n * m, whatever the signs |
| Scale10.FactoredOut | mc/intl/vasnprintf.c:1065-1074 | factoring out 10^extra_zeroes does not change the rounded value |
| Scale10.SignCases | mc/intl/vasnprintf.c:1117-1244 | the four sign cases compute the same rounding |
| Scale10.ScaleDecoded | mc/intl/vasnprintf.c:1075-1244 | z = round(2^s * 5^n * m), through all four sign cases |
| Scale10.Scale10RoundDecimalDecoded | mc/intl/vasnprintf.c:1037-1255 | for all e, m, n (sums within int): the decimal digits of round-half-even(m * 2^e * 10^n), or a memory failure |
| TreeHeap.Store | mc/intl/tsearch.c:234 | writing through a slot pointer changes the one pointer in the memory that the slot stands for |
| TreeRotate.RotateSingle | mc/intl/tsearch.c:238-255 | the pointer and colour writes of a single rotation turn the heap into the rotated tree |
| TreeRotate.RotateDouble | mc/intl/tsearch.c:213-234 | the same for a double rotation |
| TreeRotate.RotatedCtxRedBlack | mc/intl/tsearch.c:189-257 | a single rotation repairs two adjacent red edges and keeps all black heights |
| TreeRotate.RotatedTreeRedBlack | mc/intl/tsearch.c:189-257 | a double rotation repairs two adjacent red edges and keeps all black heights |
| TreeSplit.SplitRedBlack | mc/intl/tsearch.c:174-179 | whatever maybe_split_for_insert does, no two adjacent red edges remain and black counts stay equal |
| TreeSplit.SplitKeys | mc/intl/tsearch.c:174-179 | and the in-order key sequence is unchanged |
| TreeSplit.MaybeSplitForInsert | mc/intl/tsearch.c:180-258 | the method on the heap does exactly one of the four outcomes, and dereferences parentp and gparentp only if they are not stale |
| TreeInsert.StepColours | mc/intl/tsearch.c:282-304 | the search invariant survives a step down, including what makes stale slots harmless |
| TreeInsert.DoubleForced | mc/intl/tsearch.c:290-292 | after a double rotation the next node cannot be split, so the garbage slots are not used |
| TreeInsert.Search | mc/intl/tsearch.c:281-304 | the search loop ends at the key, or at the empty slot for it with usable parent slots |
| TreeInsert.AddBelow | mc/intl/tsearch.c:306-318 | the new red leaf and the rotation behind it keep the invariants and add exactly the key |
| TreeInsert.SearchOrAdd | mc/intl/tsearch.c:275-320 | adds exactly the key when absent; NULL exactly when the key is absent and there is no memory; the tree stays valid |
| TreeInsert.Tsearch | mc/intl/tsearch.c:263-321 | the same with the NULL root pointer |
| TreeInsert.Find | mc/intl/tsearch.c:343-354 | returns the node with the key exactly if there is one |
| TreeInsert.Tfind | mc/intl/tsearch.c:330-355 | the same with the NULL root pointer |
| TreeHeight.LongestPath | mc/intl/tsearch.c:37-39 | no path is longer than 1 + 2P, P the length of the shortest path |
| TreeHeight.OnlyChild | mc/intl/tsearch.c:41-42 | if one child of a node is NULL the other one is red |
| TreeHeight.PathBound | mc/intl/tsearch.c:371-376 | with fewer than 2^48 nodes no path has more than 97 nodes above its end |
| TreeRepair.RedBrotherDeficient | mc/intl/tsearch.c:469-488 | rotating a red brother up keeps the missing edge where it is and gives R a black brother |
| TreeRepair.BrotherReddenedDeficient | mc/intl/tsearch.c:491-504 | painting a black brother with black successors red moves the missing edge to the parent |
| TreeRepair.OuterTurnRedBlack | mc/intl/tsearch.c:531-546 | the single rotation repairs the tree completely |
| TreeRepair.InnerTurnRedBlack | mc/intl/tsearch.c:510-530 | the double rotation repairs the tree completely |
| TreeRepair.BlackenedRepairs | mc/intl/tsearch.c:601-602 | painting the last R black repairs the tree, or R is the whole tree |
| TreeTurn.LiftRedBrother | mc/intl/tsearch.c:478-484 | the pointer writes for a red brother |
| TreeTurn.RotateOuter | mc/intl/tsearch.c:537-545 | the pointer writes for a red outer nephew |
| TreeTurn.RotateInner | mc/intl/tsearch.c:522-529 | the pointer writes for a red inner nephew |
| TreeFixup.MakeBrotherBlack | mc/intl/tsearch.c:461-490 | the red-brother case, with its unchecked push, keeps the stack equal to the slots above R |
| TreeFixup.FixStep | mc/intl/tsearch.c:459-599 | one round of the fix-up loop in both mirror images: the missing edge moves up, or the tree is repaired |
| TreeFixup.Fixup | mc/intl/tsearch.c:450-603 | the loop ends with equal black counts on all paths, no red-red edge and the same keys |
| TreeUnchain.UnchainedColours | mc/intl/tsearch.c:432-458 | unchaining a black node leaves one black edge missing; unchaining a red one leaves a valid tree |
| TreeUnchain.Unchain | mc/intl/tsearch.c:434-446 | R takes the place of the unchained node in its parent or in the root variable |
| TreeUnchain.CopyKey | mc/intl/tsearch.c:448-449 | the key of the successor is copied into the node to be deleted, wherever that is on the path |
| TreeUnchain.RemovedMeans | mc/intl/tsearch.c:405-449 | what is left is sorted and is the old set without the key |
| TreeDelete.Push | mc/intl/tsearch.c:386-391 | the abort before a push is unreachable |
| TreeDelete.Locate | mc/intl/tsearch.c:386-398 | the search finds the key exactly if it is there, with all slots above it on the stack |
| TreeDelete.Leftmost | mc/intl/tsearch.c:417-430 | the walk to the successor, with the slots on the stack and no overflow |
| TreeDelete.DeleteKey | mc/intl/tsearch.c:386-606 | removes exactly the key, keeps the invariants, returns the parent (or the root) exactly if the key was there |
| TreeDelete.Tdelete | mc/intl/tsearch.c:364-607 | the same with the NULL pointers |
| TreeRuns.Run | mc/intl/tsearch.c:263-607 | any run of the three functions behaves like the same run on a finite set, if the set has fewer than 2^48 elements whenever a key is deleted |
| TreeRuns.ShortRunBounded | mc/intl/tsearch.c:263-607 | every run of no more than 2^48 - n calls on a tree with n keys meets that bound |
| PluralTables.ActionsBefore | mc/intl/plural.c:605-657 | what the action tables say in states that expect an expression |
| PluralTables.ActionsAfter | mc/intl/plural.c:605-657 | after an expression they shift exactly the operators that bind tightly enough, and reduce otherwise |
| PluralTables.NoErrorAction | mc/intl/plural.c:1596-1608 | no state handles the error symbol |
| PluralTables.Gotos | mc/intl/plural.c:1480-1491 | what the goto tables say |
| PluralLexer.ReadNumber | mc/intl/plural.c:1738-1752 | the value of the digits modulo ULONG_MAX + 1 |
| PluralLexer.Yylex | mc/intl/plural.c:1717-1857 | the scanner computes the token at the cursor, its value and the next cursor |
| PluralText.LexSpelled | mc/intl/plural.c:1720-1857 | every token that is scanned is spelled at its place in literal characters, behind blanks and tabs only |
| PluralText.SpelledLex | mc/intl/plural.c:1720-1857 | and a token that is spelled there, and not continued, is scanned |
| PluralText.ReadsLayout | mc/intl/plural.c:1720-1857 | an expression is written in a text if and only if its tokens are spelled there in order, with nothing but any number of blanks and tabs before, between and behind them |
| PluralText.ScansAs | mc/intl/plural.c:1720-1857 | the scanner delivers the tokens of a proper expression and comes to its end at a position if and only if the expression is written up to there, before the end of the text, NUL, semicolon or newline |
| PluralGrammar.TreeWellFormed | mc/intl/plural.c:202-268 | a properly written expression gives nodes with the arity that plural_eval expects |
| PluralParser.MakeNode | mc/intl/plural.c:202-229 | NULL exactly if an argument is NULL or there is no memory; otherwise the node with these arguments |
| PluralMembers.MembersRight | mc/intl/plural.c:1344-1458 | every semantic action finds its values on the stack and reads the union member that was stored |
| PluralParser.Consult | mc/intl/plural.c:1288-1302 | the table lookup of yybackup |
| PluralParser.DoReduce | mc/intl/plural.c:1341-1493 | a reduction with its action and its goto |
| PluralParser.Recover | mc/intl/plural.c:1593-1620 | the error recovery always ends in an abort |
| PluralComplete.ReadsPhrase | mc/intl/plural.c:1265-1493 | a properly written expression is read to its tree from every state that may expect it, whatever comes before and after |
| PluralComplete.Complete | mc/intl/plural.y:125-210 | completeness: every expression of the grammar with its precedences is accepted with its tree |
| PluralSound.StepSound | mc/intl/plural.c:1265-1493 | every action keeps the stack explained by properly written expressions, and terminates |
| PluralParser.Conclusion | mc/intl/plural.c:1637-1648 | acceptance exactly for the sentences of the grammar, with the tree of the sentence |
| PluralParser.Yyparse | mc/intl/plural.c:1111-1650 | on every text the parser returns 0 if and only if a proper expression is written at its cursor, with blanks and tabs anywhere, up to the end, a NUL, a semicolon or a newline, and there is memory for its nodes; the result is then its tree, and the cursor is where it ends |
| PluralPrint.WrittenProper | mc/intl/plural.y:132-139 | writing with the fewest parentheses gives a proper text for the same tree |
| PluralPrint.FewestParens | mc/intl/plural.y:132-139 | no proper text for the tree has fewer parentheses |
| PluralPrint.TextExpresses | mc/intl/plural.c:1717-1857 | the printed text, with anything behind it that ends an expression, is one way to write the expression |
| PluralPrint.ScansWhole | mc/intl/plural.c:1717-1857 | scanning the printed text gives back the tokens |
| PluralPrint.PrintAndParse | mc/intl/plural.c:1111-1650 | print, scan and parse is the identity on expressions |
| PluralEval.EvalRange | mc/intl/eval-plural.h:26-101 | every value is an unsigned long |
| PluralEval.EvalModular | mc/intl/eval-plural.h:26-108 | the evaluation gives v if and only if v is what the expression means modulo ULONG_MAX + 1: integer sums, differences and products that wrap around only where a value is compared, divided or tested, quotients and remainders by what defines them, and operands and branches that are not needed left out |
| PluralEval.SigfpeReached | mc/intl/eval-plural.h:51-76 | if the evaluation signals, it has reached a division by zero |
| PluralEval.ReachedSigfpe | mc/intl/eval-plural.h:51-104 | and a division by zero in an operand or branch that is evaluated does signal; the others are not evaluated |
| PluralLookup.Lookup | mc/intl/dcigettext.c:1403-1436 | the selected NUL-separated variant, or the first one if the selection is out of range |
| PluralLookup.BeginsOnce | mc/intl/dcigettext.c:1417-1434 | each variant begins at one place |
| RwCond.RwLock.Rdlock | mc/intl/lock.c:161-181 | a reader is granted the lock exactly if no writer holds it and none waits; the holders are what runcount says |
| RwCond.RwLock.Wrlock | mc/intl/lock.c:190-209 | a writer is granted the lock exactly if nobody holds it, and otherwise is counted once among the waiting writers, also when it comes from a wait |
| RwCond.RwLock.Unlock | mc/intl/lock.c:217-256 | one holder less, EINVAL exactly if there is none; a notice exactly if the lock has become free, to a writer if one waits, otherwise to all readers |
| RwCond.TestReadInv | mc/intl/lock.c:155-182 | the invariant survives a reader coming to its test |
| RwCond.TestWriteInv | mc/intl/lock.c:184-210 | the invariant survives a writer coming to its test |
| RwCond.UnlockInv | mc/intl/lock.c:212-258 | the invariant survives unlock with a signal or a broadcast |
| RwCond.ReachableInv | mc/intl/lock.c:148-258 | in every state of every run: exclusion, runcount counts the holders, the waiting writers are counted, a free lock with waiting writers has one awake, a sleeping reader has a writer before it |
| RwCond.NeverBoth | mc/intl/lock.c:148-258 | a writer excludes everybody else |
| RwCond.NoLostWakeup | mc/intl/lock.c:232-255 | when a thread sleeps, another one holds the lock or is on its way to the test |
| RwCond.WokenWriterProceeds | mc/intl/lock.c:190-209 | a writer that has been woken gets the lock exactly if nobody holds it |
| RwCond.NoReaderOvertakes | mc/intl/lock.c:166-170 | while writers wait nobody becomes a reader |
| WaitQueue.CircularQueue.Grow | mc/intl/lock.c:704-732 | growing rotates the circular array and keeps its contents in order |
| WaitQueue.CircularQueue.Add | mc/intl/lock.c:698-745 | adds the event at the end; a failed allocation or event creation leaves the queue as it was |
| WaitQueue.CircularQueue.NotifyFirst | mc/intl/lock.c:748-756 | takes the first event |
| WaitQueue.CircularQueue.NotifyAll | mc/intl/lock.c:759-773 | takes all events in order |
| RwHandoff.RwLock.Rdlock | mc/intl/lock.c:799-836 | a reader is granted the lock exactly if no writer has been; otherwise it is queued behind the other readers, or tries again exactly if no event could be made |
| RwHandoff.RwLock.Wrlock | mc/intl/lock.c:853-889 | a writer is granted the lock exactly if nobody has been; otherwise it is queued behind the other writers, or tries again exactly if no event could be made |
| RwHandoff.RwLock.Unlock | mc/intl/lock.c:897-933 | EPERM exactly if nobody has been granted the lock; otherwise one holder less, and the last one hands the lock over to the first queued writer, or else to all queued readers |
| RwHandoffThreads.ReturnInv | mc/intl/lock.c:816-820 | the tests behind the waits never abort |
| RwHandoffThreads.UnlockInv | mc/intl/lock.c:892-934 | a holder that unlocks neither aborts nor gets EPERM, and the hand-over keeps the invariant |
| RwHandoffThreads.ReadStep | mc/intl/lock.c:799-836 | among the threads: a reader enters exactly if no writer has been granted the lock |
| RwHandoffThreads.WriteStep | mc/intl/lock.c:853-889 | a writer enters exactly if nobody has been granted the lock |
| RwHandoffThreads.UnlockShared | mc/intl/lock.c:905-915 | while others have been granted the lock, a holder that unlocks just leaves |
| RwHandoffThreads.UnlockToWriter | mc/intl/lock.c:915-924 | the last holder grants the lock to the writer that has waited longest, and to nobody else |
| RwHandoffThreads.UnlockToReaders | mc/intl/lock.c:925-931 | if no writer waits, it grants the lock to exactly the readers that wait |
| RwHandoffThreads.ReachableInv | mc/intl/lock.c:785-934 | in every state of every run: runcount counts the granted readers or is -1 for one granted writer, threads dequeued but not yet returned included; queued writers imply runcount != 0, queued readers -1 |
| RwHandoffThreads.NoAbort | mc/intl/lock.c:813-903 | no run reaches an abort |
| RwHandoffThreads.NeverBoth | mc/intl/lock.c:785-934 | a granted writer excludes everybody else |
| RwHandoffThreads.QueuedBehind | mc/intl/lock.c:915-931 | nobody is queued for a free lock |
| RecursiveLock.Lock.CountUp | mc/intl/lock.c:420-424 | one acquisition more for the owner and for nobody else, or EAGAIN and no change exactly if the count would wrap around |
| RecursiveLock.Lock.Unlock | mc/intl/lock.c:428-442 | gives back one acquisition of the caller and of nobody else; OK exactly if it has one, EPERM exactly if it is not the owner; the mutex is released with the last acquisition |
| RecursiveLock.UnlockInSteps | mc/intl/lock.c:428-442 | the owner test, the decrement and the release, which are separate steps of the transition system, together do what unlock does |
| RecursiveLock.StepInv | mc/intl/lock.c:407-442 | the unsynchronised test of the owner is right in every interleaving |
| RecursiveLock.OneHolder | mc/intl/lock.c:407-442 | the owner holds the mutex and depth equals its outstanding acquisitions; nobody else has any |
| RecursiveLock.UnlockCode | mc/intl/lock.c:428-434 | unlock succeeds exactly for a thread with outstanding acquisitions, otherwise EPERM |
| Once.StepInv | mc/intl/lock.c:1020-1055 | the invariant of the once-initialiser survives every single access |
| Once.ExactlyOnce | mc/intl/lock.c:1020-1055 | initfunction is called once, every caller that returns sees it finished, the abort is unreachable and the critical section is never entered before it exists |
| HashBits.SumLow | mc/intl/hash-string.c:40-41 | shift and add agree in the low 32 bits |
| HashBits.FoldLow | mc/intl/hash-string.c:42-47 | so does the folding of the top bits |
| HashBits.FoldNibbles | mc/intl/hash-string.c:42-47 | the four bits at the top of 32 are added without carry to bits 4 to 7 and cleared, and the other bits stay |
| HashString.LowBits | mc/intl/hash-string.c:34-50 | the low 32 bits do not depend on the width of unsigned long |
| HashString.HashBound | mc/intl/hash-string.c:34-50 | they stay below 2^28 |
| HashString.HashString | mc/intl/hash-string.c:34-50 | the loop computes that hash |
| HashString.HashOfWelcome | mc/intl/hash-string.c:34-50 | an example: the value for Welcome is 0xdc2a665 |
| Probing.NoZeroProduct | mc/intl/loadmsgcat.c:1212-1214 | Euclid's lemma for the table size |
| Probing.VisitsAll | mc/intl/loadmsgcat.c:1212-1229 | for a prime size every probe sequence visits all slots |
| Probing.NextProbe | mc/intl/loadmsgcat.c:1225-1228 | the step without overflow is addition modulo the size |
| Catalogue.Insert | mc/intl/loadmsgcat.c:1211-1229 | puts a string into the first empty slot of its probe sequence, and terminates |
| Catalogue.SlotIs | mc/intl/dcigettext.c:916-951 | the slots that a lookup comes to, in plain arithmetic: hash + k * (1 + hash mod (size - 2)) modulo size |
| Catalogue.Augment | mc/intl/loadmsgcat.c:1204-1230 | the augmented table: terminates with enough empty slots, keeps the old entries, places every system dependent string |
| Catalogue.Probes | mc/intl/dcigettext.c:913-952 | the probe loop ends at the first match or empty slot |
| Catalogue.MatchesText | mc/intl/dcigettext.c:930-941 | where the stored lengths cover the texts, a string matches exactly if it has the text |
| Catalogue.EndsOnce | mc/intl/dcigettext.c:913-952 | the loop can end in one way only: any two ends that satisfy its specification are the same |
| Catalogue.StaticFoundAgain | mc/intl/dcigettext.c:913-952 | a lookup that found a static string finds the same one in the augmented table |
| Catalogue.SysdepFound | mc/intl/dcigettext.c:913-952 | for every file, the augmented table gives a static string if and only if one with that msgid stands behind filled slots and before the system dependent strings with that msgid (StaticAt), and otherwise the first system dependent string with that msgid, or NULL if there is none |
| Catalogue.NoStray | mc/intl/dcigettext.c:913-952 | there is no such string after a lookup without success in the table of the file, if every static string can be reached from its own hash value |
| Catalogue.StrayExample | mc/intl/loadmsgcat.c:1204-1230 | other files exist, with every size of the table: a static string is not found before a system dependent string has been put in front of it |
| Catalogue.BinarySearch | mc/intl/dcigettext.c:957-979 | binary search finds the string with that text, or there is none |
| Catalogue.FindMsg | mc/intl/dcigettext.c:910-980 | without a hash table the result is the one string with that text, or none; with one, for static strings, the same if and only if the table serves that text (Served) |
| Catalogue.WellHashedServes | mc/intl/dcigettext.c:913-952 | a table in which every static string can be reached from its own hash value serves all texts |
| Catalogue.TheStringOnce | mc/intl/dcigettext.c:910-980 | so that both searches agree |
| SysdepStrings.MeasureString | mc/intl/loadmsgcat.c:1016-1058 | the memory a string needs, or that it refers to an undefined or an invalid segment |
| SysdepStrings.Measure | mc/intl/loadmsgcat.c:1009-1066 | the measuring pass counts the valid pairs and sums what they need; the file is rejected exactly if a pair is corrupt as far as it is looked at |
| SysdepStrings.AllDefined | mc/intl/loadmsgcat.c:1095-1129 | the second test of validity agrees with the first and stays within the segment table |
| SysdepStrings.WholeExpansion | mc/intl/loadmsgcat.c:1158-1195 | by positions: every static segment stands where the segments before it end, and the system segment right behind it |
| SysdepStrings.FillString | mc/intl/loadmsgcat.c:1158-1195 | a filled string is the in-order concatenation of its static and system segments (by WholeExpansion) |
| SysdepStrings.Fill | mc/intl/loadmsgcat.c:1089-1202 | the fill pass fills as many strings as were counted, within exactly the memory that was measured, and the abort is unreachable; the texts of both tables consist of the static segments of the file, each at its place, with the system segments right behind them |
| Xsize.XsumSaturates | mc/intl/xsize.h:57-61 | the wrapped sum with its comparison is min(size1 + size2, SIZE_MAX) |
| Xsize.Xsum4Saturates | mc/intl/xsize.h:78-81 | the same for four sizes |
| Xsize.XtimesSaturates | mc/intl/xsize.h:99-100 | the product with its quotient test is min(n * elsize, SIZE_MAX) |
| Xsize.AccumulateSaturates | mc/intl/printf-parse.c:164-165 | a step of reading an argument number keeps min(number, SIZE_MAX) |
| PrintfSyntax.ScanSound | mc/intl/printf-parse.c:153-560 | whatever is scanned as a directive renders back to exactly what was scanned |
| PrintfSyntax.ScanComplete | mc/intl/printf-parse.c:153-560 | every directive of the grammar, followed by anything, is scanned as itself |
| PrintfSyntax.UniquelyReadable | mc/intl/printf-parse.c:153-560 | a directive and the text behind it can be read in one way only |
| PrintfSyntax.RenderInjective | mc/intl/printf-parse.c:134-599 | so can a whole format string |
| PrintfSyntax.Alphabet | mc/intl/printf-parse.c:178-560 | the flags, digits, size specifiers and conversions of the grammar |
| PrintfArgs.TypeProcessed | mc/intl/printf-parse.c:438-560 | every conversion gets a type that its processing can deal with; only %% has none |
| PrintfArgs.FixedSizes | mc/intl/printf-parse.c:337-351 | integers: hh is for a char, h for a short, nothing for an int, l for a long, ll and L for a long long; signed for d and i, counted for n, unsigned for the rest |
| PrintfArgs.PlatformSizes | mc/intl/printf-parse.c:352-391 | j is for the size of intmax_t, z and Z for that of size_t, t for that of ptrdiff_t |
| PrintfArgs.OtherTypes | mc/intl/printf-parse.c:461-560 | the types of the other conversions |
| PrintfArgs.NumberedIs | mc/intl/printf-parse.c:236-252 | the argument of a request is the one whose number is written, or else has the number of requests without a number before it |
| PrintfArgs.RegisterAllIff | mc/intl/printf-parse.c:102-132 | registering the uses of arguments one by one succeeds exactly if no argument is used with two types |
| PrintfArgs.RegisteredTypes | mc/intl/printf-parse.c:125-131 | afterwards every used argument has its type, and the types known before are unchanged |
| PrintfArgs.RegisteredCount | mc/intl/printf-parse.c:125-126 | the count of arguments is one more than the largest index |
| PrintfMeaning.ParsesIff | mc/intl/printf-parse.c:134-612 | a string is accepted if and only if it is the rendering of some format of the grammar whose argument numbers are positive and do not overflow and that uses no argument with two types |
| PrintfMeaning.ParsedArguments | mc/intl/printf-parse.c:102-132 | then the directives describe the format one by one; each takes its width, then its precision, then its argument from the regular arguments that those before it have left, except where a number is written; and the argument types are exactly those uses |
| PrintfMeaning.ParsedWell | mc/intl/vasnprintf.c:1866-1881 | then the directives tile the format with %-free text between, and every check before an abort holds: indices in range, int for each *, no argument exactly for %%, a type that suits the conversion |
| PrintfParser.RegisterArg | mc/intl/printf-parse.c:102-132 | the array grows, keeps its contents and registers the type; ENOMEM only if refused or too large |
| PrintfParser.ReadPosition | mc/intl/printf-parse.c:153-175 | the two loops over the digits: the number before a $, if it is positive and does not overflow |
| PrintfParser.ReadSizes | mc/intl/printf-parse.c:330-436 | the accumulated flags of the size specifiers |
| PrintfParser.ReadDirective | mc/intl/printf-parse.c:137-572 | one directive, with its arguments registered, or EINVAL if the grammar or the types forbid it |
| PrintfParser.Directives.Append | mc/intl/printf-parse.c:574-600 | there is always room for one more directive, also for the last one, which marks the end |
| PrintfParser.PrintfParse | mc/intl/printf-parse.c:81-622 | the parser: success with the parsed directives and arguments, EINVAL exactly if there is no parse, ENOMEM only if memory is refused or sizes overflow |
| PrintfRebuild.Rebuild | mc/intl/vasnprintf.c:4735-4871 | writes the rebuilt directive and its NUL without leaving the buffer |
| PrintfRebuild.RoomForAll | mc/intl/vasnprintf.c:1778-1781 | 7 + width + precision + 6, computed with saturation from the longest ones, is enough for every directive |
| PrintfRebuild.RoomIsExact | mc/intl/vasnprintf.c:1778-1781 | and no smaller bound is: some directives fill it |
| PrintfRebuild.RebuiltMeansTheSame | mc/intl/vasnprintf.c:4735-4871 | scanned again, the rebuilt directive has the same flags, width and precision, without argument numbers, and an argument of the same type after promotion |
| PrintfBuffer.Accumulator.EnsureAllocation | mc/intl/vasnprintf.c:1817-1838 | enough room, contents kept; failure only if memory is refused or twice the needed size overflows |
| PrintfFormat.FormatDirective | mc/intl/vasnprintf.c:1866-1935 | one directive, rebuilt in the one buffer; the aborts on its indices and types are unreachable; %n stores the length so far; failure only if memory is refused or the output is too long |
| PrintfFormat.RunFormatText | mc/intl/vasnprintf.c:1840-1880 | the output is the text of the format with every directive replaced by what the system makes of the rebuilt directive |
| PrintfFormat.StoredCounts | mc/intl/vasnprintf.c:1884-1910 | every %n stores the length of what is written for the format in front of it |
| PrintfFormat.Vasnprintf | mc/intl/vasnprintf.c:1746-5345 | from format string to NUL-terminated result: the formatted text of the one format that the string denotes; EINVAL exactly if there is none or an argument is skipped; ENOMEM only if memory is refused, or the format string or the output is too large |
| PrintfFormat.CompleteServes | mc/intl/vasnprintf.c:1778-1800 | the one buffer whose length is computed from the longest width and precision serves every directive of a parsed format, and the computation does not overflow unless the format string is oversized |
| PrintfFormat.SamePiece | mc/intl/vasnprintf.c:4735-4871 | the text that the driver gives to the system for a parsed directive is that of the simplified directive of the format |
| PrintfFormat.FetchArgs | mc/intl/printf-args.c:37-187 | fails exactly if some argument has no type |
| LocaleMasks.Pop | mc/intl/l10nflist.c:160-171 | the bit tricks count the bits of a 16-bit mask |
| LocaleMasks.CountParts | mc/intl/l10nflist.c:279 | pop counts the parts of a mask, for the room of the successors |
| LocaleMasks.CountIsPower | mc/intl/l10nflist.c:273-280 | a mask dominates exactly 2^pop masks |
| LocaleMasks.SubmasksAre | mc/intl/l10nflist.c:314-316 | the loop visits exactly the submasks without both forms of the codeset, in decreasing order |
| LocaleMasks.LaterBitsOutlast | mc/intl/l10nflist.c:310-313 | the order in which the code drops the parts of a name: the normalized codeset first, then the codeset, then the territory, and the modifier last, which is not the order that the comment gives |
| LocaleMasks.ModifierFirstOnlyAlone | mc/intl/l10nflist.c:310-313 | the comment says that the modifier is dropped first; the first fallback of a name with a modifier is without it if and only if the modifier is all there is |
| LocaleMasks.TerritoryBeforeModifier | mc/intl/l10nflist.c:310-313 | an example: de_AT@euro falls back to de@euro first |
| LocaleNames.WantedFits | mc/intl/l10nflist.c:273-280 | all successors and the terminating null pointer fit into the array that is allocated |
| LocaleNames.WantedShorter | mc/intl/l10nflist.c:301-337 | every file inherits only from files with shorter names |
| LocaleExplode.SpellOnce | mc/intl/explodename.c:57-135 | a locale name can be split in one way only |
| LocaleExplode.ExplodeName | mc/intl/explodename.c:57-135 | splits a name into the parts that it spells, with the mask of those that are not empty; -1 exactly if there is no memory for normalizing a codeset |
| LocaleExplode.NormalizeCodeset | mc/intl/l10nflist.c:346-385 | the two passes compute the normalized codeset |
| LocaleExplode.NormalizedTwice | mc/intl/l10nflist.c:346-385 | which consists of small letters and digits, and is its own normalization |
| LocaleReading.NameMeans | mc/intl/l10nflist.c:205-246 | by positions: the directories in front of colons, the last one in front of a slash, then language, _territory, .codeset and @modifier of the mask, then a slash and the file name |
| LocaleReading.ReadsBack | mc/intl/l10nflist.c:205-246 | split as a locale name, that gives back exactly the parts in the mask, where they contain no separators |
| LocaleReading.MasksDiffer | mc/intl/l10nflist.c:205-246 | different masks give different names, if the two forms of the codeset differ |
| LocaleReading.NamedAgain | mc/intl/explodename.c:57-135 | putting the parts of a split name together again gives that name |
| LocaleList.BuildAndExplode | mc/intl/l10nflist.c:205-246 | the round trip through both functions |
| LocaleList.BuildName | mc/intl/l10nflist.c:190-246 | the name fills the memory that is allocated for it exactly, and means what LocaleReading.Means says |
| LocaleList.Pool.Search | mc/intl/l10nflist.c:247-266 | finds the file with the name, or the place that keeps the list in decreasing order |
| LocaleList.Pool.Insert | mc/intl/l10nflist.c:298-299 | the list stays decreasing and linked, with one more file |
| LocaleMake.FillRound | mc/intl/l10nflist.c:314-336 | one round: the successors of one submask, for every directory; one is missing only if memory was refused |
| LocaleMake.Fill | mc/intl/l10nflist.c:301-337 | the successors of a new file, in order and terminated, while the recursion inserts into the same list; one is missing only if memory was refused |
| LocaleMake.DecidedIff | mc/intl/l10nflist.c:284-290 | a file is decided from the start exactly if no file inherits from files with its directories and mask |
| LocaleMake.MakeL10nFlist | mc/intl/l10nflist.c:174-340 | terminates; no file is lost; unless memory is refused, every file that is made has exactly the successors for the admissible submasks, in order and terminated; every file that is made is made for the given parts, for a submask of the mask and for the directories or one of them, and the result exactly for the given ones; its name means the directories, unless the language is an absolute path, the parts in the mask and the file name; NULL only if memory is refused or nothing may be allocated; nothing changes if the name is known |
| LocaleMake.NoCycle | mc/intl/l10nflist.c:301-337 | no file inherits from itself, directly or through others |
| ConvertedStrings.OneMore | mc/intl/dcigettext.c:1374-1375 | a record cut off the front of the free memory overlaps no other record |
| ConvertedStrings.StaysAligned | mc/intl/dcigettext.c:1376-1380 | the rest stays aligned and ends where the block ends |
| ConvertedStrings.MoveBlock | mc/intl/dcigettext.c:1324-1328 | a block without records may be moved and resized: every record stays where it is |
| ConvertedStrings.Store.Resize | mc/intl/dcigettext.c:1322-1369 | malloc for the first block, realloc for a larger one, with the next multiple of the block size; if it is refused, what is allocated stays as it is |
| ConvertedStrings.Store.Convert | mc/intl/dcigettext.c:1247-1380 | every converted string gets memory of its own, aligned, within its block, and earlier ones stay where they are; the result is that of the first attempt for which the room is enough, in the rest of the block or in a block of 1, 2, 3, ... times the initial size, and NoMemory exactly if such a block is refused before; just that block is allocated |

## Left out

- Decimal.ConvertToDecimal: the NUL written behind the digits is not modelled; the buffer size counts digits only, and
  the statement is about the digits.
- Scale10.Scale10RoundDecimalDecoded: requires that n and e + n lie within int (except INT_MIN), as the source's int
  arithmetic does; size overflow of the allocations (xsum) is not modelled.
- Freeing memory in the bignum functions and in new_exp is not modelled; results are in fresh memory.
- decode_double, floorlog10 and the layout of %e, %f, %g and %a: floating point and an approximate logarithm.
- TreeDelete.Tdelete: requires fewer than 2^48 nodes; the result is specified as a node, although a node that was
  freed may be returned when the root is deleted, as the source's own comment says.
- twalk and tdestroy: they would add only easy members.
- PluralParser.Yyparse: the parser stacks are unbounded, so that YYMAXDEPTH and the reallocation of the stacks are not
  modelled; a semantic value that the scanner does not set is Unset instead of the value of an earlier token; nodes of
  an expression that is rejected are not freed.
- EXTRACT_PLURAL_EXPRESSION: searching the header entry for "plural=" is not modelled.
- RwCond.ReachableInv: waits and mutex operations do not return errors, readers stay below INT_MAX, and locks are not
  destroyed; the same for the other locks.
- WaitQueue.CircularQueue.Grow: the size stays below 2^31, so that doubling does not wrap.
- The lazy initialisation of the Win32 locks by their guards is not modelled; it is like that of Once without the
  undo.
- Fairness and liveness of the locks beyond the absence of lost wakeups.
- SysdepStrings.Measure: reading the segment tables from the file image, byte swapping and overflow of the size sums
  are not modelled.
- The cache of known translations, charset conversion, files, locale aliases and the thin wrappers.
- LocaleExplode.ExplodeName: the letters and digits of codesets are those of ASCII; the name is not overwritten with
  NULs, the parts are copies.
- PrintfParser.ReadSizes: the size specifiers q of MacOS X and I64 of Windows; more than 2^28 size specifiers in one
  directive, which overflow the int flags.
- PrintfParser.PrintfParse: formats of char with HAVE_WINT_T, HAVE_WCHAR_T and HAVE_LONG_LONG_INT, without the
  unistdio extensions.
- PrintfRebuild.Rebuild: built without the workarounds NEED_PRINTF_FLAG_GROUPING and NEED_PRINTF_DIRECTIVE_F; the
  longer Windows specifier I64 comes without "%n", so that the room is enough there too.
- PrintfFormat.Vasnprintf: what the system's formatting function makes of a directive is a parameter; the retry loop
  of snprintf, wide characters and the padding done by the function itself are not modelled.
- LocaleMake.MakeL10nFlist: the directory list is a sequence of strings instead of a string with NULs between them;
  sizes do not overflow; freeing memory is not modelled.
- LocaleMasks.Pop: for masks below 2^16, as the source assumes.
- ConvertedStrings.Store.Convert: iconv is a function of the room it is given; the conversion of the bytes and the
  table conv_tab are not modelled.
