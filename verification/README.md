# CaraOS in Dafny

A model of the parts of CaraOS (an AmigaOS-like kernel in C) whose behaviour spans several functions
or whole runs, with proofs of what those parts promise. `dafny verify dfyconfig.toml` checks
everything.

## What is modelled

- **The lock-free ring** (`Ring`, `RingHeader`). Every atomic load or store and every slot copy of
  `include/cara/ring.h` is one step of a machine; a schedule interleaves one producer, one consumer
  and a third party that only counts. Unbounded histories stand beside the wrapping 32-bit counters.
- **The AmiCalc key machine** (`Calc`, `CalcEval`, `CalcLaws`, `CalcReal`, `CalcExact`, `CalcText`,
  `CalcLine`, `CalcUnary`, `CalcBuffer`, `CalcMachine`). The numbers and the expression line are two value machines; `CalcMachine.CalcState`
  is the C record edited in place, proved equal to both. Numbers are abstract: any arithmetic with a
  reader, a printer, partial operations and a mathematical library; `CalcReal` and `CalcExact` relate
  those that stand for reals to real arithmetic.
- **The Dath rasteriser** (`Surface`, `Line`, `Blit`, `Polygon`, `Area`, `Glyph`, `Console`), pixel by
  pixel on a mutable surface; `Teletype` is a roll of paper that the console's screen is a window on.
- **Linked structures**: the tailpred-sentinel list on word-addressed memory (`MinList`) and the
  commodities object tree (`CxTree` for its shape, `CxLink` for single links and when they keep it,
  `CxOrder` for priorities and arrivals, `CxHeap` for the operations).
- **Streams, blocks and time**: the cooked console line discipline (`ConsoleInput`), the chunked bounce
  buffer under the file system (`Bounce`), tick and nanosecond conversion (`Time`).
- **The LVO table generator** (`LvoText`, `LvoParser`, `LvoRoundTrip`, `LvoGen`, `LvoCoverage`,
  `LvoLibrary`): grammar, cursor loops, validator, coverage.

`Arithmetic` and `Options` hold what several modules share.

## Where a promise fails

The model follows the code. Where a comment, a header or a natural expectation is not met, the condition
under which it is met is proved.

- `include/cara/ring.h:56-58` says `signal_needed_out` is set exactly when the queue goes from empty
  to non-empty. It is never spurious (`Ring.SignalSound`), but a wake-up can be missed
  (`Ring.MissedWakeUp`); `Ring.SignalExact` gives the condition.
- A third party's `Ring_Count` can answer 2^32 - 1 (`Ring.ThirdPartyCountWraps`); an endpoint's cannot
  (`Ring.EndpointCount`). `Ring.ObserverCount` says exactly when a third party's answer is the true
  difference and when it is within capacity.
- `src/croi/dath/graphics_lib.c:463` says longer polygons are clamped. They are cut, and the rest becomes
  another polygon. What is painted is the clamped polygon, whatever the points, exactly when no run of
  vectors is longer than 66 (`Area.ClampedExactly`); `Area.OverlongDiffers` has a pixel that differs for
  every greater length.
- The system strike keeps its character bounds in bytes, so it agrees with the bitmap font for all
  bitmaps exactly when the last code is at most 255 (`Glyph.StrikeAgrees`, `Glyph.StrikeDisagrees`).
- A blit inside one surface is not a simultaneous copy when it moves content down, or right within its
  rows, onto itself (`Blit.FaithfulExactly`, `Blit.Smear`).
- `src/croi/dath/console.c` handles tabs; the comment at its head says it does not.
- AttachCxObj, EnqueueCxObj and InsertCxObj check nothing. The links they write describe a forest
  without cycles exactly when the child was detached, the parent was outside its subtree and, for
  InsertCxObj, the given sibling was a child of that parent (`CxLink.AttachExactly`,
  `CxLink.LinkExactly`, `CxLink.InsertExactly`); `CxLink.CycleMade` is the smallest cycle.
- `src/croi/time.c:30-32` calls the conversion exact for about twelve minutes. It is exact for as long
  as the result fits in 64 bits (`Time.NowExact`, `Time.ScaleExactly`).
- `include/cara/time.h:24-25` promises the timer trap once the clock has reached the deadline. The armed
  tick can come one tick early (`Time.NeverEarlyExactly`, `Time.EarlyTrap`).
- `bd_read` and `bd_write` multiply a block count by LBAs per block in 32 bits. `Bounce.SuccessExactly`
  and `Bounce.ReadSuccessExactly` say exactly when a success means that the blocks were transferred; a
  write of 2^29 blocks of eight LBAs succeeds without writing (`Bounce.SilentWrite`).
- The LVO validator puts no lower bound on the bias, so an accepted library can give a user slot a
  reserved slot's offset (`LvoGen.OffsetsDistinctExactly`, `LvoGen.OverlappingAccepted`). Offsets and the
  bias are read as longs and cut to ints unchecked (`LvoRoundTrip.RoundTrip`, `LvoGen.BiasExactly`).
- An entry typed behind an AmiCalc expression line that has no room for it is shown partly twice once it
  is edited (`CalcLine.FullLineExactly`; `CalcLine.FullLineReached` gives the keys).
- A number directly before a parenthesis is a factor in AmiCalc only when nothing at all waits in front
  of it, no operator and no earlier result. Otherwise it is dropped: 1+2(3) gives 4 and 5=(3) gives 3
  (`CalcEval.ParenAfterNumber`, `CalcEval.ParenMultipliesExactly`).
- A function key in AmiCalc writes its name around the operand typed last, except that a parenthesis
  behind a power or a root takes what is in front of it along: 2P(3) and then sine computes the power of
  the sine and shows the sine of the power (`CalcUnary.FunctionShownExactly`, `CalcUnary.SineMisplaced`).
- Pressing +/- twice in AmiCalc is not always the identity (`Calc.SignTwiceExactly`, `Calc.PlusIsLost`).
- TextLength of a monospaced font is a 32-bit product; it is the sum of the advances exactly below 2^31
  (`Glyph.TextLength`).

## Model

| member | source | states |
|---|---|---|
| `Ring.InitAcceptsPowersOfTwo` | include/cara/ring.h:43-47 | the bit test accepts exactly the powers of two |
| `Ring.SlotIndex` | include/cara/ring.h:73 | the masked wrapped index and the unbounded index modulo capacity name the same slot |
| `Ring.StepInv` | include/cara/ring.h:60-103 | every atomic step of either endpoint or of an observer keeps the ring invariant |
| `Ring.RunInv` | include/cara/ring.h:60-103 | so does every interleaving, of any length |
| `Ring.Fifo` | include/cara/ring.h:60-96 | in every reachable state published = consumed + live window, occupancy is 0..capacity, and the counters are the histories modulo 2^32 |
| `Ring.SlotExclusion` | include/cara/ring.h:66-74 | the producer's slot is neither live nor the one the consumer is copying |
| `Ring.RefusalsAreExact` | include/cara/ring.h:66-91 | enqueue refuses exactly when full at its tail load, dequeue exactly when empty at its head load |
| `Ring.EndpointCount` | include/cara/ring.h:98-103 | Ring_Count called by an endpoint stays within capacity, and what it counts |
| `Ring.ObserverCount` | include/cara/ring.h:98-103 | a third party's answer is the head it saw minus the tail it sees modulo 2^32; it is that difference exactly when no more was consumed since than it saw published, and within capacity exactly then or when the lag is a lap or short of one by at most the capacity |
| `Ring.ThirdPartyCountWraps` | include/cara/ring.h:98-103 | a reachable state in which a third party's count is 2^32 - 1 |
| `Ring.SignalSound` | include/cara/ring.h:56-77 | a true signal means this publish takes the ring from empty to one element |
| `Ring.SignalExact` | include/cara/ring.h:56-77 | the signal is true exactly when the ring is empty at the publish and no dequeue completed since the tail load; without such a dequeue it is exact |
| `Ring.MissedWakeUp` | include/cara/ring.h:64-77 | a reachable state publishing into an empty ring with the signal false |
| `RingHeader.Header.Initialise` | include/cara/ring.h:43-54 | success exactly for powers of two, an empty ring; otherwise nothing changes |
| `RingHeader.Header.Enqueue` | include/cara/ring.h:60-80 | undisturbed: appends unless full, signals exactly on empty to non-empty, takes the steps of the machine |
| `RingHeader.Header.Dequeue` | include/cara/ring.h:83-96 | undisturbed: the oldest element, refused exactly when empty |
| `RingHeader.Header.Count` | include/cara/ring.h:98-113 | undisturbed: the occupancy, and the empty and full tests |
| `Calc.RunKeeps` | ports/amicalc/amicalc.c:516-1178 | over every key sequence the entry holds at most 64 characters without a terminator inside and the stack at most 8 frames |
| `Calc.ErrorSticks` | ports/amicalc/amicalc.c:1066-1178 | once in error, keys other than C change nothing |
| `Calc.SignTwiceExactly` | ports/amicalc/amicalc.c:846-884 | +/- twice restores an entry exactly when it carries at most one sign at the sign's place |
| `Calc.PlusIsLost` | ports/amicalc/amicalc.c:846-884 | 1e+5 becomes 1e5 |
| `CalcEval.DigitsTyped` | ports/amicalc/amicalc.c:516-531 | a run of digits leaves its first 64 as the entry |
| `CalcEval.KeysTyped` | ports/amicalc/amicalc.c:516-909 | digits, points, exponents, signs and backspaces edit the entry and nothing else |
| `CalcEval.OperatorPressed` | ports/amicalc/amicalc.c:911-940 | an operator folds the pending value into the accumulator, or fails exactly when that value does |
| `CalcEval.ClosePressed` | ports/amicalc/amicalc.c:995-1017 | ')' fails exactly when the value inside does, and otherwise resumes the suspended frame with that value on the display |
| `CalcEval.OperandHeld` | ports/amicalc/amicalc.c:516-1017 | the keys of any operand (a number typed with any editing keys, a parenthesis, a function of an operand) leave the machine as it was but for an entry that reads as the operand's value |
| `CalcEval.TermsHeld` | ports/amicalc/amicalc.c:911-940 | the keys of any operator chain leave the machine holding its left-to-right value |
| `CalcEval.KeysEvaluate` | ports/amicalc/amicalc.c:911-1064 | for every expression tree, its keys and '=' from the cleared state end in error exactly when it nests over 8 deep or some operation fails, and otherwise leave the recursive evaluator's value in the accumulator and on the display |
| `CalcEval.ParenRun` | ports/amicalc/amicalc.c:964-1017 | in every state without error, a parenthesis fails exactly when it nests too deep or has no value, and otherwise resumes what '(' put aside |
| `CalcEval.ParenAfterNumber` | ports/amicalc/amicalc.c:964-993 | a parenthesis right behind a number, in every state without error: with no operator and no accumulator it acts as with '*' pressed, otherwise as if the number had never been entered |
| `CalcEval.ParenMultipliesExactly` | ports/amicalc/amicalc.c:974-980 | it is the same as with '*' pressed exactly when there is no operator and no accumulator, or a product waits that the number leaves as it is |
| `CalcEval.FiveIsLost` | ports/amicalc/amicalc.c:964-993 | the keys 5=(3)= leave 3 |
| `CalcEval.TwoIsLost` | ports/amicalc/amicalc.c:964-993 | the keys 1+2(3)= leave 1+3 |
| `CalcLaws.OperatorReplaces` | ports/amicalc/amicalc.c:911-940 | in every state an operator right behind another takes its place |
| `CalcLaws.OperatorLeads` | ports/amicalc/amicalc.c:918-921 | an operator with nothing in front of it has a zero in front of it |
| `CalcLaws.ClearRestarts` | ports/amicalc/amicalc.c:1066-1178 | from every state C and then any keys are those keys on a new calculator |
| `CalcLaws.InverseTwice` | ports/amicalc/amicalc.c:1066-1178 | the inverse key changes the mode of all keys after it, and two presses are none |
| `CalcLaws.AccumulatorAsEntry` | ports/amicalc/amicalc.c:552-566 | a function of a finished accumulator shows what it would show for an entry that reads the same |
| `CalcLaws.ResultLeft` | ports/amicalc/amicalc.c:516-531 | digits typed on a result begin a new number |
| `CalcLaws.DigitErased` | ports/amicalc/amicalc.c:886-892 | backspace takes back the digit before it |
| `CalcLaws.MarkErased` | ports/amicalc/amicalc.c:778-892 | and a point or an exponent behind digits |
| `CalcLaws.TypedNumeral` | ports/amicalc/amicalc.c:516-892 | whatever editing keys are pressed, the entry is the beginning of a decimal numeral: one sign, one point behind digits, one exponent with one sign |
| `CalcReal.ComputeMeans` | ports/amicalc/amicalc.c:477-514 | over numbers that stand for reals, by key and mode: sums, products, powers and roots are the real ones, rounded; a zero divisor or root order and a power that is no real fail, and nothing else |
| `CalcReal.ComputeFails` | ports/amicalc/amicalc.c:477-514 | over any numbers: a failure is an unknown operator, a zero divisor or root, or a power that is not a number, and only the last touches the result cell |
| `CalcReal.UnaryMeans` | ports/amicalc/amicalc.c:590-711 | logarithms, exponential, power of ten, square and root, percentage, factorial, and the circular functions and their inverses in degrees or radians are the real functions, rounded step by step, and fail exactly outside their domains |
| `CalcExact.KeysCompute` | ports/amicalc/amicalc.c:477-1064 | for every tree of numbers, operators, parentheses and functions, in every mode, its keys and '=' end in error exactly when it nests over 8 deep or some operation has no real value, and otherwise leave a number that stands for its real value, rounded step by step; for any numbers that round reals in a range |
| `CalcExact.KeysPower` | ports/amicalc/amicalc.c:495-500 | a P n = with a whole n is a multiplied n times |
| `CalcExact.KeysRoot` | ports/amicalc/amicalc.c:501-509 | in inverse mode it is the number whose n-th power is a, rounded, where one over n is exact |
| `CalcExact.KeysFunction` | ports/amicalc/amicalc.c:574-720 | a number, a function key and '=' leave the function's real value |
| `CalcExact.KeysSquareRoot` | ports/amicalc/amicalc.c:635-642 | the square of what Q leaves is the number |
| `CalcExact.KeysLogarithm` | ports/amicalc/amicalc.c:590-600 | the exponential of what L leaves is the number |
| `CalcExact.KeysFactorial` | ports/amicalc/amicalc.c:646-673 | n F = leaves the product of 1 to n |
| `CalcExact.KeysRepeat` | ports/amicalc/amicalc.c:1019-1064 | a number, an operator and '=' use the number twice |
| `CalcExact.TwoCubed` | ports/amicalc/amicalc.c:495-500 | 2P3= is 8 |
| `CalcExact.RootOfNine` | ports/amicalc/amicalc.c:501-509 | I9P2= is 3 |
| `CalcText.RunProjects` | ports/amicalc/amicalc.c:1066-1178 | the expression line never influences the numbers |
| `CalcText.RunStateKeeps` | ports/amicalc/amicalc.c:128-1178 | over every key sequence the line stays within 256 characters with its mark in -1..length, and the numbers keep their bounds |
| `CalcText.OpenBeforeBalances` | ports/amicalc/amicalc.c:248-269 | the parenthesis found for the last value is the nearest one that balances what follows it |
| `CalcLine.LineShowsTree` | ports/amicalc/amicalc.c:164-416 | while it fits, the line after the keys of a tree of digits, operators and parentheses is the text of the tree |
| `CalcLine.OperatorReplaces` | ports/amicalc/amicalc.c:367-395 | an operator right behind another takes its place in the line as in the numbers |
| `CalcLine.StarSupplied` | ports/amicalc/amicalc.c:397-407 | where '(' supplies a '*', line and numbers are as if it had been pressed |
| `CalcLine.ResultShown` | ports/amicalc/amicalc.c:1066-1178 | after '=' the line is the number shown |
| `CalcLine.ResultAdjusted` | ports/amicalc/amicalc.c:1121-1140 | an exponent or a sign put on a result edits it, and the line is the edited text |
| `CalcLine.LineBegun` | ports/amicalc/amicalc.c:1066-1077 | a digit typed on a result begins a new line |
| `CalcLine.DigitErased` | ports/amicalc/amicalc.c:886-909 | a digit and then backspace leave entry and line as they were |
| `CalcUnary.FunctionShownExactly` | ports/amicalc/amicalc.c:240-476 | in every state ready for an operand, a function key after one is written around exactly that operand unless it is a parenthesis right behind a power or root |
| `CalcUnary.ParenWrapped` | ports/amicalc/amicalc.c:240-354 | a parenthesis at the end of any line is wrapped by itself exactly when no word character precedes it |
| `CalcUnary.NumberWrapped` | ports/amicalc/amicalc.c:282-354 | a number behind an operator always is |
| `CalcUnary.SineMisplaced` | ports/amicalc/amicalc.c:240-354 | the keys 2P(3)N show sin(2^(3)) |
| `CalcLine.FullLineExactly` | ports/amicalc/amicalc.c:201-233 | an entry e1 shown behind any line and then edited to any e2 leaves the last 256 characters of line and e2 exactly when e1 fitted, or the part of the line that stays repeats by as many characters as e1 pushed out |
| `CalcLine.TwoKeysExactly` | ports/amicalc/amicalc.c:1066-1090 | the same for two digits or points pressed in any state that is not editing |
| `CalcLine.FullLineReached` | ports/amicalc/amicalc.c:201-233 | from a cleared calculator 1+ pressed 128 times and then 23 shows 223 |
| `CalcBuffer.Buffer.Insert` | ports/amicalc/amicalc.c:753-766 | the character inserted in place, the tail and its NUL moved up |
| `CalcBuffer.Buffer.Remove` | ports/amicalc/amicalc.c:768-776 | the character removed in place, the tail and its NUL moved down |
| `CalcBuffer.Buffer.FlipSign` | ports/amicalc/amicalc.c:846-884 | the in-place sign edit is the specified one |
| `CalcBuffer.Buffer.Replace` | ports/amicalc/amicalc.c:214-232 | a prefix and a text after it, as much of the end as fits, every move in bounds |
| `CalcBuffer.Buffer.AppendTail` | ports/amicalc/amicalc.c:164-190 | the buffer becomes the last 256 characters of itself and the text |
| `CalcBuffer.Buffer.SetTail` | ports/amicalc/amicalc.c:150-162 | the buffer becomes the last 256 characters of the text |
| `CalcBuffer.Buffer.WrapFrom` | ports/amicalc/amicalc.c:311-354 | prefix and suffix put around the end of the buffer through a scratch buffer that never overflows |
| `CalcMachine.FindOpen` | ports/amicalc/amicalc.c:248-269 | the backward search loop computes the matching parenthesis |
| `CalcMachine.FindNumber` | ports/amicalc/amicalc.c:282-306 | the backward search loop computes where the last number begins |
| `CalcMachine.FindLastValue` | ports/amicalc/amicalc.c:240-309 | the span search computes the specified start or none |
| `CalcMachine.EvaluateFactorial` | ports/amicalc/amicalc.c:646-673 | the checks and the loop compute the specified product or none |
| `CalcMachine.Evaluate` | ports/amicalc/amicalc.c:582-711 | the switch computes the specified function of its key and mode |
| `CalcMachine.EntryHasDecimal` | ports/amicalc/amicalc.c:740-751 | the loop finds a decimal point before the exponent |
| `CalcMachine.CalcState.ExprUpdateEntry` | ports/amicalc/amicalc.c:201-233 | the line with the entry brought up to date, in place |
| `CalcMachine.CalcState.ExprAddOperator` | ports/amicalc/amicalc.c:367-395 | the line with an operator added, replaced, or given a zero operand |
| `CalcMachine.CalcState.ExprAddParenOpen` | ports/amicalc/amicalc.c:397-407 | the line with '(' and, for a bare entry, '*' before it |
| `CalcMachine.CalcState.ExprAddParenClose` | ports/amicalc/amicalc.c:409-416 | the line with ')' added |
| `CalcMachine.CalcState.ExprApplyUnary` | ports/amicalc/amicalc.c:418-476 | the line with its last value wrapped in the function's text |
| `CalcMachine.CalcState.HandleDigit` | ports/amicalc/amicalc.c:516-531 | the object stands for the value machine after the digit |
| `CalcMachine.CalcState.HandleDecimal` | ports/amicalc/amicalc.c:778-816 | the object stands for the value machine after the point |
| `CalcMachine.CalcState.HandleExp` | ports/amicalc/amicalc.c:818-844 | the object stands for the value machine after the exponent key |
| `CalcMachine.CalcState.HandleSign` | ports/amicalc/amicalc.c:846-884 | the object stands for the value machine after +/- |
| `CalcMachine.CalcState.HandleBackspace` | ports/amicalc/amicalc.c:886-909 | entry and line both lose the last typed character |
| `CalcMachine.CalcState.HandleOperator` | ports/amicalc/amicalc.c:911-940 | the object stands for the value machine after the operator, failures included |
| `CalcMachine.CalcState.EvalPending` | ports/amicalc/amicalc.c:942-962 | the pending value, or none exactly when there is none or the operation fails |
| `CalcMachine.CalcState.HandleParenOpen` | ports/amicalc/amicalc.c:964-993 | the frame pushed in place, the ninth refused |
| `CalcMachine.CalcState.HandleParenClose` | ports/amicalc/amicalc.c:995-1017 | the frame popped, the value as its operand, an unmatched one refused |
| `CalcMachine.CalcState.HandleEquals` | ports/amicalc/amicalc.c:1019-1064 | the object stands for the value machine after '=' |
| `CalcMachine.CalcState.HandleUnary` | ports/amicalc/amicalc.c:568-720 | the entry or finished accumulator replaced by its image, or an error |
| `CalcMachine.CalcState.HandleAction` | ports/amicalc/amicalc.c:1066-1178 | for every key the mutable object makes exactly the step of the two value machines |
| `CalcMachine.CalcState.HandleAll` | ports/amicalc/amicalc.c:1066-1178 | so does every key sequence, every array access in bounds and both buffers NUL-terminated |
| `CalcMachine.Calculate` | ports/amicalc/amicalc.c:911-1064 | on a new object, the keys of any tree and '=' give the evaluator's value or the error |
| `Surface.ByteSpansDisjoint` | src/croi/dath/framebuffer.c:24-44 | distinct pixels of an initialised surface occupy disjoint bytes inside its buffer |
| `Surface.ChannelsKept` | src/croi/dath/draw.c:25-66 | a 16-bit pixel keeps the channels of its colour whatever the unused half holds, a 32-bit one the whole colour |
| `Surface.Framebuffer.Pixel` | src/croi/dath/draw.c:53-66 | exactly the visible pixel changes |
| `Surface.Framebuffer.FillRect` | src/croi/dath/draw.c:68-98 | exactly the visible part of the rectangle changes |
| `Line.LineEnds` | src/croi/dath/draw.c:178-209 | the ideal walk starts and ends on the given endpoints |
| `Line.LineShape` | src/croi/dath/draw.c:178-209 | each point is within half a pixel of the ideal line, one major step from the last |
| `Line.TieStays` | src/croi/dath/draw.c:193-208 | a point half way between two pixels goes to the one on the start's side |
| `Line.WalkTracks` | src/croi/dath/draw.c:193-208 | the incremental error loop visits exactly the points of the closed form |
| `Line.WalkEnds` | src/croi/dath/draw.c:194-198 | the exit test holds after exactly max(abs dx, abs dy) iterations and not before |
| `Line.DrawLine` | src/croi/dath/draw.c:178-209 | max(abs dx, abs dy) + 1 points for all endpoints, and exactly the visible ones are painted |
| `Blit.ClippedExact` | src/croi/dath/draw.c:108-148 | the two-sided clipping yields exactly the pixels with both ends in bounds |
| `Blit.FaithfulExactly` | src/croi/dath/draw.c:108-173 | a blit is a simultaneous copy exactly unless it moves content forward onto itself in one surface |
| `Blit.Smear` | src/croi/dath/draw.c:150-173 | three pixels moved right by one: the third gets the first one's value |
| `Blit.BlitRect` | src/croi/dath/draw.c:108-173 | exactly the clipped destination pixels change, each to the old value of its origin, self-blits included |
| `Polygon.CrossingsEven` | src/croi/dath/graphics_lib.c:488-498 | every scanline of every closed polygon has an even number of crossings |
| `Polygon.CrossXNearEdge` | src/croi/dath/graphics_lib.c:490-497 | every crossing is less than a pixel from the ideal edge |
| `Polygon.CrossXTowardFirst` | src/croi/dath/graphics_lib.c:495-497 | and on the first vertex's side of it |
| `Polygon.EdgePainted` | src/croi/dath/graphics_lib.c:488-514 | every pixel where an edge crosses a row belongs to the interior |
| `Polygon.RectangleFilled` | src/croi/dath/graphics_lib.c:467-516 | the interior of a rectangle is its columns, both edges included, and its rows but the last |
| `Polygon.TruncDivBetween` | src/croi/dath/graphics_lib.c:495-497 | every crossing lies between the ends of its edge |
| `Polygon.PairsAreEvenOdd` | src/croi/dath/graphics_lib.c:499-514 | pairing sorted crossings is the even-odd rule |
| `Polygon.CountBelowPermuted` | src/croi/dath/graphics_lib.c:499-507 | the even-odd count does not depend on the order of the crossings |
| `Polygon.ExchangeSort` | src/croi/dath/graphics_lib.c:499-507 | the exchange sort leaves an ordered permutation |
| `Polygon.Gather` | src/croi/dath/graphics_lib.c:486-498 | the crossings in edge order, the cap never reached, no division by zero |
| `Polygon.EvenOddInBox` | src/croi/dath/graphics_lib.c:467-516 | every painted column lies between two vertices |
| `Polygon.EvenOddInRows` | src/croi/dath/graphics_lib.c:467-485 | every painted row lies between the lowest and the highest vertex |
| `Polygon.FillPolygon` | src/croi/dath/graphics_lib.c:467-516 | exactly the visible pixels of the even-odd interior are painted |
| `Area.ShapesPartition` | src/croi/dath/graphics_lib.c:583-599 | every accumulated vector belongs to exactly one polygon of at most 64 vertices, in order |
| `Area.ShortRunsClamped` | src/croi/dath/graphics_lib.c:583-599 | with no run over 66 vectors, exactly the pixels of the polygons clamped to 64 vertices are painted |
| `Area.OverlongDiffers` | src/croi/dath/graphics_lib.c:583-599 | for every length over 66 a run and a pixel that clamping would not paint |
| `Area.ClampedExactly` | src/croi/dath/graphics_lib.c:463-599 | runs of up to n vectors are painted as clamped, whatever the points, exactly when n is at most 66 |
| `Area.AreaInfo.Append` | src/croi/dath/graphics_lib.c:536-555 | the vector is recorded, or refused exactly when the buffer is full |
| `Area.AreaInfo.End` | src/croi/dath/graphics_lib.c:570-604 | exactly the union of the polygons is painted and the accumulator is empty again |
| `Glyph.RowSpelt` | src/croi/dath/text.c:25 | the columns of a row are the binary digits of its byte, most significant leftmost |
| `Glyph.DrawChar` | src/croi/dath/text.c:10-29 | the glyph's cell, clipped, foreground exactly where the bitmap is set; on a cell that is not clipped the foreground pixels of each row, read as a binary number from the left, are the leading bits of the font's byte |
| `Glyph.DrawGlyph` | src/croi/dath/graphics_lib.c:339-374 | the cell of the code's slot in the strike, and the advance; on a cell that is not clipped the foreground pixels of each row are the slot's stretch of the binary digits of the strike's row |
| `Glyph.BuildStrike` | src/croi/dath/graphics_lib.c:280-303 | accepts exactly the fonts that fit and packs every row of every glyph into its column, the default column blank |
| `Glyph.StrikeAgrees` | src/croi/dath/graphics_lib.c:280-374 | for every accepted font with codes up to 255, strike and bitmap agree on every bit of every code 0..255 |
| `Glyph.StrikeDisagrees` | src/croi/dath/graphics_lib.c:305-332 | for every range that ends past 255 some accepted font disagrees |
| `Glyph.DrawBothWays` | src/croi/dath/graphics_lib.c:339-374 | equal surfaces stay equal when one is drawn from the strike and the other from the bitmap |
| `Glyph.OneAdvance` | src/croi/dath/graphics_lib.c:414-422 | a code of a proportional font advances by its own entry of the space table, one outside the font by the entry after the last |
| `Glyph.TextLength` | src/croi/dath/graphics_lib.c:408-426 | the loop, or the product cut to 32 bits: the sum of the advances exactly when that is under 2^31 or the font is proportional |
| `Glyph.Text` | src/croi/dath/graphics_lib.c:432-453 | every pixel shows the last glyph whose cell covers it, and the cursor moves by the sum of the advances, cut to a word |
| `Teletype.ScreenIsWindow` | src/croi/dath/console.c:43-100 | from any screen and for any bytes, the screen is the last rows of a paper on which rows are only ever added |
| `Teletype.LinesShown` | src/croi/dath/console.c:43-100 | lines shorter than a row, each ended by a line feed, on a blank screen: the last rows but one of them in order, and the rest blank |
| `Teletype.PrintablePut` | src/croi/dath/console.c:84-90 | a printable byte strikes the cursor's cell and no other, and goes on to the next row after the last column, everything moving up if there is none |
| `Teletype.FeedPut` | src/croi/dath/console.c:43-60 | a line feed goes to the next row, everything moving up if there is none |
| `Teletype.TabPut` | src/croi/dath/console.c:66-79 | a tab strikes spaces up to the next multiple of eight, or to the end of the row and on to the next |
| `Teletype.ReturnPut` | src/croi/dath/console.c:61-83 | a carriage return only goes back, and any other control byte does nothing |
| `Console.Put` | src/croi/dath/console.c:53-90 | the interpreter over the character grid keeps the cursor inside the grid |
| `Console.BlitUp` | src/croi/dath/console.c:33-39 | the overlapping upward blit gives each row the old row below it |
| `Console.DathConsole.ScrollUp` | src/croi/dath/console.c:33-41 | the pixels render the grid moved up with a blank last line |
| `Console.DathConsole.NewLine` | src/croi/dath/console.c:43-51 | the pixels render the grid after a newline |
| `Console.DathConsole.PutChar` | src/croi/dath/console.c:53-90 | the pixels render the grid the interpreter computes, for every byte |
| `Console.DathConsole.PutString` | src/croi/dath/console.c:92-100 | so for every string |
| `MinList.Initialise` | include/cara/list.h:29-34 | the header represents the empty sequence |
| `MinList.IsEmpty` | include/cara/list.h:36-39 | true exactly for the empty sequence |
| `MinList.AddHead` | include/cara/list.h:41-47 | represents the sequence with the node in front |
| `MinList.AddTail` | include/cara/list.h:49-55 | represents the sequence with the node at the end |
| `MinList.Remove` | include/cara/list.h:57-63 | represents the sequence without the node, with no head or tail case |
| `MinList.RemHead` | include/cara/list.h:65-73 | the first node, or none exactly when empty |
| `MinList.RemTail` | include/cara/list.h:75-83 | the last node, or none exactly when empty |
| `MinList.Walk` | include/cara/list.h:87-91 | the walk terminates and visits exactly the sequence |
| `MinList.RepresentsOne` | include/cara/list.h:29-91 | the links determine the sequence |
| `MinList.Perform` | include/cara/list.h:29-91 | every run of operations on detached and linked nodes leaves the sequence it computes |
| `MinList.Transfer` | include/cara/list.h:49-73 | a node moved from the front of one list to the end of another: both represent what they should and stay disjoint |
| `CxTree.LinkInForest` | src/croi/commodities/commodities_lib.c:107-162 | linking a detached object anywhere keeps parent and child links in agreement |
| `CxTree.LinkOutForest` | src/croi/commodities/commodities_lib.c:164-182 | taking a child out does too |
| `CxLink.LinkExactly` | src/croi/commodities/commodities_lib.c:130-162 | writing c into any position of h's list leaves a forest without cycles exactly when c was detached and h outside its subtree |
| `CxLink.InsertExactly` | src/croi/commodities/commodities_lib.c:146-162 | behind any object: exactly when, besides, that object is a child of h |
| `CxLink.AttachExactly` | src/croi/commodities/commodities_lib.c:107-128 | the walk to the end and the link it writes, a child already in the list included: the same condition |
| `CxLink.CycleMade` | src/croi/commodities/commodities_lib.c:107-128 | attaching an object to its own child leaves no forest |
| `CxOrder.EnqueuedOrder` | src/croi/commodities/commodities_lib.c:130-144 | enqueueing keeps non-increasing priority |
| `CxOrder.EnqueuedLast` | src/croi/commodities/commodities_lib.c:130-144 | an object goes behind those of its own priority |
| `CxOrder.ArrivalEnqueued` | src/croi/commodities/commodities_lib.c:130-144 | children that are the arrivals stably sorted by priority are so after one more |
| `CxOrder.ArrivalRemoved` | src/croi/commodities/commodities_lib.c:164-182 | and after any one has left |
| `CxTree.PostOrderExact` | src/croi/commodities/commodities_lib.c:185-194 | the freeing order lists exactly the subtree |
| `CxTree.PostOrderDistinct` | src/croi/commodities/commodities_lib.c:185-194 | and no object twice |
| `CxTree.PostOrderParents` | src/croi/commodities/commodities_lib.c:185-194 | and every object before its parent |
| `CxHeap.Heap.InOrder` | src/croi/commodities/commodities_lib.c:130-203 | in every heap that the operations produce, the children of an object that were only enqueued, and not repriced while linked, are the arrivals that have not left, stably sorted by priority |
| `CxHeap.Heap.Create` | src/croi/commodities/commodities_lib.c:22-46 | a detached childless object joins the forest |
| `CxHeap.Heap.SetPri` | src/croi/commodities/commodities_lib.c:90-105 | the clamped priority set, the old one returned, the order of the siblings no longer claimed |
| `CxHeap.Heap.Attach` | src/croi/commodities/commodities_lib.c:107-128 | for any two live objects the links written; last among the children, a null child recorded, and the invariant kept when the child was linkable |
| `CxHeap.Heap.Enqueue` | src/croi/commodities/commodities_lib.c:130-144 | for any two live objects the links written; at the place its priority gives it, last of the arrivals, and the invariant kept when the child was linkable |
| `CxHeap.Heap.InsertAfter` | src/croi/commodities/commodities_lib.c:146-162 | for any live objects the links written; first or right behind the given sibling, and the invariant kept when the child was linkable there |
| `CxHeap.Heap.Remove` | src/croi/commodities/commodities_lib.c:164-182 | out of its parent's list and detached, all other lists as they were, the arrivals without it |
| `CxHeap.Heap.FreeSubtree` | src/croi/commodities/commodities_lib.c:185-194 | frees the subtree in post-order while walking links that are still intact |
| `CxHeap.Heap.DeleteCxObj` | src/croi/commodities/commodities_lib.c:196-203 | frees each object of the subtree once and no other, the survivors' priorities, flags and order kept |
| `ConsoleInput.LineCooked` | src/croi/console_input.c:65-100 | printable text of up to 255 bytes and an Enter at the start of a line are delivered as that text and a line feed |
| `ConsoleInput.LinesApart` | src/croi/console_input.c:65-100 | what follows an Enter is cooked as if nothing had come before |
| `ConsoleInput.EraseUndoes` | src/croi/console_input.c:65-100 | a printable byte and an erase, anywhere with room for it, are as nothing |
| `ConsoleInput.Ignored` | src/croi/console_input.c:65-100 | so are an erase at the start of a line, text beyond a full line and any other control byte |
| `ConsoleInput.EnterDelivers` | src/croi/console_input.c:65-100 | Enter delivers exactly what the terminal shows up to its cursor, and a line feed |
| `ConsoleInput.Console.Accept` | src/croi/console_input.c:65-100 | the invariant after one more byte, and on Enter the pending line is what the terminal showed and a line feed |
| `ConsoleInput.RingFirst` | src/croi/console_input.c:42-50 | bytes waiting in the ring are obtained first and in order, whatever is injected and whatever the UART holds |
| `ConsoleInput.UartNext` | src/croi/console_input.c:42-50 | with the ring empty the UART's bytes come as it gives them |
| `ConsoleInput.PartFits` | src/croi/console_input.c:65-100 | no line outgrows its 256-byte buffer |
| `ConsoleInput.EchoDisplays` | src/croi/console_input.c:65-100 | the echo keeps a terminal showing exactly the line so far |
| `ConsoleInput.PushAllKeepsOrder` | src/croi/console_input.c:25-39 | the ring gains a prefix of what is pushed, the newest bytes dropped |
| `ConsoleInput.Console.RawPush` | src/croi/console_input.c:25-32 | a push onto the queue, dropped when full |
| `ConsoleInput.Console.Getc` | src/croi/console_input.c:42-50 | the oldest byte of the ring, else the UART's |
| `ConsoleInput.Console.FillLine` | src/croi/console_input.c:65-100 | the bytes taken up to the first Enter become the pending line |
| `ConsoleInput.Console.Read` | src/croi/console_input.c:117-130 | the next bytes of the cooked stream, as many as asked for unless the line ends first; queue and accepted bytes are what the polls it took make of them |
| `ConsoleInput.Console.ReadSeries` | src/croi/console_input.c:65-130 | for every series of reads, their results put together continue what was delivered before, and all of it is a prefix of the cooked bytes of the ring, the injections and the UART that the polls taken supplied, short by at most one line |
| `ConsoleInput.Console.DeliveredIsPrefix` | src/croi/console_input.c:65-130 | in every state what was delivered is a prefix of what was accepted, cooked, short by at most one line |
| `Bounce.Nvme.Write` | src/croi/nvme/io.c:68-97 | the argument checks, and where an accepted write lands |
| `Bounce.Nvme.Read` | src/croi/nvme/io.c:68-97 | the argument checks, and what an accepted read returns |
| `Bounce.PlanCovers` | src/croi/carafs_bind.c:72-99 | the commands cover the LBAs in order, each once, at most 8 KiB at a time |
| `Bounce.ChunkedWrite` | src/croi/carafs_bind.c:72-99 | success is one contiguous write under 2^32 bytes by the planned commands; failure stays within the range |
| `Bounce.ChunkedRead` | src/croi/carafs_bind.c:72-99 | success is one contiguous read by the planned commands |
| `Bounce.BdWrite` | src/croi/carafs_bind.c:109-114 | a success wrote exactly the bytes of the 32-bit LBA count, so below 2^32 LBAs the blocks hold the data; a count of zero succeeds and changes nothing; all other blocks and everything outside the partition are unchanged |
| `Bounce.BdRead` | src/croi/carafs_bind.c:102-107 | a success read exactly the bytes of the 32-bit LBA count, so below 2^32 LBAs the buffer holds the blocks; a count of zero succeeds and changes nothing |
| `Bounce.SuccessExactly` | src/croi/carafs_bind.c:102-114 | over all media and buffers, a successful bd_write wrote all blocks exactly when the LBA count is under 2^32, or wraps to 2^32 bytes or more, which never succeeds |
| `Bounce.ReadSuccessExactly` | src/croi/carafs_bind.c:102-107 | the same for bd_read |
| `Bounce.SilentWrite` | src/croi/carafs_bind.c:109-114 | 2^29 blocks of eight LBAs: a count of zero, and a success that wrote nothing |
| `Time.ScaleModulo` | src/croi/time.c:24-46 | without overflow in the remainder's product the split computation is the exact floor modulo 2^64 |
| `Time.ScaleExactly` | src/croi/time.c:24-46 | it is the exact floor of everything that fits, exactly when (b-1)*a fits in 64 bits |
| `Time.NowExact` | src/croi/time.c:24-36 | the clock is floor(t*10^9/hz) whenever that fits |
| `Time.NsToTicksExact` | src/croi/time.c:38-46 | the conversion back is floor(ns*hz/10^9) whenever that fits |
| `Time.NowMonotone` | src/croi/time.c:24-36 | the clock never goes back |
| `Time.NsToTicksMonotone` | src/croi/time.c:38-46 | nor does the conversion back |
| `Time.RoundTrip` | src/croi/time.c:24-46 | ticks to nanoseconds and back loses at most one tick |
| `Time.DeadlineTick` | src/croi/time.c:48-52 | at the armed tick Croi_Time_Now reads at most d, one tick later at least d |
| `Time.NeverEarlyExactly` | src/croi/time.c:48-52 | at the armed tick Croi_Time_Now has reached d exactly when d*hz is a multiple of 10^9 |
| `Time.EarlyTrap` | src/croi/time.c:48-52 | a deadline of 1 ns at 24 MHz is armed at tick 0 |
| `Time.FlagsExactly` | src/croi/time.c:48-73 | after every sequence of calls and traps: armed exactly when a deadline was set and since then neither cancelled nor reached, fired exactly when one was reached while armed and since then none was set and nobody asked |
| `Time.PollExactly` | src/croi/time.c:59-73 | so Croi_Time_DeadlineFired answers true exactly then |
| `Time.OneReportPerDeadline` | src/croi/time.c:48-73 | in every interleaving of calls and traps there is at most one report per deadline set |
| `LvoParser.ParseArgs` | tools/lvo-gen/lvo-gen.c:173-245 | the cursor loops accept the argument list of the grammar and nothing else |
| `LvoParser.ParseFunc` | tools/lvo-gen/lvo-gen.c:249-371 | the cursor loops compute the row of the grammar, its offset saturated to a long and cut to an int, or an error |
| `LvoParser.CheckServerSymbol` | tools/lvo-gen/lvo-gen.c:336-363 | the loops accept exactly the symbols `<gleas>::<tag>` |
| `LvoRoundTrip.RoundTrip` | tools/lvo-gen/lvo-gen.c:249-371 | every good row, printed with any numeral of its offset and the word of its flavour, parses back with its offset cut to an int, and to itself exactly when that fits |
| `LvoRoundTrip.OffsetCut` | tools/lvo-gen/lvo-gen.c:290-301 | the offset -4294967298 is read as -2 |
| `LvoRoundTrip.DigitsSpell` | tools/lvo-gen/lvo-gen.c:290-303 | every offset has a numeral that reads back as it |
| `LvoRoundTrip.FlavourIdent` | tools/lvo-gen/lvo-gen.c:305-320 | every flavour has a word that reads back as it |
| `LvoRoundTrip.ParsedIsGood` | tools/lvo-gen/lvo-gen.c:173-371 | every row the parser accepts is, but for the cut of its offset, good: identifiers, trimmed types, an offset that is a negative multiple of six, a well-formed server symbol |
| `LvoGen.FeedAllKeeps` | tools/lvo-gen/lvo-gen.c:374-509 | over every description, rows are numbered by position, padding rows are the ones named so, and nothing read is ever lost |
| `LvoGen.PadRunConforms` | tools/lvo-gen/lvo-gen.c:424-464 | a pad_run row sits where the finished library demands exactly when the bias is the same at the end, or the row is reserved |
| `LvoGen.UserSlotsDistinct` | tools/lvo-gen/lvo-gen.c:560-592 | in an accepted library user slots have strictly decreasing offsets and distinct names |
| `LvoGen.OffsetsDistinctExactly` | tools/lvo-gen/lvo-gen.c:550-570 | for every accepted library, all offsets are distinct exactly unless the bias is a multiple of six up to 24 and some user slot is past zero |
| `LvoGen.OverlappingAccepted` | tools/lvo-gen/lvo-gen.c:512-594 | a well-formed library whose first user slot has the offset of Open |
| `LvoGen.BiasExactly` | tools/lvo-gen/lvo-gen.c:412-423 | the bias read is kept exactly when it fits an int, and 4294967298 becomes 2 |
| `LvoGen.StandardTable` | tools/lvo-gen/lvo-gen.c:548-570 | with a bias of 30 all slots are six bytes apart from -6 down |
| `LvoGen.UserTable` | tools/lvo-gen/lvo-gen.c:560-570 | whatever the bias, the first user slot is there and each next one six bytes below |
| `LvoCoverage.RowCounted` | tools/lvo-gen/lvo-gen.c:933-966 | reading a printed row adds one to exactly the tally its name, position and flavour word call for |
| `LvoCoverage.FieldRead` | tools/lvo-gen/lvo-gen.c:374-404 | a line with the word of a field sets that field to its value and nothing else |
| `LvoGen.TalliesPartition` | tools/lvo-gen/lvo-gen.c:933-966 | the four tallies count every row once, the reserved ones being the first four |
| `LvoGen.CovCompute` | tools/lvo-gen/lvo-gen.c:947-966 | the loop computes the tallies and the last slot |
| `LvoGen.CovPct` | tools/lvo-gen/lvo-gen.c:969-976 | between 0 and 100, and 100 exactly when there is no stub |
| `LvoGen.StubRuns` | tools/lvo-gen/lvo-gen.c:1015-1031 | the runs are maximal, in order, cover every stub, and their lengths add up to the stub tally |
| `LvoLibrary.Library.AppendPads` | tools/lvo-gen/lvo-gen.c:438-462 | the loop appends the padding rows at the ordinals the table has reached |
| `LvoLibrary.Library.ReadDirective` | tools/lvo-gen/lvo-gen.c:374-471 | the record after a directive, or one more diagnostic |
| `LvoLibrary.Library.ReadAll` | tools/lvo-gen/lvo-gen.c:473-508 | the record after all lines, and whether any diagnostic was given |
| `LvoLibrary.Library.CheckNames` | tools/lvo-gen/lvo-gen.c:572-592 | no new diagnostic exactly when user names are unique |
| `LvoLibrary.Library.Validate` | tools/lvo-gen/lvo-gen.c:512-594 | no diagnostic exactly when there was none before and the library is well formed |
| `LvoLibrary.Load` | tools/lvo-gen/lvo-gen.c:1165-1173 | a description loads exactly when reading it gives no diagnostic and a well-formed library, which it then is |

## Left out

- Weak memory: the ring's steps are sequentially consistent; reorderings that the acquire and release annotations rule out are not examined.
- 32-bit overflow of drawing coordinates: coordinates are unbounded integers, as are their sums.
- Floating point: AmiCalc's numbers and the C library's functions on them are abstract; how accurate they are is a parameter of what is proved about them.
- The AmiCalc window, menus (including the constants menu) and drawing code.
- Areas of memory behind a surface: pixels are array elements, and two different surfaces never share memory.
- Dath_RGB, Dath_RGBA, Dath_Clear, Dath_DrawRect and Dath_DrawString: thin wrappers over what is modelled.
- The log sink of the console, and console output outside the echo.
- Commodities brokers, filters, translators, messages and ParseIX: accessors and text tables.
- The NVMe queues: a command is accepted or refused by its argument checks, and an accepted one succeeds or fails as the environment decides.
- CaraFS itself, GPT discovery, boot, traps and the scheduler: not part of this model.
- Timer hardware: the comparator raises its trap only while armed.
- ConsoleInput.Console.Read: a read that still waits for a line after the given polls answers None; the source waits on.
- LvoGen.PadRunConforms: slot offsets are computed in unbounded integers; int overflow in them is not modelled.
- CalcLine.LineShowsTree: numbers typed as digits, and functions only one at a time (`CalcUnary`); the line of other trees is covered by its bounds and by what each key does to it.
- CalcExact.KeysCompute: says nothing of trees whose evaluation leaves the range of the numbers, where infinities begin.
- LvoLibrary.Library.ReadAll: takes the trimmed lines; the 4096-byte line buffer and file errors are not modelled.
- The emitters of lvo-gen other than the stub-run loop: they print what the record holds.
- Glyph.TextLength: the proportional sum is unbounded; its overflow as a signed LONG is undefined in C.
