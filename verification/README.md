# Verified models of algorithms and protocols from Go's standard library, hystrix-go and a rate limiter

This project models the parts of the repository whose correctness rests on
arguments that testing does not reach, and proves what they promise. Each
module is headed by the file it models.

- **Software floating point** (`Words`, `Ieee754`, `DoubleWord`, `Sticky`,
  `Fma`, `FmaPack`, `FmaSum`, `FmaTheorem`, `Sqrt`, `FloatMod`). A float is its
  64-bit pattern, a natural number below 2^64; its magnitude is an integer
  multiple of 2^-1074. Bit operations are defined bit by bit on naturals and
  every fact about them is proved. `Ieee754.Round` is the reference: rounding of
  a nonnegative real to nearest, ties to even, with overflow to infinity
  (section 4.3.1 of IEEE 754-2008).
- **Concurrent protocols** (`HystrixCommand`, `HystrixPool`, `HystrixCircuit`,
  `ContextTree`, `Pipe`, `NetDial`). A state holds the program counter of every
  goroutine, the locks, channels and once-objects; a step relation has one step
  for each atomic action. Theorems hold at every state of every run, for any
  number of participants. Fields that only record the past are marked as history.
- **Token bucket** (`RateLimiter`). Tokens and times are exact reals. The class
  has the fields of the source; its methods are proved against functions on
  bucket values, and the bounds over whole histories are proved about those.
- **Streams behind buffers** (`ByteSource`, `BufioReader`, `BufioSplit`,
  `BufioScanner`, `FmtReadRune`, `Utf8`). The source of bytes is an arbitrary
  sequence of pieces, read in chunks of arbitrary size; the buffered reader and
  the scanner refine the plain byte sequence.
- **Search and order** (`RollingHash`, `BytesIndex`, `AddrSelect`).
- **Printers and parsers** (`MediaType` and `EncodedWord` for what is written
  and read, `MediaTypePieces` and `EncodedHeader` for what other writers produce,
  `MediaTypeLoops` and `EncodedWordLoops` for the loops, `HtmlEscape`).

`Basics` has what several modules share.

## What the proofs found

Where the code does less than its documentation or a reader would expect, the
model follows the code, and a lemma or contract states what it does.

- The sign of an exactly zero `FMA` is that of the product; section 6.3 of
  IEEE 754-2008 asks for +0 (`FmaTheorem.ExactZero`).
- A child context may end with another error than the parent whose cancellation
  reaches it, when its own deadline has passed first (`ContextTree.ErrorsMayDiffer`);
  `ContextTree.SameErrorExactly` says when it ends with the same.
- A second call of the `CancelFunc` of a context without a deadline may return while
  the context is still registered with its live parent
  (`ContextTree.LateCallLeavesNothing`); `ContextTree.OffItsParentExactly` says
  when it is off.
- A request for a negative number is accepted. Exactly such requests can break the
  rate bound and the order of act times, because they move the latest event back
  (`RateLimiter.BreaksIfNegative`), and overfill the bucket until the next call
  (`RateLimiter.OverfillsIfNegative`).
- A second `Cancel` of one reservation gives tokens again, unless the bucket is full
  (`RateLimiter.CancelTwice`), and `SetBurst` does not lower the stored tokens
  (`RateLimiter.SetBurstCaps`).
- After `ReadLine` has put a carriage return back, `UnreadByte` puts back another
  one, in place of the last byte that was given out
  (`BufioReader.UnreadAfterPrefix`, `BufioReader.LetterOverwritten`).
- `Scan` called again after `ErrTooLong` returns the truncated token
  (`BufioScanner.TokenAfterError`, `BufioScanner.ScanAgain`).
- In `fmt`, `UnreadRune` before any read makes up a rune zero, and an error other
  than EOF in the middle of a rune loses the bytes before it
  (`FmtReadRune.RuneReader.UnreadRune`, `FmtReadRune.RuneReader.ReadRune`).
- A semicolon at the end of a media type drops the parameters that were written
  in encoded form, and only those (`MediaType.TrailingSemicolonKeeps`).
- Text without special characters is written unencoded even if it holds something
  that can be decoded as an encoded-word, and exactly then it does not come back
  (`EncodedWord.PlainText`).
- Numeric character references wrap at 32 bits (`HtmlEscape.NumericMeaning`), and an
  entity table may not have a replacement longer than its name
  (`HtmlEscape.WiderThanItsName`).
- The address comparator is a lawful order only with the policy table
  (`AddrSelect.NotWithoutTheTable`).

## Model

| member | source | states |
|---|---|---|
| `FmaTheorem.FmaRoundsOnce` | src/math/fma.go:95-170 | for all finite nonzero x, y, z the result has the sign and the magnitude bits of the exact x*y+z, rounded once to nearest with ties to even (sections 4.3.1 and 5.4.1 of IEEE 754-2008), through subnormal operands, gradual underflow and overflow to infinity |
| `FmaTheorem.FmaIsCorrectlyRounded` | src/math/fma.go:95-170 | the same against a definition of correct rounding by distance: no magnitude is nearer to the exact sum, and a tie goes to the even one |
| `FmaTheorem.ExactZero` | src/math/fma.go:146-170 | when x*y+z is exactly zero, the result is +0 if the signs of x and y agree and -0 if they differ, also where the standard asks for +0 |
| `FmaTheorem.MinusOneTimesOnePlusOne` | src/math/fma.go:146-170 | a concrete input of that kind: -1*1+1 is -0 |
| `FmaTheorem.WhenNotFinite` | src/math/fma.go:102-106 | with finite nonzero factors and a nonzero addend: the result is NaN exactly if the addend is; an infinite addend gives an infinity of its sign; and a finite one gives infinity exactly if the exact sum reaches half a gap beyond the largest finite number |
| `FmaTheorem.SumStage` | src/math/fma.go:130-170 | alignment, addition or subtraction, normalisation and packing of any normalised product and addend give the rounding of their signed sum, whichever of the two is larger |
| `FmaTheorem.DifferenceStage` | src/math/fma.go:135-170 | with opposite signs, the stage rounds the difference of the magnitudes, and the operand taken first is the larger one |
| `FmaSum.SplitValue` | src/math/fma.go:76-91 | unpacking a finite nonzero float, normal or subnormal, gives its sign and a normalised 53-bit significand with the same magnitude |
| `FmaSum.ProductValue` | src/math/fma.go:114-128 | the two-word product with its exponent is exactly the product of the two significands |
| `FmaSum.AddAlignedDelivers` | src/math/fma.go:135-155 | the aligned operation yields a significand that stands for the exact sum or difference: the sticky bit loses nothing that rounding can see |
| `FmaSum.AddedDelivers` | src/math/fma.go:140-145 | adding a right-shifted addend, with the carry folded back |
| `FmaSum.SubtractedDelivers` | src/math/fma.go:146-154 | subtracting it, cancelling leading bits and renormalising; when more than one bit cancels the shift lost nothing |
| `Sticky.Shift` | src/math/fma.go:43-63 | a right shift that keeps a sticky bit keeps what a significand stands for, and shifts compose |
| `Sticky.AddEven` | src/math/fma.go:140-145 | what a significand stands for survives the addition of an even one |
| `Sticky.SubEven` | src/math/fma.go:146-154 | and subtraction from an even one |
| `DoubleWord.ShrCompressValue` | src/math/fma.go:43-63 | for every shift count, the two-word shrcompress is division by the power of two with a sticky lowest bit |
| `DoubleWord.ShlValue` | src/math/fma.go:27-31 | shl is multiplication by the power of two modulo 2^128 for every count below 128, the two wrap-around counts of its parts included |
| `DoubleWord.LeadingZerosValue` | src/math/fma.go:65-71 | lz counts the leading zeros of a double word exactly |
| `FmaPack.PackRounds` | src/math/fma.go:157-169 | packing rounds whatever the 63-bit significand stands for, normal, subnormal or overflowing |
| `FmaPack.PackSubnormal` | src/math/fma.go:162-169 | packing below the normal range: the second sticky shift and the rounding addition give the rounded value, the smallest normal included |
| `FmaPack.PackInfinite` | src/math/fma.go:157-161 | the overflow test is exact: it fires only for sums that round to infinity, and then the result is that infinity |
| `Ieee754.RoundIsCorrect` | src/math/fma.go:95-95 | the reference rounding meets the definition of rounding to nearest, ties to even |
| `Ieee754.CorrectlyRoundedUnique` | src/math/fma.go:95-95 | at most one magnitude is correctly rounded |
| `Sqrt.Sqrt` | src/math/sqrt.go:99-144 | zeros, NaN and +Inf come back unchanged, negative numbers give NaN, and every positive finite input, normal or subnormal, gives the magnitude between whose two rounding midpoints the root lies |
| `Sqrt.PositiveSqrt` | src/math/sqrt.go:107-143 | unpacking, halving the exponent, the digit loop and packing together yield that magnitude |
| `Sqrt.NearestRootRounds` | src/math/sqrt.go:99-144 | that magnitude is the IEEE rounding of the real root; a root never lies on a midpoint |
| `Sqrt.RootDigits` | src/math/sqrt.go:124-137 | the digit loop yields the integer square root of the scaled significand and a remainder that is zero exactly when the root is exact |
| `Sqrt.DigitStep` | src/math/sqrt.go:128-137 | one digit keeps the relation between the partial root, its double and the scaled remainder |
| `Sqrt.DigitWords` | src/math/sqrt.go:128-137 | no 64-bit word of the loop wraps |
| `Sqrt.NormaliseSubnormal` | src/math/sqrt.go:109-116 | the loop for subnormals shifts until the hidden bit is set and keeps the value |
| `Sqrt.StripExponent` | src/math/sqrt.go:117-119 | clearing the exponent bits and setting the hidden bit leaves the significand |
| `Sqrt.HalvedExponent` | src/math/sqrt.go:117-125 | doubling for an odd exponent and halving it makes the radicand a perfect power of four times the significand |
| `Sqrt.EvenRoot` | src/math/sqrt.go:138-141 | the final rounding gives the even number nearest to the root; an exact tie cannot occur |
| `Sqrt.RoundRootBits` | src/math/sqrt.go:139-143 | the rounding and packing expression computes that number as float bits |
| `FloatMod.Mod` | src/math/mod.go:23-46 | the special cases give NaN; otherwise the result is exactly x - trunc(x/y)*y, finite, with the sign of x |
| `FloatMod.ModMagnitude` | src/math/mod.go:29-41 | the loop of scaled subtractions terminates and leaves exactly the remainder of the magnitudes, an infinite y included |
| `FloatMod.RoundExponent` | src/math/mod.go:35-41 | each round subtracts y times a power of two that lies between half of r (exclusive) and r |
| `FloatMod.ExactDifference` | src/math/mod.go:40 | such a float subtraction is exact |
| `FloatMod.SignedRemainder` | src/math/mod.go:27-45 | the sign handling turns the remainder of the magnitudes into the truncated remainder |
| `FloatMod.FrexpValue` | src/math/frexp.go:18-33 | frexp returns a fraction in [1/2, 1) and an exponent with the same value, for subnormals too |
| `FloatMod.LdexpRounds` | src/math/ldexp.go:16-45 | ldexp by any power of two is the exact product rounded once: exact in the normal range, and right where it overflows, is subnormal or vanishes |
| `FloatMod.LdexpValue` | src/math/mod.go:40 | the scaling that mod uses, up to a finite result, is exact |
| `HystrixPool.TicketsConserved` | hystrix-go/hystrix/hystrix.go:73-198 | in every interleaving of any number of commands, the tickets in the channel and those held are together the tickets the pool began with, and as many as Max |
| `HystrixPool.ReturnNeverBlocks` | hystrix-go/hystrix/pool.go:24-33 | whoever still holds a ticket finds room in the channel |
| `HystrixPool.ReturnedBeforeError` | hystrix-go/hystrix/hystrix.go:73-198 | each ticket is returned at most once, and before any error can be seen on errChan; at most one error is sent, and the events are published at most once |
| `HystrixPool.EndedIsSettled` | hystrix-go/hystrix/hystrix.go:73-198 | when both goroutines of a command have ended, its outcome was decided and reported once, with the fallback event and the error exactly where they belong, and it holds no ticket |
| `HystrixPool.OutcomeHasItsCause` | hystrix-go/hystrix/hystrix.go:116-299 | for every ended command of every run: the outcome is a short circuit iff the goroutine that runs the function decided and AllowRequest had refused; a rejection iff it decided, was allowed and found no ticket; success or failure iff it decided with a ticket and the function returned so; a cancelled context or a timeout iff the other goroutine decided on that signal. The fallback event says how the fallback returned, and the caller is sent an error exactly when neither succeeded: the reason itself without a fallback, a failed fallback with that reason otherwise |
| `HystrixPool.Progress` | hystrix-go/hystrix/hystrix.go:73-198 | a command that has not ended can always take a step that brings its end nearer, whatever the others do |
| `HystrixPool.NewTickets` | hystrix-go/hystrix/pool.go:10-22 | the new pool holds each of its Max tickets once |
| `HystrixPool.NextKeepsInv` | hystrix-go/hystrix/hystrix.go:73-198 | every step of every command, and every new command, keeps the invariant |
| `HystrixPool.StepConserves` | hystrix-go/hystrix/hystrix.go:97-195 | no step of a command creates or loses a ticket |
| `HystrixCommand.StepValid` | hystrix-go/hystrix/hystrix.go:73-198 | each step of either goroutine keeps the invariant of a command: mutex, condition variable, once, channels, and the events so far |
| `HystrixCommand.StepCaused` | hystrix-go/hystrix/hystrix.go:116-195 | each step keeps the link between what is being decided and what happened: the answer of AllowRequest, the ticket, the result of the function and the signal seen |
| `HystrixCommand.StepFell` | hystrix-go/hystrix/hystrix.go:263-299 | each step keeps the link between the events, the result of the fallback and the error that is sent |
| `HystrixCommand.CommandCanStep` | hystrix-go/hystrix/hystrix.go:116-195 | given room for its ticket, no command is ever stuck: not at the mutex, the condition variable, the once, the ticket channel or errChan |
| `HystrixCommand.RunnerStepDescends` | hystrix-go/hystrix/hystrix.go:116-171 | every step of the goroutine that runs the function lowers a bound on what is left to do |
| `HystrixCommand.WatcherStepDescends` | hystrix-go/hystrix/hystrix.go:173-195 | so does every step of the goroutine that watches the context and the timer |
| `HystrixCircuit.TestsSpaced` | hystrix-go/hystrix/circuit.go:92-136 | in every run, any two requests that were let through in one open episode, although they saw the circuit open or forced open or found it unhealthy, read the clock more than a sleep window apart |
| `HystrixCircuit.TestsAreFew` | hystrix-go/hystrix/circuit.go:92-136 | so n requests let through in one open episode take more than n sleep windows, counted from the opening |
| `HystrixCircuit.AnswerIs` | hystrix-go/hystrix/circuit.go:117-136 | a request that saw the circuit closed and found it healthy is let through; any other is let through only in an open episode, more than a sleep window after it began |
| `HystrixCircuit.TestAnswers` | hystrix-go/hystrix/circuit.go:121-136 | a request that was not found healthy is told yes exactly by the step that makes its clock reading the last tested time, and then the circuit is open and the window has gone by; it is told no only when the circuit is not open, the window has not gone by, or another request of the same episode has been granted the test |
| `HystrixCircuit.HistoryIsTrue` | hystrix-go/hystrix/circuit.go:92-112 | what a call records is what was the case at that step: the circuit open or forced open, the judgement of the metrics, the clock and the open episode |
| `HystrixCircuit.OpensAndCloses` | hystrix-go/hystrix/circuit.go:138-177 | the circuit opens only by a request that found it closed and unhealthy, at the time the clock shows, and closes only by a report of success that saw it open |
| `HystrixCircuit.UnhealthyOpens` | hystrix-go/hystrix/circuit.go:105-109 | a request that finds the circuit unhealthy is answered only once the circuit is, or has since been, open |
| `HystrixCircuit.SuccessCloses` | hystrix-go/hystrix/circuit.go:152-177 | a report of success returns only once the circuit is, or has been since the call, closed |
| `HystrixCircuit.NoDeadlock` | hystrix-go/hystrix/circuit.go:92-196 | while a call has not ended, some call can take a step: who holds the lock never waits |
| `HystrixCircuit.StepKeepsInv` | hystrix-go/hystrix/circuit.go:92-196 | every step of AllowRequest and ReportEvent keeps the invariant: exclusion, what each call has seen, the last tested time, and the distance of the tests |
| `HystrixCircuit.StepKeepsExclusive` | hystrix-go/hystrix/circuit.go:92-164 | readers and writers of the circuit exclude each other |
| `RateLimiter.RateBound` | rate/rate.go:310-385 | over every history of reservations in time order, none for a negative number, the tokens of the granted ones whose time to act lies in an interval of length T are at most burst + limit*T |
| `RateLimiter.HistoryBounded` | rate/rate.go:310-359 | along every such history act times never decrease and stored tokens never exceed burst |
| `RateLimiter.BreaksIfNegative` | rate/rate.go:310-359 | histories whose only negative requests are for n can break the rate bound, and can break the order of act times, if and only if n < 0 |
| `RateLimiter.NegativeRequestBreaksBound` | rate/rate.go:310-359 | requests for 5, -5 and 5 at one time let 10 events act at once with burst 5, and act times go back |
| `RateLimiter.OverfillsIfNegative` | rate/rate.go:310-359 | a request can leave more than burst tokens stored if and only if it asks for a negative number |
| `RateLimiter.NegativeRequestOverfills` | rate/rate.go:310-359 | a concrete request for -3 that leaves 8 tokens in a bucket of 5 |
| `RateLimiter.CancelUndoesReserve` | rate/rate.go:154-191 | cancelling the latest reservation before its time to act restores what would have been available at every later time |
| `RateLimiter.CancelGivesRest` | rate/rate.go:154-191 | after any further requests made while the bucket is in debt, cancelling a reservation gives back what the later grants have not taken |
| `RateLimiter.CancelBoth` | rate/rate.go:154-191 | two grants in a row that leave the bucket in debt, cancelled in the same order before they may act: the first gives back what the second has not taken, the second all it took, and at every later time as much is available as if only the smaller had been granted |
| `RateLimiter.LaterRefundsSame` | rate/rate.go:154-191 | when other grants with tokens were made after it, all before it may act, cancelling a reservation changes the refund of none of them |
| `RateLimiter.OtherRefundsSame` | rate/rate.go:177-190 | cancelling a reservation that is not the latest changes no refund |
| `RateLimiter.CancelTwice` | rate/rate.go:154-191 | what a second cancellation of the same reservation gives on top, and that it changes nothing exactly when the bucket would be full anyway |
| `RateLimiter.CancelTwiceOverpays` | rate/rate.go:154-191 | a concrete reservation of 4 whose second cancellation leaves 8 tokens where the first left none |
| `RateLimiter.SetLimitKeepsTokens` | rate/rate.go:279-288 | a new limit applies from now on: what has accrued is kept |
| `RateLimiter.SetBurstCaps` | rate/rate.go:296-305 | a new burst bounds what is available; stored tokens exceed it exactly when more was available before |
| `RateLimiter.AdvanceFills` | rate/rate.go:364-385 | the computation that avoids overflow is the plain refill, capped at burst |
| `RateLimiter.WaitIsZero` | rate/rate.go:328-335 | the wait is what the missing tokens take to accrue, and zero exactly when none is missing |
| `RateLimiter.GrantStep` | rate/rate.go:310-359 | a granted reservation of no negative number keeps the balance between stored tokens, future act times and burst |
| `RateLimiter.StepBounded` | rate/rate.go:310-359 | one such reservation keeps the bound on every earlier start of an interval |
| `RateLimiter.Limiter.constructor` | rate/rate.go:85-90 | a new limiter is an empty bucket last updated at time zero |
| `RateLimiter.Limiter.ReserveN` | rate/rate.go:310-359 | granted exactly if n is not above the burst and the missing tokens accrue within the accepted wait; the time to act is when they have; from then on n fewer tokens are available, and after a refusal as many as before; limit and burst stay |
| `RateLimiter.Limiter.AllowN` | rate/rate.go:100-102 | true exactly when the limit is infinite, or n does not exceed burst or the tokens available now |
| `RateLimiter.Limiter.CancelAt` | rate/rate.go:154-191 | at every later time the refund is available on top, up to the burst; without a refund nothing changes; the latest event moves back, by the time the tokens take, exactly if the reservation is the latest and its tokens can all accrue before it acts, and stays otherwise |
| `RateLimiter.Limiter.SetLimitAt` | rate/rate.go:279-288 | at every later time what was available has grown at the new limit |
| `RateLimiter.Limiter.SetBurstAt` | rate/rate.go:296-305 | at every later time what was available has grown at the limit, up to the new burst |
| `ContextTree.CancelReturned` | src/context/context.go:418-443 | once a call of cancel has returned, every context below its node that has been returned to a caller is done, with the error of the node or of a cancellation in between, and nothing stays registered under it, however propagateCancel raced |
| `ContextTree.SubtreeDone` | src/context/context.go:418-443 | below a node whose cancellation ran to its end every context is done, and an error that differs comes from a cancellation in between |
| `ContextTree.SameErrorExactly` | src/context/context.go:418-443 | with no other cancellation under way or begun between a context and the cancelled one, the context ends with the same error if and only if it had none before, or that one |
| `ContextTree.ErrorsMayDiffer` | src/context/context.go:454-479 | a run in which a child that is still registered ends with another error than its parent: its own deadline has passed just before the parent is cancelled |
| `ContextTree.OffItsParentExactly` | src/context/context.go:338-443 | in every reachable state, a context that has been returned is missing among the children of a live parent if and only if a call that leaves the parent has ended: one that is to remove it, of a context with a deadline or one that did not find it already cancelled; no other call takes it off |
| `ContextTree.RemovedFromParent` | src/context/context.go:338-350 | once such a call has ended, the context is never again among the children of a live parent |
| `ContextTree.LateCallLeavesNothing` | src/context/context.go:424-442 | a run in which a second call of a CancelFunc returns while the context is still registered with its live parent, because the first call has not removed it yet |
| `ContextTree.NoLiveChildLeft` | src/context/context.go:272-308 | no live child is left under a cancelled parent, and a live child of a live parent is registered, in every reachable state |
| `ContextTree.ErrorsStick` | src/context/context.go:418-443 | an error, once set, never changes |
| `ContextTree.NoDeadlock` | src/context/context.go:272-443 | while some goroutine has not ended, some goroutine can step |
| `ContextTree.WaitsBelow` | src/context/context.go:418-443 | whoever holds the lock of a node waits at most for the lock of a later, lower node, so waits form no cycle |
| `ContextTree.NextKeepsInv` | src/context/context.go:251-443 | every step keeps the invariant of the tree, the locks and the stacks of nested cancellations, and only adds to the tree |
| `Pipe.BytesConserved` | src/io/pipe.go:50-104 | in every run the bytes handed to Reads are the consumed prefixes of the Writes in lock order, plus the bytes of at most one hand-off still to be acknowledged |
| `Pipe.CountReachesItsWriter` | src/io/pipe.go:50-104 | a count about to be sent on rdCh has exactly one writer waiting for it, the one whose next bytes were taken, and no other reader is about to send |
| `Pipe.WriteReturns` | src/io/pipe.go:84-104 | a Write that returns no error has delivered all its bytes; one that fails does so after a close |
| `Pipe.ReadReturns` | src/io/pipe.go:50-65 | a Read returns at most as many bytes as it has room for; bytes or an error; and an error only after a close has stored one |
| `Pipe.ReadFills` | src/io/pipe.go:57-62 | whenever a Read is handed bytes, it meets exactly one waiting Write and gets the next bytes of it, as many as fit: it fills its room, or that Write has no more |
| `Pipe.WriteMeetsARead` | src/io/pipe.go:93-103 | a Write that returns without error has met a Read, even if it had nothing to write |
| `Pipe.ReadErrorIs` | src/io/pipe.go:67-73 | in every run a failed Read returns the error of the writing side if the reading side has no error by then, ErrClosedPipe if it had one before the Read looked, and always one of the two |
| `Pipe.WriteErrorIs` | src/io/pipe.go:106-112 | the same for a failed Write, with the sides exchanged |
| `Pipe.ReadAfterClose` | src/io/pipe.go:50-55 | a Read begun after the pipe was closed gets no bytes and returns an error |
| `Pipe.WriteAfterClose` | src/io/pipe.go:84-88 | a Write begun after that delivers nothing and returns an error |
| `Pipe.CloseReturns` | src/io/pipe.go:75-121 | a close that has returned has stored an error on its side and closed the pipe |
| `Pipe.ErrorIsFromAClose` | src/io/pipe.go:75-121 | a stored error is that of a close of the same side; a close without one stands for EOF on the side of the writer and for ErrClosedPipe on that of the reader |
| `Pipe.NoDeadlock` | src/io/pipe.go:50-104 | while a Write and a Read are under way, one of the calls can step, without any close |
| `Pipe.WriteUnblocked` | src/io/pipe.go:84-104 | once the pipe is closed, a pending Write can take a step towards its return, or the holder of the lock it waits for can |
| `Pipe.ReadUnblocked` | src/io/pipe.go:50-65 | and so can a pending Read, if need be by completing its hand-off |
| `Pipe.ErrorsStick` | src/io/pipe.go:21-33 | the first stored error of each side stays, and a closed pipe stays closed |
| `Pipe.NextKeepsInv` | src/io/pipe.go:50-121 | every step of a Read, a Write or a close keeps the invariant |
| `BufioReader.Reader.ReadBytes` | src/bufio/bufio.go:429-465 | unless the source stalls, returns exactly the unread stream through the first delimiter, or all of it with its error when there is none, for every buffer size and chunking; the rest stays unread |
| `BufioReader.Reader.ReadSlice` | src/bufio/bufio.go:330-369 | returns bytes that leave the unread stream: through the delimiter, or a full buffer with ErrBufferFull, or what is left with the error |
| `BufioReader.Reader.ReadLine` | src/bufio/bufio.go:387-420 | unless the source stalls, a line without its ending, or a proper prefix of it that fills the buffer, all but a carriage return at its end, which goes back to the stream and stays the byte to unread |
| `BufioReader.Reader.ReadByte` | src/bufio/bufio.go:246-258 | takes the next byte of the stream, or its error |
| `BufioReader.Reader.UnreadByte` | src/bufio/bufio.go:265-280 | puts the last byte read in front of the unread ones, and fails exactly when there is none; only after a ReadLine that put a carriage return back may that byte not be the last one given out |
| `BufioReader.UnreadAfterPrefix` | src/bufio/bufio.go:265-280 | after a prefix from ReadLine, UnreadByte restores the last byte of the prefix if and only if that byte is a carriage return or ReadLine has put none back |
| `BufioReader.LetterOverwritten` | src/bufio/bufio.go:387-420 | a client and a source for which it does not: the fifteenth letter of a line comes back as a carriage return |
| `BufioReader.Reader.Peek` | src/bufio/bufio.go:129-156 | shows the next bytes and leaves them unread, with the right error when there are fewer or the buffer is too small |
| `BufioReader.Reader.Read` | src/bufio/bufio.go:197-242 | hands out a prefix of the unread stream, past the buffer for large requests, and delays the error of the source until the buffered bytes are gone |
| `BufioReader.Reader.Fill` | src/bufio/bufio.go:86-114 | sliding and reading more leaves the unread stream as it was, and gets more bytes or an error, or gives up; the invariant says that it has given up no more often than the source has paused for 100 empty reads in a row |
| `BufioReader.Reader.ReadErr` | src/bufio/bufio.go:116-120 | hands the pending error over and forgets it |
| `BufioReader.Reader.CollectFragments` | src/bufio/bufio.go:430-452 | the full buffers and the last fragment are together the bytes taken from the stream |
| `BufioReader.Reader.PutBack` | src/bufio/bufio.go:265-280 | puts a byte in front of the buffered ones |
| `BufioReader.Reader.constructor` | src/bufio/bufio.go:46-58 | a new reader holds nothing and has the whole stream ahead |
| `BufioReader.ThroughFirst` | src/bufio/bufio.go:429-465 | bytes that leave the stream and contain the delimiter only at their end are the stream through its first delimiter |
| `BufioReader.LinePrefix` | src/bufio/bufio.go:387-420 | cutting a line after a prefix that does not end between carriage return and line feed does not change its text |
| `ByteSource.Source.constructor` | src/io/io.go:49-79 | a reader as any sequence of pieces, each with the error that comes with its last byte |
| `ByteSource.Source.Read` | src/io/io.go:49-79 | hands out any part of the current piece, with its error only when the piece is used up, and counts the reads in a row that deliver nothing |
| `BufioScanner.Scanner.Scan` | src/bufio/scan.go:134-230 | for every lawful split function, chunking and buffer, one call yields the next token of the whole remaining input, or stops at its end or with an error; the loop terminates |
| `BufioScanner.ScanAll` | src/bufio/scan.go:134-230 | unless a token is too long or the source fails or stalls, successive calls yield exactly the tokens of the whole input, whatever the chunks |
| `BufioScanner.TokenAfterError` | src/bufio/scan.go:134-178 | with an error pending, a call yields a token if and only if there is one in what is buffered, and then the first of those |
| `BufioScanner.ScanAgain` | src/bufio/scan.go:188-195 | a client that calls Scan again after ErrTooLong gets the part of the line that fills the buffer as if it were a line |
| `BufioScanner.HalfALine` | src/bufio/scan.go:188-195 | a source and a buffer for which it gets two of three letters, unless the source stalls |
| `BufioScanner.Scanner.TryToken` | src/bufio/scan.go:141-179 | splitting the buffered bytes yields the token that splitting all of the input yields, or asks for more |
| `BufioScanner.Scanner.Refill` | src/bufio/scan.go:209-228 | reading more keeps the input and makes progress, or sets an error; by the invariant the error is ErrNoProgress only after more than 100 empty reads in a row |
| `BufioScanner.Scanner.Shift` | src/bufio/scan.go:180-187 | moving the unread bytes to the front keeps them |
| `BufioScanner.Scanner.Grow` | src/bufio/scan.go:188-208 | a full buffer is doubled up to the maximum; ErrTooLong otherwise |
| `BufioScanner.Scanner.Advance` | src/bufio/scan.go:233-244 | accepts exactly the counts within the buffer |
| `BufioScanner.Scanner.SetErr` | src/bufio/scan.go:247-251 | only io.EOF is replaced by a later error |
| `BufioScanner.Scanner.constructor` | src/bufio/scan.go:86-92 | a new scanner sees the whole input |
| `BufioSplit.LinesLawful` | src/bufio/scan.go:345-359 | ScanLines does not depend on what follows the bytes it decided on |
| `BufioSplit.WordsLawful` | src/bufio/scan.go:390-414 | nor does ScanWords, although it waits for incomplete characters |
| `BufioSplit.RunesLawful` | src/bufio/scan.go:299-329 | nor does ScanRunes |
| `BufioSplit.BytesLawful` | src/bufio/scan.go:284-289 | nor does ScanBytes |
| `BufioSplit.LineTokens` | src/bufio/scan.go:345-359 | the lines of an input: each is cut at its line feed, and loses one carriage return |
| `BufioSplit.WordTokens` | src/bufio/scan.go:390-414 | the words of an input: each is cut at the first space after it |
| `BufioSplit.SpaceToken` | src/bufio/scan.go:390-414 | leading spaces belong to no word |
| `BufioSplit.WordsIsFirstWord` | src/bufio/scan.go:390-414 | ScanWords is skipping spaces and taking the first word |
| `BufioSplit.SpacesAreWhiteSpace` | src/bufio/scan.go:364-384 | the characters that separate words are the 25 with the property White_Space in Unicode |
| `BufioSplit.ScanWordsLoop` | src/bufio/scan.go:390-414 | its two loops compute that |
| `Utf8.DecodeEncoded` | src/unicode/utf8/utf8.go:341-369 | decoding an encoded scalar value, with anything after it, gives it back with its width |
| `Utf8.EncodeDecoded` | src/unicode/utf8/utf8.go:151-189 | a decoded rune is the error rune of width one, or encodes to exactly the bytes it was decoded from |
| `Utf8.FullRuneStable` | src/unicode/utf8/utf8.go:104-121 | a full rune decodes alike whatever follows it |
| `Utf8.Incomplete` | src/unicode/utf8/utf8.go:104-121 | bytes that are not a full rune are at most three, all continuation bytes but the first |
| `BytesIndex.Index` | src/bytes/bytes.go:994-1079 | returns the first occurrence, or -1, on every platform: small cases, byte skipping and the fallback all agree with the definition |
| `BytesIndex.LastIndex` | src/bytes/bytes.go:104-138 | returns the last occurrence, or -1 |
| `BytesIndex.IndexRabinKarp` | src/bytes/bytes.go:1081-1102 | the rolling search returns the first occurrence |
| `BytesIndex.LastIndexRabinKarp` | src/bytes/bytes.go:119-137 | the search from the back returns the last one |
| `BytesIndex.IndexShort` | src/bytes/bytes.go:1008-1043 | byte skipping with brute force after too many failures misses no candidate |
| `BytesIndex.IndexLong` | src/bytes/bytes.go:1044-1078 | neither does the switch to the rolling hash |
| `BytesIndex.NextCandidate` | src/bytes/bytes.go:1049-1056 | skipping to the next first byte passes over no occurrence |
| `BytesIndex.FirstInRest` | src/bytes/bytes.go:1071-1075 | the first occurrence in the rest is the first in the whole |
| `BytesIndex.LastIndexByte` | src/bytes/bytes.go:141-148 | the last occurrence of one byte |
| `RollingHash.RollHash` | src/bytes/bytes.go:1092-1096 | one rolling step modulo 2^32 turns the hash of a window into that of the next window |
| `RollingHash.PrimePower` | src/bytes/bytes.go:1114-1120 | the squaring loop computes the prime to the power of the length modulo 2^32 |
| `RollingHash.HashStr` | src/bytes/bytes.go:1109-1122 | the hash of the separator and that power |
| `RollingHash.HashStrRev` | src/bytes/bytes.go:1126-1139 | the hash of the reversed separator and that power |
| `FmtReadRune.ReadToEnd` | src/fmt/scan.go:330-367 | on a stream that ends in EOF, the runes read one by one are those of decoding all of its bytes at once, one error rune for each bad byte |
| `FmtReadRune.RuneReader.ReadRune` | src/fmt/scan.go:330-367 | one call takes the first rune of the bytes still to come, loses and reorders nothing, and fails exactly at the end or when another error cuts a rune short |
| `FmtReadRune.RuneReader.UnreadRune` | src/fmt/scan.go:369-376 | the last rune comes again; twice in a row is refused |
| `FmtReadRune.RuneReader.ReadByte` | src/fmt/scan.go:314-326 | takes the first pending byte, or one from the reader |
| `FmtReadRune.RuneReader.Gather` | src/fmt/scan.go:348-358 | collects at most four bytes, all but the first and last continuation bytes |
| `FmtReadRune.RuneReader.Save` | src/fmt/scan.go:360-363 | the bytes left over come back first; they are saved only when nothing is pending, so the buffer never overflows |
| `FmtReadRune.RuneReader.Decode` | src/fmt/scan.go:341-366 | the decoded rune is that of the whole stream |
| `HtmlEscape.UnescapeString` | src/html/escape.go:187-214 | rewriting in place computes the unescaped string, for every byte string, and never makes it longer, provided no replacement is longer than its name |
| `HtmlEscape.UnescapeEntity` | src/html/escape.go:56-164 | one reference: writes its replacement at dst, moves both cursors, keeps dst at or behind src and the input ahead untouched |
| `HtmlEscape.ReferenceFits` | src/html/escape.go:56-164 | a replacement never takes more bytes than the reference read |
| `HtmlEscape.WiderThanItsName` | src/html/escape.go:146-148 | an entry whose replacement is longer than its name, which the table requirement rules out, makes a string longer |
| `HtmlEscape.NumericMeaning` | src/html/escape.go:69-121 | a numeric reference is replaced by U+FFFD exactly if its number, wrapped at 32 bits, is no positive code point or is U+FFFD, so not for every number above U+10FFFF |
| `HtmlEscape.NumericLength` | src/html/escape.go:69-105 | a numeric reference takes its digits and the semicolon if there is one, and is left alone if that is not more than three bytes |
| `HtmlEscape.RuneFixed` | src/html/escape.go:111-119 | the numbers that stand for other characters are those of the table in the HTML standard, under the numeric character reference end state |
| `HtmlEscape.NamedMeaning` | src/html/escape.go:123-163 | a named reference takes the longest run of letters and digits and the semicolon, and stands for the value of that name, or else of its longest proper prefix of two to six bytes with one; with none it stays |
| `HtmlEscape.NumberWraps` | src/html/escape.go:82-121 | 2^32 + 65 is replaced by the letter A |
| `HtmlEscape.RoundTrip` | src/html/escape.go:166-214 | unescaping an escaped string gives it back, for every byte string |
| `HtmlEscape.NotTheConverse` | src/html/escape.go:166-214 | escaping an unescaped string need not |
| `HtmlEscape.ByteRoundTrip` | src/html/escape.go:166-180 | each byte is escaped to text that unescapes to it, whatever follows |
| `HtmlEscape.NoneLeft` | src/html/escape.go:166-180 | an escaped string holds none of the five special characters except the ampersand, and that only where a reference for one of the five begins |
| `HtmlEscape.OthersStay` | src/html/escape.go:166-180 | a string without special characters is escaped to itself |
| `HtmlEscape.ParseReference` | src/html/escape.go:56-164 | the parser returns the replacement and the length of the reference at the cursor |
| `HtmlEscape.ParseNumber` | src/html/escape.go:69-105 | the number of a numeric reference, wrapping as a 32-bit rune does, and where it ends |
| `HtmlEscape.ParseName` | src/html/escape.go:123-163 | named references: with and without the semicolon, and the longest known prefix |
| `AddrSelect.StrictWeakOrder` | src/net/addrselect.go:96-214 | for any addresses, Less is irreflexive, asymmetric and transitive, and so is incomparability, although the last rule applies only to IPv6 pairs |
| `AddrSelect.NotWithoutTheTable` | src/net/addrselect.go:194-208 | with all attributes equal but the table not used, incomparability would not be transitive: the order rests on the policy table |
| `AddrSelect.LessIsKeyOrder` | src/net/addrselect.go:96-214 | Less compares keys lexicographically |
| `AddrSelect.Precedence35` | src/net/addrselect.go:308-315 | the table gives precedence 35 to the IPv4 addresses and to no other |
| `AddrSelect.LongestMatch` | src/net/addrselect.go:308-315 | on a sorted table Classify returns the longest matching prefix |
| `AddrSelect.AttrOfLongest` | src/net/addrselect.go:64-81 | the precedence and the label of an address are those of the entry with the longest prefix that contains it |
| `AddrSelect.ScopeByPrefix` | src/net/addrselect.go:329-343 | the scope of every address, by address blocks: 127.0.0.0/8, 169.254.0.0/16, ::1/128, fe80::/10, ff00::/8 with the scope in the address, fec0::/10, and global otherwise |
| `AddrSelect.OrderIrrelevant` | src/net/addrselect.go:276-290 | how the unstable sort orders entries of equal length does not matter |
| `AddrSelect.CommonPrefixLenLoop` | src/net/addrselect.go:355-390 | the byte and bit loops count the leading bits in which two addresses agree, at most 64 for IPv6, and zero across families |
| `AddrSelect.CommonPrefixMeans` | src/net/addrselect.go:355-390 | the addresses agree in that many leading bits and differ in the next, unless that is all of an IPv4 address or the upper half of an IPv6 address |
| `AddrSelect.LeadingBits` | src/net/addrselect.go:377-387 | the shifting loop counts the leading equal bits of two different bytes |
| `AddrSelect.ByRFC6724.constructor` | src/net/addrselect.go:20-36 | the attributes are those of the addresses at the same positions |
| `AddrSelect.ByRFC6724.Swap` | src/net/addrselect.go:85-90 | swaps all four arrays at both positions and nothing else |
| `NetDial.NothingLeaks` | src/net/dial.go:448-518 | after the return every connection a racer established is the one returned, or is closed, or its racer is about to close it |
| `NetDial.ErrorIsPrimary` | src/net/dial.go:497-508 | an error is returned only after both racers failed, and it is the error of the primary |
| `NetDial.OneFallback` | src/net/dial.go:490-495 | the fallback racer starts at most once |
| `NetDial.FallbackAtOnce` | src/net/dial.go:509-515 | a failed primary makes the fallback start without further delay |
| `NetDial.LoopNotStuck` | src/net/dial.go:490-517 | once the racers have finished, the main loop can always step, towards its end |
| `NetDial.StepsDescend` | src/net/dial.go:448-518 | every step of any participant lowers a bound, so every run ends |
| `NetDial.NextKeepsInv` | src/net/dial.go:448-518 | every step of racers, timer and main loop keeps the invariant |
| `MediaType.RoundTrip` | src/mime/mediatype.go:20-238 | for token types and lower-case token names without a star, and arbitrary byte-string values, parsing the formatted string gives the lower-cased type and the same parameters, in whatever order they were written |
| `MediaType.TrailingSemicolon` | src/mime/mediatype.go:166-171 | with a semicolon after the formatted string, the parameters that needed encoding are dropped |
| `MediaType.TrailingSemicolonKeeps` | src/mime/mediatype.go:166-171 | so the parser makes the same of the string with and without the semicolon if and only if no parameter needs encoding |
| `MediaType.ParamsRead` | src/mime/mediatype.go:159-194 | reading the formatted parameters gives back each name and value |
| `MediaType.ParamRead` | src/mime/mediatype.go:326-352 | one formatted parameter is read back, whichever of the three forms its value has |
| `MediaType.MergedIsParam` | src/mime/mediatype.go:196-235 | putting the pieces of encoded parameters together gives the original map |
| `MediaType.QuotedRead` | src/mime/mediatype.go:287-324 | a quoted string is read back with its backslashes removed |
| `MediaType.PercentRoundTrip` | src/mime/mediatype.go:354-391 | percent-encoding is undone, and uses only token characters |
| `MediaType.Decode2231Of` | src/mime/mediatype.go:240-261 | a value with any charset, language and percent-encoded text decodes to that text if the charset is UTF-8 or US-ASCII, in any case, and to nothing otherwise |
| `MediaType.HexDigits` | src/mime/mediatype.go:393-414 | the hexadecimal digits are those of either case, with their values |
| `MediaType.Decode2231RoundTrip` | src/mime/mediatype.go:240-261 | a value with the UTF-8 prefix decodes to the original |
| `MediaType.TypeKept` | src/mime/mediatype.go:104-123 | a formatted type passes the check of the parser unchanged |
| `MediaType.PiecesAreFew` | src/mime/mediatype.go:208-231 | the search for numbered pieces ends because a map cannot hold a piece for every number up to its size |
| `MediaTypePieces.PiecesRoundTrip` | src/mime/mediatype.go:208-235 | a parameter that another writer has split into numbered pieces (section 3 of RFC 2231), each plain, quoted or percent-encoded, and written in any order, is read back as the pieces before the first missing number, joined in order; and not at all without number 0 |
| `MediaTypePieces.PlainPieceWins` | src/mime/mediatype.go:212-217 | of two spellings of one piece the plain one counts |
| `MediaTypePieces.BadPieceIsEmpty` | src/mime/mediatype.go:218-230 | a piece that cannot be decoded counts as empty |
| `MediaTypePieces.BadValueIsDropped` | src/mime/mediatype.go:200-206 | an extended value that cannot be decoded is dropped, and a plain one of the same name stays |
| `MediaTypePieces.ExtendedWins` | src/mime/mediatype.go:196-235 | of a plain and an extended value of one parameter, in either order, the extended one is returned |
| `MediaTypePieces.QuotedItemsRead` | src/mime/mediatype.go:287-324 | every quoted string, with whatever mixture of bare and escaped bytes, is read as the characters it stands for up to its closing quote; it is none if a line or the input ends before that |
| `MediaTypePieces.SpacedRead` | src/mime/mediatype.go:326-352 | white space before and after the semicolon and the equals sign does not matter, nor does the case of the name |
| `MediaTypePieces.TypeTrimmed` | src/mime/mediatype.go:140-145 | nor does white space around the type |
| `MediaTypePieces.DispositionIsType` | src/mime/mediatype.go:104-123 | what is accepted before the first semicolon is a token, or two tokens with a slash between them |
| `MediaTypePieces.DuplicateRejected` | src/mime/mediatype.go:189-192 | a parameter given twice in the same form is an error, and then neither type nor parameters are returned |
| `MediaTypePieces.InvalidRejected` | src/mime/mediatype.go:165-178 | a parameter without a name or an equals sign is an error, and the type is returned with it |
| `MediaTypePieces.WrittenLawfully` | src/mime/mediatype.go:43-100 | a value is written in printable ASCII, a token just as it is, and in encoded form only if some byte of it is not printable |
| `MediaTypePieces.WrittenIff` | src/mime/mediatype.go:20-50 | something is written if and only if the type and all names are lawful |
| `MediaTypeLoops.HasUnprintable` | src/mime/encodedword.go:42-49 | whether a value needs encoding: some byte is neither printable ASCII nor a tab |
| `MediaTypeLoops.FormatMediaType` | src/mime/mediatype.go:20-102 | the formatting loops write the specified string, or nothing for a type or name that is no token |
| `MediaTypeLoops.ParseMediaType` | src/mime/mediatype.go:140-238 | the parser computes the specified type, parameters and error |
| `MediaTypeLoops.ReadParams` | src/mime/mediatype.go:159-194 | the parameter loop, with its errors for duplicate and malformed parameters |
| `MediaTypeLoops.Stitch` | src/mime/mediatype.go:196-235 | the loop over the names with pieces merges them in any order of the names |
| `MediaTypeLoops.ReadValue` | src/mime/mediatype.go:287-324 | the loop over a token or quoted value |
| `MediaTypeLoops.WriteParam` | src/mime/mediatype.go:43-100 | one parameter, in the form its value needs |
| `MediaTypeLoops.WritePercentEncoded` | src/mime/mediatype.go:62-79 | runs of plain bytes and escapes, by offsets |
| `MediaTypeLoops.WriteQuoted` | src/mime/mediatype.go:88-99 | a quoted string, by offsets |
| `MediaTypeLoops.PercentHexUnescape` | src/mime/mediatype.go:354-391 | counts the escapes first, then fills a buffer of exactly the right size; the same inputs are rejected |
| `EncodedWord.RoundTrip` | src/mime/encodedword.go:35-40 | for every byte string that needs encoding and charset UTF-8, DecodeHeader of the encoded form returns it |
| `EncodedWord.WordsLawful` | src/mime/encodedword.go:114-141 | every encoded-word has at most 75 bytes, and no character is split between two (sections 2 and 5 of RFC 2047) |
| `EncodedWord.WordsFit` | src/mime/encodedword.go:114-141 | the length bound, word by word |
| `EncodedWord.WordsFull` | src/mime/encodedword.go:121-140 | a word ends only where the next character would not fit |
| `EncodedWord.CharactersWhole` | src/mime/encodedword.go:114-141 | the characters of the words are those of the string |
| `EncodedWord.ChunksFlatten` | src/mime/encodedword.go:114-141 | the words carry exactly the bytes of the string |
| `EncodedWord.QRoundTrip` | src/mime/encodedword.go:372-398 | Q decoding undoes Q encoding for every byte string |
| `EncodedWord.WordFound` | src/mime/encodedword.go:253-283 | a word that was written is found with its charset, encoding and text, also after a space |
| `EncodedWord.WordsDecoded` | src/mime/encodedword.go:240-312 | a sequence of words separated by spaces decodes to the concatenation of their texts |
| `EncodedHeader.HeaderDecoded` | src/mime/encodedword.go:240-312 | a header of text and encoded-words, in any charset and encoding, decodes to the text and the content of the words in order, without the white space between two words; it fails if and only if some charset cannot be read |
| `EncodedHeader.CharsetMeaning` | src/mime/encodedword.go:325-354 | the known charsets, in any case: UTF-8 stays, Latin-1 gives the character with the number of each byte, US-ASCII the error character for other bytes; any other charset is asked of the reader |
| `EncodedHeader.Latin1Runes` | src/mime/encodedword.go:329-332 | the characters of Latin-1 content are its bytes |
| `EncodedHeader.EncodingMeaning` | src/mime/encodedword.go:314-323 | the letters that name the two encodings, in either case, and no other |
| `EncodedHeader.OtherCharset` | src/mime/encodedword.go:114-119 | text in a charset other than UTF-8 is written as one word, and decodes to what its charset makes of it |
| `EncodedHeader.QSpelled` | src/mime/encodedword.go:372-398 | Q decoding of any spelling: bare bytes, underscores and hexadecimal of either case give their bytes, and anything that cannot be read makes it fail |
| `EncodedWord.PlainText` | src/mime/encodedword.go:35-40 | text that needs no encoding survives if nothing in it can be decoded as an encoded-word; and only then, for a decoder without a charset reader of its own |
| `EncodedWord.PlainTextDecoded` | src/mime/encodedword.go:35-40 | an encoded-word, taken as text, is not encoded again, and decoding changes it |
| `EncodedWordLoops.Encode` | src/mime/encodedword.go:35-40 | the encoder writes the specified words, or the text itself |
| `EncodedWordLoops.QEncode` | src/mime/encodedword.go:114-141 | the loop that splits words by a running length |
| `EncodedWordLoops.BodyIsWords` | src/mime/encodedword.go:114-141 | the running length splits at the places where the next character would not fit |
| `EncodedWordLoops.WriteQString` | src/mime/encodedword.go:144-157 | the bytes of a string in Q encoding |
| `EncodedWordLoops.QDecode` | src/mime/encodedword.go:372-398 | the decoding loop, with its error for malformed escapes and bytes |
| `EncodedWordLoops.DecodeHeader` | src/mime/encodedword.go:240-312 | the loop that finds, decodes and joins words, dropping the white space between adjacent ones |

## Left out

- FMA: operands that are zero, infinite or NaN take the hardware path `x*y + z`, of which only the choice is modelled; NaN payloads are not.
- The assembly versions of the math functions, the transcendental functions, `trig_reduce.go` and `floor.go`.
- Mod: which NaN the hardware produces is not modelled.
- Hystrix: the metrics behind the health of a circuit are an arbitrary answer, event publication is one step, and the event stream, the settings and the map of circuits are not part of the model; nor are `Go`, `Do` and `DoC`, which wrap `GoC`. The error of `GetCircuit` is not modelled. An event stands for its cause: a function that itself returns one of this package's errors is a failure here, where the source names the event after the error.
- HystrixPool.Progress: assumes that the function and the fallback of the caller return; while one of them runs, the command waits for it.
- HystrixCommand.CommandCanStep: assumes the same of the function and the fallback.
- HystrixCircuit: what the metrics judge is an arbitrary answer at each request.
- RateLimiter: float rounding and truncation to nanoseconds are not modelled; the bounds over histories assume that time does not go backwards; a limit of zero, which divides by zero, is excluded. `Wait` and the reservation's `Delay` are left out.
- ContextTree: parents are contexts of this package; the goroutine that watches a parent of another type, `WithValue` and stopping a timer are left out. A timer that fires is a call of cancel.
- NetDial: the dialing of one address list is one step with an arbitrary outcome, and without fallback addresses there is nothing but that step; `dialSerial`, deadlines and the resolver are left out.
- BufioReader: a source that returns this package's own errors is excluded by its type; the slices that are returned are values, so their aliasing of the buffer is not modelled. `Discard`, `ReadRune`, `UnreadRune`, `WriteTo` and the `Writer` are left out.
- BufioReader.Reader.constructor: always makes a new reader; the reuse of one whose buffer is large enough is not modelled.
- BufioScanner: a token is a value, so its aliasing of the buffer is not modelled. What `ScanRunes` does with no data before the end is excluded, as `Scan` never asks it.
- FmtReadRune: the four-byte scratch buffer is a local sequence; the scanning verbs on top of it are left out.
- FmtReadRune.RuneReader.ReadRune: the reader below it ends with one error and delivers nothing after it.
- BytesIndex: the assembly versions for short strings are modelled by their result. `Split`, `Join`, `Replace` and `Count` are left out.
- HtmlEscape: the entity tables are a parameter, with the requirements that no replacement is longer than its name and, for the round trip, that the names written by `EscapeString` are in it.
- AddrSelect: the stable sort that uses the order and the lookup of source addresses are left out.
- MediaType: names are sorted in the source before they are written; the model writes them in any order, and reads them back from any. `strings.ToLower` beyond ASCII is a parameter of the parser; in the name of a charset only ASCII letters are folded.
- EncodedWord: base64 words decode to an arbitrary result, and a charset reader is an arbitrary function; names of charsets are compared ignoring the case of ASCII letters only; encoding with B and the decoding of a single word by `Decode` are left out, and Q encoding with a charset other than UTF-8 is left out of the bounds.
- `expvar`, `fmt/format.go`, `dnsclient.go` and the rest of the repository are not modelled.
