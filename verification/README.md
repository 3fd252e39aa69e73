# Verified models of a C++ utility library

Dafny models of the five places in the repository where correctness is hardest to see by reading: the CRC
engines, rational arithmetic and the tokenizers of the vendored Boost headers, the event-loop worker with its
pool, and the keyed try-lock. `dafny verify dfyconfig.toml` checks everything.

**CRC** (`Words`, `Polynomials`, `CrcSpec`, `CrcEngines`, `CrcAugmented`). Words are bit sequences of any
length, so width, polynomial, initial remainder, final xor and both reflections stay parameters; `digits` is
the size of the integer type that holds a register, at least the width and at least a byte. `CrcSpec.Steps`, one
division step per message bit, is the reference. It is the remainder of a polynomial division over GF(2), which
gives linearity, the exact collision condition and burst detection. `CrcBasic` computes it bit by bit with junk
above the register, `CrcOptimal` byte by byte from a table, in a plain or a mirrored register, for widths below
a byte as well. `EnginesAgree` runs both. `CrcAugmented` does the same for the augmented-message variant.

**Rational arithmetic** (`NumberTheory`, `RationalLemmas`, `IntTypes`, `Rationals`). `Rational` is generic in the
integer type, as in the source: it is written against the operations of `IntTypes.IntType` and can compute in no other
way, and each operation needs its result to fit a bound. A fraction's value is a `real`. Division and remainder truncate
as in C++. Every operation is exact and keeps the normal form; those written to avoid overflow do so under every bound
that holds the operands and the result, and the comparison under every bound that holds the operands, so they compute
nothing larger. The order by continued fractions is the order of the values.

**Worker and pool** (`Worker`, `WorkerTheorems`, `WorkerPurges`, `WorkerProgress`, `GeneralWorker`, `ThreadPool`). `Worker` is a
transition system: any number of threads in `addTask`, `addTimerTask`, `purgeTimerTask` and `stop`, one consumer,
and one step for each lock section, eventfd access, access to the stop flag and callback. The theorems hold over
every run. `GeneralWorker.EventWorker` is the object of the source; each of its methods is proved to be a run of
those steps. The eventfd is a counter, timers fire at any moment while they are in the table, tasks are opaque
(what a task calls appears as the steps of some thread), and a requested loop exit can come at any later moment
between callbacks. The pool sees of each worker what `ThreadPool.SlotOf` keeps of its transition system.

**Tokenizers** (`CharSeparators`, `EscapedLists`, `TokenIterators`). The separators are objects that are called
again and again, one token a call; `TokenIterator` drives them. Their references read the text once, one
character at a time, and know neither calls nor flags: `Fields` and `Parse`.

**Keyed try-lock** (`MemLock`, `MemLockRuns`, `MemLockRaces`). The class, run alone, and a transition system in
which any number of clients interleave single insertions and erasures; `MemLockRaces` asks who can win.

## What the proofs found

- A purge can be lost: it is so, in every run, exactly when it is pushed between the two swaps of a pass whose first
  swap came before the timer was issued (`WorkerPurges.PurgeExactly`). `WorkerTheorems.PurgeCanBeLost` is such a run,
  at whose end the purged timer is still active.
- Two clients that lock overlapping batches at the same time can both be refused, although nothing was locked, exactly
  when the first key of the one that the other wants too is not the first key of the other that the one wants too
  (`MemLockRaces.BothRefusedExactly`). If all clients take their keys in a common order, then among any number of them
  there is at every moment one that has not been refused (`OrderedClientsHaveAWinner`).
- `char_separator::reset` does not clear the flag for finished output. A separator that is used again with the
  flag set loses the empty first field of a text that begins with a delimiter, and of no other
  (`CharSeparators.FirstFieldLost`).
- Some calls do not advance, and `token_iterator` compares positions, not tokens: with `keep_empty_tokens`, iterators
  behind a kept delimiter and at the empty token after it compare equal although they show different tokens
  (`TokenIterators.TokenIterator.Increment`, `CharSeparators.SamePlaceOtherToken`). The same happens at the end of a
  list that ends in a delimiter (`EscapedLists.SamePlaceOtherToken`).
- An escaped list is not restored exactly when it is a lone unquoted empty field, or when the letter `n` is itself
  a special character and has to be escaped, since `\n` is read as a newline (`EscapedLists.RoundTrip`).
- After a failed start the pool keeps the requested number of threads although it can hold fewer workers
  (`ThreadPool.GeneralThreadPool.Start`); pool-wide timer ids find their worker only up to 2^16 workers
  (`ThreadPool.IdFindsItsWorker`).
- The comment that proves `+=` in `rational.hpp` assumes gcd(b, c) = 1 where it means gcd(c, d) = 1; the proof
  here follows the code.

## Model

| member | source | states |
|---|---|---|
| CrcEngines.Reflect | thirdpart/boost/include/boost/crc.hpp:306-326 | the loop mirrors the low bits of a word and clears the rest |
| Words.ReflectedTwice | thirdpart/boost/include/boost/crc.hpp:306-326 | reflection is its own inverse on the low bits |
| CrcSpec.StepsXor | thirdpart/boost/include/boost/crc.hpp:730-751 | the register update is linear: registers and equal-length messages superpose under xor |
| CrcSpec.ChecksumAffine | thirdpart/boost/include/boost/crc.hpp:814-823 | for any parameters the checksum of a xor b xor c is the xor of the three checksums |
| CrcSpec.RegisterIsRemainder | thirdpart/boost/include/boost/crc.hpp:730-751 | after any bit string of length n the register is (init x^n + message x^W) mod (x^W + poly) over GF(2) |
| CrcSpec.RemainderIsRegister | thirdpart/boost/include/boost/crc.hpp:730-751 | a word is that remainder if and only if it is the register |
| Polynomials.RemainderUnique | thirdpart/boost/include/boost/crc.hpp:743-750 | a division over GF(2) has at most one remainder |
| CrcSpec.StepsAtOnce | thirdpart/boost/include/boost/crc.hpp:954-965 | any number of bits can be absorbed at once: shift, and add the division of the bits that come out xor the bits that go in |
| CrcSpec.ByteBitsAt | thirdpart/boost/include/boost/crc.hpp:779-781 | the j-th bit absorbed of a byte is its bit j when the input is reflected, and its bit 7 - j when not |
| CrcSpec.MessageBitAt | thirdpart/boost/include/boost/crc.hpp:792-796 | bit 8k + j of a message is the j-th bit absorbed of byte k |
| CrcSpec.FinishAt | thirdpart/boost/include/boost/crc.hpp:821-822 | each bit of a checksum is the register's, mirrored if asked for, xor the final value's |
| CrcSpec.ChecksumByBits | thirdpart/boost/include/boost/crc.hpp:784-823 | a checksum from the bytes to its bits: the remainder of the division of the message's bits, mirrored if asked for, xor the final value |
| CrcSpec.ReflectedInput | thirdpart/boost/include/boost/crc.hpp:779-781 | reflecting the input gives the checksum of the bytes mirrored beforehand |
| CrcSpec.ReflectedOutput | thirdpart/boost/include/boost/crc.hpp:821-822 | reflecting the remainder mirrors the checksum underneath the final value |
| CrcSpec.CollisionIffDivisible | thirdpart/boost/include/boost/crc.hpp:814-823 | equal-length messages have equal checksums if and only if the generator divides their difference |
| CrcSpec.BurstDetected | thirdpart/boost/include/boost/crc.hpp:814-823 | with an odd polynomial, messages that differ only within a window of Bits bits have different checksums |
| CrcEngines.CrcBasic.constructor | thirdpart/boost/include/boost/crc.hpp:630-644 | takes the parameters, and the register starts as the initial remainder |
| CrcEngines.CrcBasic.ResetTo | thirdpart/boost/include/boost/crc.hpp:706-715 | the register is the low bits of the given word |
| CrcEngines.CrcBasic.Reset | thirdpart/boost/include/boost/crc.hpp:717-725 | the register is the initial remainder again |
| CrcEngines.CrcBasic.GetInterimRemainder | thirdpart/boost/include/boost/crc.hpp:696-704 | shows the register without the junk above it |
| CrcEngines.BitUpdate | thirdpart/boost/include/boost/crc.hpp:735-750 | on a word with junk above the register, the masked xor, shift and division are one division step on the low bits |
| CrcEngines.CrcBasic.ProcessBit | thirdpart/boost/include/boost/crc.hpp:730-751 | absorbs one bit, whatever lies above the register |
| CrcEngines.CrcBasic.ProcessBits | thirdpart/boost/include/boost/crc.hpp:753-770 | absorbs exactly the low bit_count bits, highest first |
| CrcEngines.CrcBasic.ProcessByte | thirdpart/boost/include/boost/crc.hpp:772-782 | absorbs the eight bits of a byte, in the order the input reflection asks for |
| CrcEngines.CrcBasic.ProcessBlock | thirdpart/boost/include/boost/crc.hpp:784-797 | absorbs the bits of all bytes in turn |
| CrcEngines.CrcBasic.Checksum | thirdpart/boost/include/boost/crc.hpp:814-823 | bit by bit: the register's bits, in reverse if the remainder is reflected, xor the final value's, and nothing above Bits bits |
| CrcEngines.IndexBits | thirdpart/boost/include/boost/crc.hpp:576-592 | in both layouts and for widths below a byte, the table index is the message byte xor the bits about to be shifted out |
| CrcEngines.TableStep | thirdpart/boost/include/boost/crc.hpp:962-964 | one lookup, shift and xor are eight division steps, in both layouts |
| CrcEngines.CrcTable.Divide | thirdpart/boost/include/boost/crc.hpp:507-528 | the inner loop divides one byte, highest bit first |
| CrcEngines.CrcTable.SlotsDiffer | thirdpart/boost/include/boost/crc.hpp:530-531 | reflection sends different dividends to different slots |
| CrcEngines.CrcTable.FillSlot | thirdpart/boost/include/boost/crc.hpp:505-532 | one more slot holds the division of its index, and the earlier ones keep theirs |
| CrcEngines.CrcTable.AllSlotsDone | thirdpart/boost/include/boost/crc.hpp:503-533 | the 256 dividends reach all 256 slots |
| CrcEngines.CrcTable.InitTable | thirdpart/boost/include/boost/crc.hpp:488-536 | afterwards every slot holds the eight-step division of its index, on the first call and on later ones |
| CrcEngines.CrcOptimal.constructor | thirdpart/boost/include/boost/crc.hpp:832-843 | fills the table; the register stands for the given remainder, by default the initial one, in either layout |
| CrcEngines.CrcOptimal.Reset | thirdpart/boost/include/boost/crc.hpp:918-929 | the register stands for the given remainder |
| CrcEngines.CrcOptimal.GetInterimRemainder | thirdpart/boost/include/boost/crc.hpp:905-916 | shows the register un-reflected and without junk |
| CrcEngines.CrcOptimal.ProcessByte | thirdpart/boost/include/boost/crc.hpp:931-942 | absorbs one byte |
| CrcEngines.CrcOptimal.ProcessBlock | thirdpart/boost/include/boost/crc.hpp:944-966 | moves the register exactly as absorbing the bits of all bytes one by one does |
| CrcEngines.CrcOptimal.Checksum | thirdpart/boost/include/boost/crc.hpp:984-995 | bit by bit: the register's bits, in reverse if the remainder is reflected, xor the final value's, and nothing above Bits bits |
| CrcEngines.Crc | thirdpart/boost/include/boost/crc.hpp:1025-1040 | the checksum of a buffer by the reference |
| CrcEngines.EnginesAgree | thirdpart/boost/include/boost/crc.hpp:944-995 | for every width, parameters, reflections and bytes the two engines show the same checksum and the same interim remainder |
| CrcAugmented.AugRegisterIsRemainder | thirdpart/boost/include/boost/crc.hpp:1059-1073 | the augmented register is (init x^n + message) mod (x^W + poly) |
| CrcAugmented.AugTableStep | thirdpart/boost/include/boost/crc.hpp:1069-1072 | one round of the loop shifts in eight message bits |
| CrcAugmented.AugmentedFromRemainder | thirdpart/boost/include/boost/crc.hpp:1046-1076 | from any remainder, a message followed by Bits zeros gives the plain CRC begun at that remainder moved on by Bits zeros |
| CrcAugmented.AugmentedIsPlainCrc | thirdpart/boost/include/boost/crc.hpp:1046-1076 | from zero, a message followed by Bits/8 zero bytes gives its unreflected CRC |
| CrcAugmented.MessageWithCrcIsZero | thirdpart/boost/include/boost/crc.hpp:1046-1076 | a message followed by the big-endian bytes of a word gives zero if and only if the word is its CRC |
| CrcAugmented.InitialRemainderIsPrefix | thirdpart/boost/include/boost/crc.hpp:1046-1059 | starting from a remainder is starting from zero with its bytes in front |
| CrcAugmented.AugmentedCrc | thirdpart/boost/include/boost/crc.hpp:1045-1076 | the table-driven loop computes the augmented checksum, bit by bit as defined |
| RationalLemmas.NormalFormUnique | thirdpart/boost/include/boost/rational.hpp:396-399 | normal fractions are equal in value if and only if they are equal in both components |
| IntTypes.IntegersCompute | thirdpart/boost/include/boost/rational.hpp:137-151 | the unbounded integers are such an integer type, under every bound |
| IntTypes.WordsCompute | thirdpart/boost/include/boost/rational.hpp:137-151 | so is a 32-bit word whose operations exist only where the result is in range |
| Rationals.Rational.constructor | thirdpart/boost/include/boost/rational.hpp:154-154 | zero, in normal form |
| Rationals.Rational.FromInt | thirdpart/boost/include/boost/rational.hpp:155-158 | an integer, in normal form |
| Rationals.Rational.Normalize | thirdpart/boost/include/boost/rational.hpp:838-873 | fails exactly on a zero denominator; otherwise the value is kept and the form is normal |
| Rationals.Rational.Assign | thirdpart/boost/include/boost/rational.hpp:187-194 | assigns the quotient, or fails and changes nothing |
| RationalLemmas.SumIsNormal | thirdpart/boost/include/boost/rational.hpp:495-508 | dividing only by the gcd of numerator and g leaves the sum in normal form |
| RationalLemmas.DifferenceIsNormal | thirdpart/boost/include/boost/rational.hpp:531-538 | the same for the difference |
| Rationals.Rational.AddAssign | thirdpart/boost/include/boost/rational.hpp:489-522 | exactly the sum, in normal form, also of an object with itself |
| Rationals.Rational.SubtractAssign | thirdpart/boost/include/boost/rational.hpp:524-541 | exactly the difference, in normal form |
| RationalLemmas.CrossCancelled | thirdpart/boost/include/boost/rational.hpp:550-554 | cross-cancelling leaves nothing in common and keeps the value, with either sign of a denominator |
| Rationals.Rational.MultiplyAssign | thirdpart/boost/include/boost/rational.hpp:543-556 | exactly the product, in normal form, under every bound that holds the operands and the result |
| Rationals.Rational.DivideAssign | thirdpart/boost/include/boost/rational.hpp:558-585 | fails exactly on a zero divisor and then changes nothing; otherwise exactly the quotient, in normal form, under every bound that holds the operands and the result |
| Rationals.Rational.AddAssignInt | thirdpart/boost/include/boost/rational.hpp:266-271 | exactly the sum, in normal form without any gcd |
| Rationals.Rational.SubtractAssignInt | thirdpart/boost/include/boost/rational.hpp:272-277 | exactly the difference, in normal form without any gcd |
| Rationals.Rational.MultiplyAssignInt | thirdpart/boost/include/boost/rational.hpp:278-286 | exactly the product, in normal form, under every bound that holds the operands and the result |
| Rationals.Rational.DivideAssignInt | thirdpart/boost/include/boost/rational.hpp:287-307 | fails exactly on zero; otherwise exactly the quotient, in normal form, under every bound that holds the operands and the result |
| Rationals.Rational.Equals | thirdpart/boost/include/boost/rational.hpp:823-828 | comparing components decides equality of values |
| Rationals.Rational.EqualsInt | thirdpart/boost/include/boost/rational.hpp:374-378 | decides equality with an integer |
| RationalLemmas.WholePartsDecide | thirdpart/boost/include/boost/rational.hpp:772-781 | different floors decide the order |
| RationalLemmas.EqualWholeParts | thirdpart/boost/include/boost/rational.hpp:783-795 | equal floors leave the cross-multiplied difference to the remainders |
| Rationals.EndedExpansion | thirdpart/boost/include/boost/rational.hpp:798-816 | how an expansion that has ended compares with one that has not |
| Rationals.Rational.Expand | thirdpart/boost/include/boost/rational.hpp:754-767 | truncated division and the fix-up of a negative remainder give floor and non-negative remainder |
| Rationals.Rational.NextTerm | thirdpart/boost/include/boost/rational.hpp:792-795 | the next term has a strictly smaller denominator |
| Rationals.Rational.Less | thirdpart/boost/include/boost/rational.hpp:738-821 | true if and only if n1 d2 < n2 d1, under every bound that holds the components of the operands, so that nothing larger is computed; the loop ends |
| Rationals.Rational.LessInt | thirdpart/boost/include/boost/rational.hpp:352-368 | decides the order against an integer by the floor |
| RationalLemmas.InnerGcdIsGcd | thirdpart/boost/include/boost/rational.hpp:386-394 | Euclid on truncated remainders gives the gcd up to sign |
| RationalLemmas.NormalityTestsAgree | thirdpart/boost/include/boost/rational.hpp:403-409 | is_normalized agrees with test_invariant and with the definition of normal form, on every pair |
| NumberTheory.TruncatedDivision | thirdpart/boost/include/boost/rational.hpp:755-758 | what C++ division and remainder satisfy |
| NumberTheory.GcdUnique | thirdpart/boost/include/boost/rational.hpp:979-979 | the gcd is the only non-negative common divisor that every common divisor divides |
| NumberTheory.LcmLeast | thirdpart/boost/include/boost/rational.hpp:980-980 | the lcm divides every common multiple |
| NumberTheory.GcdTimesLcm | thirdpart/boost/include/boost/rational.hpp:979-980 | gcd times lcm is the magnitude of the product |
| RationalLemmas.DivisorComponents | thirdpart/boost/include/boost/rational.hpp:970-982 | one normal fraction is an integer multiple of another if and only if numerators and denominators divide crosswise |
| RationalLemmas.GreatestCommonRational | thirdpart/boost/include/boost/rational.hpp:970-982 | gcd over lcm is normal, divides both fractions, and every common divisor divides it |
| RationalLemmas.LeastCommonRational | thirdpart/boost/include/boost/rational.hpp:984-996 | lcm over gcd is normal, a multiple of both fractions, and divides every common multiple |
| RationalLemmas.GcdTimesLcmRational | thirdpart/boost/include/boost/rational.hpp:970-996 | gcd times lcm of two fractions is the magnitude of their product |
| Rationals.GcdEvaluator | thirdpart/boost/include/boost/rational.hpp:970-982 | the greatest common rational divisor, and the constructor's normalisation changes neither component |
| Rationals.LcmEvaluator | thirdpart/boost/include/boost/rational.hpp:984-996 | the least common rational multiple, and the constructor's normalisation changes neither component |
| Worker.StepKeepsInv | src/thread/GeneralWorker.cpp:58-145 | every step of every thread keeps the queues in order, every entry seen, the stop honoured and the timers tracked |
| Worker.RunKeepsInv | src/thread/GeneralWorker.cpp:58-145 | so does every run |
| WorkerTheorems.NoLostWakeup | src/thread/GeneralWorker.cpp:40-44 | in every reachable state each queued entry has its pusher before the eventfd write, or the eventfd is readable, or the consumer is before the swap of that queue |
| WorkerTheorems.QuiescentMeansDone | src/thread/GeneralWorker.cpp:80-145 | when calls have returned and the loop is idle, everything submitted has been carried out, in order |
| WorkerTheorems.StopIsNoticed | src/thread/GeneralWorker.cpp:58-65 | in the same situation a stop has led to the request that the loop end, and the loop can end |
| WorkerTheorems.ConsumerNeverStuck | src/thread/GeneralWorker.cpp:88-145 | inside a pass or callback, or with the eventfd readable, the consumer can go on |
| WorkerTheorems.TasksRunInOrder | src/thread/GeneralWorker.cpp:93-103 | executed tasks, the rest of the batch and the queue are together the submissions in lock order |
| WorkerTheorems.DrainedWhenExiting | src/thread/GeneralWorker.cpp:88-103 | behind the pass that requests the exit, everything submitted before the stop flag was stored has run |
| WorkerTheorems.DrainBeforeExit | src/thread/GeneralWorker.cpp:58-65 | the same over whole runs, from the store of the flag to any later point |
| WorkerTheorems.GoneExactly | src/thread/GeneralWorker.cpp:106-144 | over every run, an arrived timer has left the table if and only if a purge in time or the end of its only shot took it out |
| WorkerTheorems.TimerIsInOnePlace | src/thread/GeneralWorker.h:262-281 | before ids wrap, the i-th timer has id i and is in exactly one of queue, batch, table and gone; an arrived timer stays in the table until a purge in time or its only shot |
| WorkerTheorems.TableHoldsIssued | src/thread/GeneralWorker.cpp:129-130 | the table maps an id to the timer that was issued with it |
| WorkerTheorems.OneShotFiresOnce | src/thread/GeneralWorker.cpp:112-119 | a timer without interval fires at most once and is gone afterwards |
| WorkerTheorems.RemovedForGood | src/thread/GeneralWorker.cpp:166-172 | a removed timer never returns or fires, however the run goes on |
| WorkerPurges.PurgeExactly | src/thread/GeneralWorker.cpp:158-164 | for every run from the push of an issued id on: the purge misses its timer if and only if it was pushed between the two swaps of a pass that had swapped the timers before that one was issued; otherwise the timer is gone as soon as the purge has been carried out |
| WorkerPurges.StepKeepsFate | src/thread/GeneralWorker.cpp:105-144 | no step of any thread changes what the push has decided |
| WorkerTheorems.PurgeStepExactly | src/thread/GeneralWorker.cpp:141-143 | at the step that carries a purge out, its timer is gone afterwards if and only if the pass had swapped it in |
| WorkerTheorems.PurgesTakeEffect | src/thread/GeneralWorker.cpp:106-144 | and such a purge stays in effect |
| WorkerTheorems.PurgeCanBeLost | src/thread/GeneralWorker.cpp:106-144 | a reachable state at rest in which a purged repeating timer is still active |
| WorkerProgress.CarryingOnGetsCloser | src/thread/GeneralWorker.cpp:80-145 | every step but a new call or a firing decreases a well-founded measure |
| WorkerProgress.NextStep | src/thread/GeneralWorker.cpp:80-145 | away from rest there is such a step |
| WorkerProgress.SettlesDown | src/thread/GeneralWorker.cpp:80-145 | from every reachable state the worker comes to rest |
| GeneralWorker.EventWorker.AddTask | src/thread/GeneralWorker.h:165-186 | a push and an eventfd write, as steps of the transition system |
| GeneralWorker.EventWorker.AddTimerTask | src/thread/GeneralWorker.h:262-281 | issues the next id, pushes the timer and writes the eventfd |
| GeneralWorker.EventWorker.PurgeTimerTask | src/thread/GeneralWorker.cpp:158-164 | pushes the id and writes the eventfd |
| GeneralWorker.EventWorker.Stop | src/thread/GeneralWorker.cpp:58-65 | only the first call stores the flag and wakes the consumer |
| GeneralWorker.EventWorker.NotifyConsumer | src/thread/GeneralWorker.cpp:80-86 | adds one to the eventfd |
| GeneralWorker.EventWorker.OnReadable | src/thread/GeneralWorker.cpp:40-44 | reads the eventfd and makes one pass |
| GeneralWorker.EventWorker.OnNotify | src/thread/GeneralWorker.cpp:88-145 | one pass executes the queued tasks, enters the queued timers, then removes the purged ones, as a run of steps |
| GeneralWorker.EventWorker.ProcessTasks | src/thread/GeneralWorker.cpp:93-103 | swaps the queue of tasks and runs them |
| GeneralWorker.EventWorker.ProcessTimers | src/thread/GeneralWorker.cpp:105-132 | swaps the timer queue and enters each timer under its id |
| GeneralWorker.EventWorker.ProcessPurges | src/thread/GeneralWorker.cpp:134-144 | swaps the purge queue and removes each id |
| GeneralWorker.EventWorker.PurgeTimerInternal | src/thread/GeneralWorker.cpp:166-172 | removes the id and nothing else |
| GeneralWorker.EventWorker.OnTimer | src/thread/GeneralWorker.cpp:112-119 | fires the timer and removes it if it has no interval |
| ThreadPool.IdFindsItsWorker | src/thread/GeneralThreadPool.h:177-183 | a packed id gives back its id always, and its worker if and only if the worker's number has 16 bits |
| ThreadPool.FairShares | src/thread/GeneralThreadPool.h:135-136 | of k submissions each of n workers gets the floor of k/n, and one more if its turn comes in the incomplete round |
| ThreadPool.DealtFairly | src/thread/GeneralThreadPool.h:135-136 | of k tasks added in a row a worker is given the floor of k/n, and one more if its turn comes in the incomplete round |
| ThreadPool.GeneralThreadPool.AddTasks | src/thread/GeneralThreadPool.h:129-137 | adding tasks in a row gives each worker those whose turn it is, in order, and nothing else |
| ThreadPool.SlotAtStart | src/thread/GeneralWorker.h:152-153 | what the pool sees of a worker that has just been started is what its own start makes of it |
| ThreadPool.SlotAfterAddTask | src/thread/GeneralWorker.h:165-186 | a call of addTask adds one entry to what the pool sees of the worker |
| ThreadPool.SlotAfterAddTimer | src/thread/GeneralWorker.h:262-281 | a call of addTimerTask counts one id more there |
| ThreadPool.SlotAfterPurge | src/thread/GeneralWorker.cpp:158-164 | a call of purgeTimerTask adds the id there |
| ThreadPool.SlotAfterStop | src/thread/GeneralWorker.cpp:58-65 | a call of stop sets the flag there and changes nothing else |
| ThreadPool.GeneralThreadPool.Start | src/thread/GeneralThreadPool.cpp:12-31 | refuses a pool in use or no threads; starts workers up to the first failure; succeeds if and only if none fails |
| ThreadPool.GeneralThreadPool.Stop | src/thread/GeneralThreadPool.cpp:33-40 | although it goes no further than the first refusal, every worker is stopped |
| ThreadPool.GeneralThreadPool.Wait | src/thread/GeneralThreadPool.cpp:42-50 | although it goes no further than the first refusal, every thread is joined; the pool is empty again |
| ThreadPool.GeneralThreadPool.AddTask | src/thread/GeneralThreadPool.h:122-137 | what is submitted goes to the worker whose turn it is and to no other |
| ThreadPool.GeneralThreadPool.AddRepeatTask | src/thread/GeneralThreadPool.h:175-183 | the id is new in the whole pool |
| ThreadPool.GeneralThreadPool.PurgeTimerTask | src/thread/GeneralThreadPool.cpp:52-56 | the worker in the high bits is told the id in the low ones: for an id that was handed out, the worker that issued it and its own id |
| CharSeparators.CharSeparator.Next | thirdpart/boost/include/boost/token_functions.hpp:458-528 | one call, for single-pass and for forward iterators alike: the token, where the scan stops, and the flag |
| CharSeparators.CharSeparator.PassDropped | thirdpart/boost/include/boost/token_functions.hpp:469-472 | skips exactly the dropped delimiters in front |
| CharSeparators.CharSeparator.NextDropping | thirdpart/boost/include/boost/token_functions.hpp:476-491 | the branch without empty tokens |
| CharSeparators.CharSeparator.NextKeeping | thirdpart/boost/include/boost/token_functions.hpp:492-525 | the branch with empty tokens and its flag |
| CharSeparators.CharSeparator.AppendRun | thirdpart/boost/include/boost/token_functions.hpp:521-523 | takes the longest run without delimiters |
| CharSeparators.ScanMakesProgress | thirdpart/boost/include/boost/token_functions.hpp:458-528 | every successful call decreases twice the remaining length plus the flag |
| CharSeparators.CallsThatDoNotAdvance | thirdpart/boost/include/boost/token_functions.hpp:506-517 | exactly which calls leave the input where it is; they hand out an empty token and set the flag |
| CharSeparators.SamePlaceOtherToken | thirdpart/boost/include/boost/token_functions.hpp:506-517 | two tokens in a row are shown at the same place if and only if the first is a kept delimiter with another delimiter or the end behind it, and then they differ |
| CharSeparators.KindByMembership | thirdpart/boost/include/boost/token_functions.hpp:538-555 | what a character counts as, by membership in the two strings, and by the classifications where a string is empty |
| CharSeparators.SplitByStrings | thirdpart/boost/include/boost/token_functions.hpp:411-415 | with disjoint strings: no token holds a dropped character, a kept one is a token of its own, and the tokens in a row are the text without the dropped characters |
| CharSeparators.SplitByClasses | thirdpart/boost/include/boost/token_functions.hpp:448-454 | the same of the default separator, in terms of isspace and ispunct |
| CharSeparators.SplitStandsAlone | thirdpart/boost/include/boost/token_functions.hpp:411-415 | with any strings: a delimiter stands in no token longer than it |
| CharSeparators.FieldCount | thirdpart/boost/include/boost/token_functions.hpp:458-528 | D dropped and K kept delimiters give D + 2K + 1 fields |
| CharSeparators.FieldsSplitAtDelimiter | thirdpart/boost/include/boost/token_functions.hpp:411-415 | a delimiter splits the fields in two, and stands between them if it is kept |
| CharSeparators.FieldsOfRun | thirdpart/boost/include/boost/token_functions.hpp:411-415 | a text without delimiters is its own only field |
| CharSeparators.FieldsKeepTheText | thirdpart/boost/include/boost/token_functions.hpp:411-415 | the fields in a row are the text without the dropped delimiters |
| CharSeparators.FieldsAreEntries | thirdpart/boost/include/boost/token_functions.hpp:411-415 | each field is free of delimiters or one kept delimiter |
| CharSeparators.IterateKeepingIsFields | thirdpart/boost/include/boost/token_functions.hpp:492-525 | with empty tokens kept, the calls yield the fields, with the flag set in front of a delimiter all but the first |
| CharSeparators.FirstFieldLost | thirdpart/boost/include/boost/token_functions.hpp:456-456 | a flag left over from earlier use changes the tokens if and only if the text begins with a delimiter, and then drops the first |
| CharSeparators.IterateDroppingIsNonEmptyFields | thirdpart/boost/include/boost/token_functions.hpp:469-491 | with empty tokens dropped, the calls yield the non-empty fields, whatever the flag |
| CharSeparators.DroppingTokensAreEntries | thirdpart/boost/include/boost/token_functions.hpp:469-491 | none of them is empty, and each is a run or one kept delimiter |
| CharSeparators.PoliciesDifferInEmptyTokens | thirdpart/boost/include/boost/token_functions.hpp:458-528 | with disjoint sets the policies differ in the empty tokens and nothing else |
| EscapedLists.EscapedListSeparator.constructor | thirdpart/boost/include/boost/token_functions.hpp:151-157 | takes the three sets and clears the flag |
| EscapedLists.EscapedListSeparator.Reset | thirdpart/boost/include/boost/token_functions.hpp:159-159 | clears the flag |
| EscapedLists.EscapedListSeparator.DoEscape | thirdpart/boost/include/boost/token_functions.hpp:126-147 | appends what the sequence stands for, or says which of the two errors it is |
| EscapedLists.EscapedListSeparator.Next | thirdpart/boost/include/boost/token_functions.hpp:161-198 | one call: the token up to the next delimiter outside quotes, where it stops, the flag, or the error |
| EscapedLists.ScanMakesProgress | thirdpart/boost/include/boost/token_functions.hpp:161-198 | every successful call decreases twice the remaining length plus the flag |
| EscapedLists.CallsThatDoNotAdvance | thirdpart/boost/include/boost/token_functions.hpp:166-173 | the only call that does not advance hands out the empty field behind a last delimiter |
| EscapedLists.SamePlaceOtherToken | thirdpart/boost/include/boost/token_functions.hpp:166-188 | two tokens in a row are shown at the same place if and only if the first ends the text; they differ unless it is empty |
| EscapedLists.ScanFieldIsFirstField | thirdpart/boost/include/boost/token_functions.hpp:174-197 | one scan yields the first field of the parse and leaves the others, or fails as the parse does |
| EscapedLists.IterateIsParse | thirdpart/boost/include/boost/token_functions.hpp:161-198 | the calls yield the fields of the parse and fail as it fails; only nothing at all yields no field |
| EscapedLists.ParseFrom | thirdpart/boost/include/boost/token_functions.hpp:174-197 | from any point between characters, the parse fails if and only if a bad escape follows, and else finds one field more than separators and the text that the positions say |
| EscapedLists.TokenCount | thirdpart/boost/include/boost/token_functions.hpp:126-198 | on non-empty text: an error if and only if an unescaped escape character is the last, or is followed by a character that is no n and in none of the three strings, and which error; else one token more than delimiters outside quotes and escapes, and the tokens say what the positions say |
| EscapedLists.ParseEncoded | thirdpart/boost/include/boost/token_functions.hpp:161-198 | parsing what was written, quoted or not, restores the fields, with an escaped n read as a newline |
| EscapedLists.RoundTrip | thirdpart/boost/include/boost/token_functions.hpp:80-87 | tokenising what was written restores the fields if and only if they are not a lone unquoted empty field and no n had to be escaped |
| TokenIterators.TokenIterator.Initialize | thirdpart/boost/include/boost/token_iterator.hpp:70-75 | whatever flag the function comes with, the tokens ahead are those of the whole range, none if it is empty |
| TokenIterators.TokenIterator.Equal | thirdpart/boost/include/boost/token_iterator.hpp:63-68 | two iterators at their end are equal, one at its end and one that shows a token are not, and two that show tokens are if position and end are |
| TokenIterators.EqualIsAnEquivalence | thirdpart/boost/include/boost/token_iterator.hpp:63-68 | comparing is reflexive, symmetric and transitive |
| TokenIterators.TokenIterator.End | thirdpart/boost/include/boost/token_iterator.hpp:77-77 | the iterator that loops compare with shows no token |
| TokenIterators.TokenIterator.Increment | thirdpart/boost/include/boost/token_iterator.hpp:53-56 | the tokens ahead lose their first, and the measure decreases; the iterator stays where it stood if and only if the call did not advance |
| TokenIterators.Collect | thirdpart/boost/include/boost/token_iterator.hpp:53-75 | the loop until the iterator equals the end iterator ends, and yields what the calls yield, or the exception |
| TokenIterators.SplitChars | thirdpart/boost/include/boost/token_iterator.hpp:53-75 | iterating a fresh character separator yields the fields, the empty ones if they are kept; and by membership in the two strings, where delimiters stand and that nothing else is missing |
| TokenIterators.SplitList | thirdpart/boost/include/boost/token_iterator.hpp:53-75 | iterating a fresh list separator yields the parse, and fails, counts and reads by the positions of the special characters |
| MemLock.MemLockCore.TryLock | src/lock/MemLockCore.h:25-27 | succeeds if and only if the key is free, and takes it |
| MemLock.MemLockCore.Unlock | src/lock/MemLockCore.h:29-31 | removes the key, if it is there |
| MemLock.MemLockCore.LockBatch | src/lock/MemLockCore.h:33-46 | succeeds if and only if the keys are distinct and free, adding exactly them; else the least index in conflict, and the map as before |
| MemLock.MemLockCore.UnlockBatch | src/lock/MemLockCore.h:53-58 | removes exactly the keys of the range |
| MemLock.EraseUndoesInsert | src/lock/MemLockCore.h:33-58 | unlocking a batch restores the map if and only if none of its keys was there before |
| MemLock.NoConflict | src/lock/MemLockCore.h:37-43 | no index is in conflict if and only if the keys are distinct and free |
| MemLockRuns.StepKeepsInv | src/lock/MemLockCore.h:33-58 | every insertion and erasure of every client keeps the map the disjoint union of what each has inserted and not erased |
| MemLockRuns.LocksAreExclusive | src/lock/MemLockCore.h:33-58 | over every run each key in the map has exactly one owner, and batches held at once are disjoint |
| MemLockRuns.StepSparesOthers | src/lock/MemLockCore.h:39-41 | no step of one client takes a key of another out of the map |
| MemLockRuns.ErasedWasOwned | src/lock/MemLockCore.h:54-58 | what a rollback or unlock erases, the same client had inserted |
| MemLockRuns.RefusalHasAReason | src/lock/MemLockCore.h:38-42 | a batch is refused at a key if and only if it repeats the key or another client has it |
| MemLockRuns.NoLeak | src/lock/MemLockCore.h:33-58 | when all clients are idle the map is empty |
| MemLockRuns.LockBatchAlone | src/lock/MemLockCore.h:33-46 | without interference the steps end as the method LockBatch does: with the whole batch, or refused at the least index in conflict and with the map as before |
| MemLockRaces.BothRefusedExactly | src/lock/MemLockCore.h:33-46 | on free keys, some interleaving refuses both of two batches if and only if they have keys in common and their first common keys differ |
| MemLockRaces.OthersHaveAWinner | src/lock/MemLockCore.h:33-46 | otherwise every interleaving leaves one of them not refused |
| MemLockRaces.BothCanBeRefused | src/lock/MemLockCore.h:33-46 | the batches 1, 2 and 2, 1 can both be refused |
| MemLockRaces.AscendingNotCrossed | src/lock/MemLockCore.h:33-46 | batches that ascend in a common order never meet different first common keys |
| MemLockRaces.OrderedClientsHaveAWinner | src/lock/MemLockCore.h:33-46 | with any number of clients whose batches ascend, on an empty map, at every moment of every run some client has not been refused, and it can go on or holds its batch |

## Left out

- libevent, the eventfd system calls, folly promises and futures, thread creation: modelled as described above or not at all.
- Memory order: the steps of a run are sequentially consistent, while the source uses acquire and release.
- The worker before a successful start, its restart after wait, and real time; the saturation of the eventfd counter.
- Wrap-around of timer ids after 2^48: the timer theorems assume that fewer were issued.
- Rationals.Rational.AddAssign: only for unbounded integers; in fixed width a sum of fractions can overflow.
- Rationals.Rational.SubtractAssign: only for unbounded integers, for the same reason.
- Rationals.Rational.AddAssignInt: only for unbounded integers, for the same reason.
- Rationals.Rational.SubtractAssignInt: only for unbounded integers, for the same reason.
- Rationals.Rational.Normalize: bounds are symmetric; the smallest value of two's complement, which has no negative, is not modelled.
- Rational stream operators and conversions that narrow.
- Preset CRC types such as `crc_32_type`: they are instances of the parameters. `augmented_crc` with fewer than 8 bits shifts by a negative amount in the source.
- TokenIterators.TokenIterator.Increment: says nothing about the iterator after an exception.
- MemLockRuns.StepKeepsInv: clients unlock only what they hold; `unlock` itself does not check that.
- ThreadPool.GeneralThreadPool.PurgeTimerTask: ids that name a worker the pool does not have, for which the source indexes past its workers.
- WorkerPurges.PurgeExactly: purges of ids that have not been issued yet.
- ThreadPool.GeneralThreadPool.Wait: states what holds on return, not how long the join takes.
- The pool is modelled on one thread at a time, with what it sees of its workers as values of which it is the only owner; how its calls interleave with the workers is not part of it.
- `MemLockCore::clear` and `size` name a member that does not exist; `MemLockWrapper.h`, `src/status`, `src/task_dispatch`, `src/webservice`, `src/fs`, `src/process` and `src/istream_line_reader` are not part of this model.
- `offset_separator` and the deprecated `char_delimiters_separator`, and all other Boost headers.
