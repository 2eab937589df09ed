# Verified models of freego

This project models the parts of freego whose correctness rests on an argument rather than on inspection, and
proves the argument. Run `dafny verify dfyconfig.toml` in this directory to check all of it.

| area | modules | what is modelled |
|---|---|---|
| floats to decimals | `Powers`, `Digits`, `DecimalSpec`, `LeftCheats`, `ShiftDigits`, `DecimalBuffer`, `DecimalValue`, `ShortestDigits`, `NearestDigits`, `FloatBounds`, `AlreadyShortest`, `Rounding`, `NearestMissed`, `NearestFloat`, `FloatDecimal` | the 800-digit buffer shifted and rounded in place, the table that predicts how a shift grows it, the search for the shortest digits, and the conversion built on them |
| fixed-point numbers | `FixedDecimal`, `FixedRounding`, `DivisionOverflow`, `DivisionNearest`, `DecimalText`, `Strconv` | comparison, sums, quotient and remainder, three roundings, printing and reading |
| cron | `Calendar`, `CronMask`, `CronNext`, `CronField`, `CronSpec`, `CronParse`, `CronScheduler` | the search for the next activation, the field compiler, filling in fields, the parser that joins them, and the scheduler loop |
| gRPC pool | `ConnPool`, `PoolAlone` | Get and Close of any number of threads, step by step, and what one of them does when it is alone |
| rate limiters | `RateLimiter`, `LimiterExact`, `LuaBucket` | the in-process token bucket and the one the Redis script keeps |
| Redis lock | `LeaseLock` | clients, the server's atomic commands, lost commands and replies, publish and retry |
| queries | `Conditions`, `SqlWhere`, `SqlMeaning`, `SqlText`, `SqlParse`, `SqlQuery`, `QueryTruth`, `DroppedDates`, `MongoMatch`, `MongoReplaces`, `FastPage`, `FastPageRows` | one condition tree written as SQL text and as a Mongo document, and cursor pagination |
| IDs | `Snowflake`, `Base58`, `Sequences` | packing, the generator with its waits, and the base-58 text |

Conventions. Values of decimals are reals, `RPow(10, e)` being ten to any integer power; `Amount`, `Value` and
`FloatValue` are the numbers that representations stand for. `Times`, `Mul`, `Quotient`, `Shr` and `Low` are the ordinary
operations behind a name. Machine words are subset types (`Word`, `Uint`, `Int64`, `Int32`), so that every assignment
to one is proved not to overflow, except where the source wraps around: there `Wrap32` and `Wrap64` say so. A 64-bit mask is the
set of its one bits. Protocols (the pool, the lock) are state machines over their atomic steps; a run is any sequence
of steps of any thread or client. Clock readings, the order a sort chooses among equals, and which pooled connection is
picked are inputs of the model, so every claim holds whatever they are.

What the proofs found in the code, each with the exact condition and an input:

- `roundShortest` gives a shortest decimal, but not always the nearest of that length: once the upper bound has parted
  from the digits and run out of them, its zeros forbid rounding up although there is room. `RoundShortest` states
  exactly when, and `NotTheNearest` does it for 69999999999999995805696, where 69999999999999996e6 is nearer than
  the 69999999999999995e6 that is found.
- `QuoRem` tests for exponent overflow after the 32-bit subtraction has already wrapped around, so the panic never
  happens; `QuoRemExactlyWhen` says for all inputs which divisions go wrong instead, `QuotientLost` and
  `RemainderLost` give one of each kind. `DivRoundExactlyWhen` does the same for the rounded quotient, where also the
  exponent of the doubled remainder can wrap around (`HalfLost`).
- `Round` keeps the right value for the least possible `places` but gives it the wrong exponent, because negating the
  least int32 wraps around (`Round`, `LeastPlacesWrong`); `RoundBank` then also takes the rounded number for a far
  smaller one, and rounds to even exactly if `StillEven`.
- `NewFromString` strips the zeros of a fraction before it looks for digits, so `.0` is rejected although `.5` is
  accepted (`DecimalText.RejectedExactly`, `PointZero`); a sign after the point is accepted (`AcceptedOnly`,
  `SignAfterPoint`).
- `InDate` leaves no trace in SQL text on any level: the clause means the conditions with the dates erased
  (`ClauseMeansErased`, `DateIgnored`). An empty alternative of an `Or` makes the text builder slice below zero
  (`WhereMeansConditions`, `EmptyAlternativePanics`).
- In a Mongo document only the last condition under a name and the last `Or` count (`FieldsAccept`, `FirstBoundLost`,
  `FirstOrLost`), and not-equal and not-in accept rows with a null that SQL does not accept (`TestAgreesExactly`). An
  empty alternative, or an `Or` without any, makes the query fail (`TakenExactly`).
- A cron text that begins with a time zone and has no space crashes the parser (`CronParse.Parse`).
- A Get that fails keeps its reference, after which the pool never shrinks again (`RefCounts`,
  `FailureStopsShrinking`, `ReferenceLeft`).
- A spinning client hears of a release exactly if it is subscribed at that moment and the release is announced, which
  takes a holder that spun itself, a script that was executed and a lease still live (`InboxExactly`,
  `WaitsInVainExactly`). It waits in vain after a release before its subscription, after one by a holder that did not
  spin, and after an expiry (`WakeUpCanBeMissed`, `PlainHolderIsSilent`, `ExpiryIsSilent`).
- A reservation of a negative number of tokens can leave more than the burst: exactly if it gives back more than there
  is room for and the caller would wait (`ApplyKeeps`, `FirstAbove`, `NegativeRequest`).
- The lease counts from the moment the server grants it, so that a client whose reply is late can enter its call without
  holding the lock any more (`EntersTooLate`).
- The base-58 reader takes characters from `:` on that are outside the alphabet for zeros (`Base58.RejectedExactly`,
  `ColonPasses`).

## Model

| member | source | states |
|---|---|---|
| LeftCheats.RowIsRight | utils/decimal/decimal-go.go:177-252 | For every shift up to 60 the table's cutoff text is 5 to that power and its delta is the shift less the cutoff's digits plus one; these are the facts the prediction needs. |
| ShiftDigits.PredictedLength | utils/decimal/decimal-go.go:162-170 | Comparing the digits with 5^k as a prefix predicts exactly how many digits the product with 2^k has, for every digit string. |
| ShiftDigits.CarryBound | utils/decimal/decimal-go.go:278-290 | For shifts up to 60 no carry of a left shift, with the next digit added, reaches 2^64. |
| DecimalBuffer.PrefixIsLessThan | utils/decimal/decimal-go.go:255-265 | The character loop decides which of two digit strings, read as fractions, is smaller, a proper prefix counting as smaller. |
| DecimalBuffer.Decimal.Trim | utils/decimal/decimal-go.go:70-77 | Exactly the zeros at the end go, and zero gets the point at the front. |
| DecimalBuffer.Decimal.Assign | utils/decimal/decimal-go.go:80-101 | The buffer then holds the digits of the word, without zeros at the end. |
| DecimalBuffer.Decimal.CarryThrough | utils/decimal/decimal-go.go:277-290 | Working backwards in the same array, every digit is read before it is overwritten, and carry and written digits together are the product with 2^k. |
| DecimalBuffer.Decimal.DrainCarry | utils/decimal/decimal-go.go:292-303 | The carry runs out exactly when position 0 has been written, and trunc is set exactly if a digit other than zero did not fit. |
| DecimalBuffer.Decimal.PredictDelta | utils/decimal/decimal-go.go:269-272 | The table's answer is the number of digits the product has in excess. |
| DecimalBuffer.Decimal.LeftShift | utils/decimal/decimal-go.go:268-311 | In place: the digits of the product with 2^k, as many as fit, with what was lost remembered. |
| DecimalBuffer.Decimal.PickUp | utils/decimal/decimal-go.go:113-130 | Stops at the first prefix of the dividend from which the shift yields a digit, padding with zeros beyond the last digit. |
| DecimalBuffer.Decimal.Transfer | utils/decimal/decimal-go.go:135-143 | Each quotient digit is put where a digit has already been read, and quotient and remainder together are the part of the dividend read so far. |
| ShiftDigits.RemainderStep | utils/decimal/decimal-go.go:145-156 | Once the dividend has run out, each further digit gives the remainder one more factor of two until it is zero, which is why the loop ends. |
| DecimalBuffer.Decimal.PutDownRest | utils/decimal/decimal-go.go:145-156 | The loop ends with remainder zero and the whole quotient written, as far as it fits. |
| DecimalBuffer.Decimal.RightShift | utils/decimal/decimal-go.go:109-160 | In place: the digits of the product with 5^k, the point moved k places, as many as fit. |
| DecimalBuffer.Decimal.Shift | utils/decimal/decimal-go.go:314-331 | Any shift, in passes of 60, is the composition of exact scalings. |
| DecimalValue.ShiftedValue | utils/decimal/decimal-go.go:314-331 | Shifting by k multiplies the number by exactly 2^k, for every integer k, unless trunc was set. |
| DecimalValue.ShiftedFits | utils/decimal/decimal-go.go:314-331 | trunc stays as it was whenever the exact result fits the buffer, in all intermediate passes too. |
| DecimalValue.ShiftedSticks | utils/decimal/decimal-go.go:278-303 | Once digits have been lost trunc never goes back. |
| DecimalBuffer.Decimal.ShouldRoundUp | utils/decimal/decimal-go.go:334-347 | Up exactly if what is cut off exceeds half a unit, or is half as recorded and either digits were lost or the digit kept is odd. |
| DecimalBuffer.Decimal.RoundDown | utils/decimal/decimal-go.go:365-371 | Keeps the first m digits, trimmed. |
| DecimalBuffer.Decimal.RoundUp | utils/decimal/decimal-go.go:374-394 | The digit loop computes the first m digits as a number plus one, all nines included. |
| DecimalBuffer.Decimal.Round | utils/decimal/decimal-go.go:353-362 | Rounds to nearest among the two, ties to even, leaving a number of fewer digits alone. |
| ShortestDigits.RoundsHalfEven | utils/decimal/decimal-go.go:334-362 | The number of units of the digit rounded to is the nearest, and on a tie the even one, or the greater if digits were lost. |
| FloatBounds.BoundExact | utils/decimal/rounding.go:51-75 | Mantissas of up to 56 bits shifted by any exponent of a float fit the 800 digits, so that both bounds are held exactly. |
| Rounding.Bounds | utils/decimal/rounding.go:51-75 | The two buffers hold the half-way points to the neighbouring floats; below a power of two the lower one is half as far. |
| FloatBounds.FloatBracket | utils/decimal/rounding.go:51-80 | The bounds enclose the number closely enough for the digit walk, symmetrically when they do not belong to the interval. |
| FloatBounds.UpperNotTen | utils/decimal/rounding.go:100-102 | An upper bound that is a power of ten occurs only with an even mantissa; without this the strict test for rounding up would be too weak. |
| FloatBounds.WithinRecovers | utils/decimal/rounding.go:77-80 | Lying between the two buffers, ends counted for an even mantissa, is lying in the rounding interval of the float. |
| ShortestDigits.NoneShorter | utils/decimal/rounding.go:82-117 | While the walk is undecided after i digits, no decimal of i or fewer digits lies between the bounds. |
| ShortestDigits.StillUndecided | utils/decimal/rounding.go:95-102 | If neither rounding is allowed at digit i the walk is undecided one digit further. |
| ShortestDigits.DownWithin | utils/decimal/rounding.go:95-112 | Where the test allows rounding down, the result lies between the bounds. |
| ShortestDigits.UpWithin | utils/decimal/rounding.go:100-115 | Where the test allows rounding up, the result lies between the bounds, carries through nines included. |
| AlreadyShortest.NothingShorter | utils/decimal/rounding.go:35-49 | When the test with 332 and 100 passes, no decimal of fewer digits than the exact ones recovers the float. |
| Rounding.StopAtOnce | utils/decimal/rounding.go:45-49 | The early return leaves a shortest result. |
| Rounding.DecideAt | utils/decimal/rounding.go:84-116 | One round of the walk either leaves a result between the bounds or keeps everything, still undecided. |
| Rounding.Settle | utils/decimal/rounding.go:104-116 | Both allowed: the nearer of the two; one allowed: that one; none: unchanged. |
| Rounding.WalkDigits | utils/decimal/rounding.go:82-118 | Stops at the first digit where a rounding lies between the bounds, or with all digits used up. |
| NearestDigits.DownOutside | utils/decimal/rounding.go:95-98 | Where rounding down is refused, the lower neighbour of the same length is outside the bounds. |
| NearestDigits.UpOutside | utils/decimal/rounding.go:100-102 | Where rounding up is refused, the upper neighbour is outside too, except exactly where upper parted from the digits earlier, has run out, and the digit is below nine. |
| NearestDigits.ChosenNearest | utils/decimal/rounding.go:104-116 | The choice made at a digit is the nearest decimal of its length between the bounds exactly if not room above was refused with the rest above one half. |
| Rounding.RoundShortest | utils/decimal/rounding.go:24-118 | For every float of either format: the result lies in the rounding interval, ends only for an even mantissa, no decimal of fewer significant digits does, and it is the nearest of those with as many digits exactly under the condition above. |
| NearestMissed.NotTheNearest | utils/decimal/rounding.go:100-112 | A double on which the condition fails: a nearer decimal of the same length reads back as the same number. |
| NearestFloat.RecoversReadsAs | utils/decimal/rounding.go:22-23 | The numbers in that interval, and only they, read back as the float: none other of the format is as near, nor the first power of two beyond it, which stands for infinity; ties go to an even mantissa (section 4.3.1 of IEEE 754-2008). |
| NearestFloat.SeventeenSuffice | utils/decimal/decimal.go:232-233 | Some decimal of at most 17 digits recovers the float. |
| FloatDecimal.FieldsOf | utils/decimal/decimal.go:212-224 | What is unpacked from the pattern of a sign s, an exponent field e and a fraction f is the number f * 2^(1 + bias - mantbits) for e == 0 and (2^mantbits + f) * 2^(e + bias - mantbits) otherwise, negative exactly for s > 0 and finite exactly below the greatest e. |
| FloatDecimal.HasPattern | utils/decimal/decimal.go:212-213 | Every word is a pattern of some s, e and f. |
| FloatDecimal.FormatNumbers | utils/decimal/decimal.go:212-224 | The numbers of the format that the rounding is about are exactly those of its finite patterns, denormals included. |
| FloatDecimal.One | utils/decimal/rounding.go:19-20 | In either format the pattern of one stands for 1.0, which fixes the bias. |
| FloatDecimal.Exact | utils/decimal/decimal.go:226-228 | Before rounding the buffer holds the float exactly, no digit lost. |
| FloatDecimal.AtMostSeventeen | utils/decimal/decimal.go:233-249 | A shortest result has at most 17 digits, so the big-integer branch is never taken. |
| FloatDecimal.Sum | utils/decimal/decimal.go:233-239 | The int64 loop computes the number the digits write, without overflow. |
| FloatDecimal.Collect | utils/decimal/decimal.go:232-249 | Digits and point become a signed integer and an int32 exponent; that number reads back as the float and none of fewer digits does. |
| FloatDecimal.NewFromFloat | utils/decimal/decimal.go:208-252 | On the pattern of s, e and f: a panic exactly for the greatest e (infinities and NaN), zero for zero, and otherwise a number with the sign of s that reads back as the float, which no decimal of fewer digits does; its exponent fits an int32. |
| FixedDecimal.RescaleUnits | utils/decimal/decimal.go:362-379 | Rescaling keeps the whole units of the new exponent and cuts the rest towards zero; to a smaller exponent nothing is lost. |
| FixedDecimal.AddExact | utils/decimal/decimal.go:392-415 | Sums and differences are exact for all exponents. |
| FixedDecimal.CmpOrders | utils/decimal/decimal.go:566-579 | The sign of Cmp orders the numbers themselves, whatever their representations. |
| FixedRounding.Round | utils/decimal/decimal.go:759-778 | Truncating to one extra digit, adding five and dividing gives the nearest multiple of 10^-places, ties away from zero, for every number and places; the exponent is right unless places is the least int32, and then the number is right exactly if it is zero. |
| FixedRounding.LeastPlacesWrong | utils/decimal/decimal.go:761-772 | An input on which Round with the least places is off by the exponent. |
| FixedRounding.RoundBank | utils/decimal/decimal.go:795-810 | Built on Round: the nearest multiple of 10^-places, ties to the even one, for every number and places; with the least int32 as places exactly unless the size is a half above an even number, or a half and the one tiny amount that the wrapped exponents confuse with it. |
| DivisionOverflow.NoOverflowOfDifference | utils/decimal/decimal.go:476-501 | The promise: dividend = divisor * quotient + remainder, the quotient a multiple of 10^-precision, the remainder below divisor * 10^-precision and with the dividend's sign. When the exponents' difference fits an int32 it is kept exactly unless the remainder's exponent wraps around and there is a remainder. |
| DivisionOverflow.OverflowAbove | utils/decimal/decimal.go:476-480 | When the difference wraps around upwards, it is kept exactly if the dividend is below one unit of the quotient. |
| DivisionOverflow.OverflowBelow | utils/decimal/decimal.go:476-480 | When it wraps around downwards, it is kept exactly for a zero dividend, or, if the remainder's exponent wraps around as well, for a quotient of zero. |
| DivisionOverflow.QuoRemExactlyWhen | utils/decimal/decimal.go:470-507 | For all inputs the exact condition, checkable before the call, under which QuoRem keeps its promise; never for the least precision. |
| DivisionOverflow.RemainderLost | utils/decimal/decimal.go:493-498 | An input whose difference fits and whose remainder is wrong all the same. |
| DivisionOverflow.QuotientLost | utils/decimal/decimal.go:476-480 | An input one past the largest difference: no panic, and a wrong quotient. |
| DivisionNearest.SameRight | utils/decimal/decimal.go:509-536 | When the exponents' difference fits, DivRound gives the multiple of 10^-precision nearest to the quotient, ties away from zero, for all signs and negative precision; it fails only where the doubled remainder's exponent wraps around and a remainder below one half then looks like more. |
| DivisionNearest.AboveRight | utils/decimal/decimal.go:509-536 | When the difference wraps around upwards, it is right exactly if the quotient is below one half of a unit, or one and a half where the remainder's exponent wraps around too. |
| DivisionNearest.BelowRight | utils/decimal/decimal.go:509-536 | When it wraps around downwards, exactly if the quotient is so small that it rounds to zero even with the lost zeros. |
| DivisionNearest.DivRoundExactlyWhen | utils/decimal/decimal.go:509-536 | For all inputs the exact condition, checkable before the call, under which DivRound gives the nearest multiple; never for the least precision. |
| DivisionNearest.HalfLost | utils/decimal/decimal.go:522-525 | 1e-2147483648 / 0.3, asked for a multiple of ten, gives 10. |
| DecimalText.SplitDigits | utils/decimal/decimal.go:1048-1067 | The text before and after the point, zeros filled in where the number is below one. |
| DecimalText.TrimFraction | utils/decimal/decimal.go:1069-1077 | The backwards loop drops exactly the zeros at the end. |
| DecimalText.String | utils/decimal/decimal.go:1043-1089 | The loops produce the text that the reading and round-trip lemmas are about. |
| DecimalText.NumberRead | utils/decimal/decimal.go:105-154 | What a sign, digits, a point with digits and an exponent are read as, and exactly when such a text is an error. |
| DecimalText.RejectedExactly | utils/decimal/decimal.go:129-148 | Such a text is an error exactly if it has no digits once the zeros at its end are gone, or an exponent beyond an int32. |
| DecimalText.AcceptedOnly | utils/decimal/decimal.go:105-154 | Nothing is read as a number but a mantissa with at most one point, and after it perhaps an e of either case and an int32. |
| DecimalText.SignAfterPoint | utils/decimal/decimal.go:129-143 | A point in front of the sign is overlooked: .-5 is read as -0.05. |
| DecimalText.PointZero | utils/decimal/decimal.go:101-104 | The text .0 is rejected, .5 is not. |
| DecimalText.MeantAmount | utils/decimal/decimal.go:130-135 | The number read is the number written, however many zeros end the fraction. |
| DecimalText.PrintThenRead | utils/decimal/decimal.go:105-154 | Reading printed text, with or without its trailing zeros, succeeds and gives the representation of the same number without superfluous digits. |
| DecimalText.RoundTrip | utils/decimal/decimal.go:1043-1089 | Print, read: an equal number, which prints the same again. |
| DecimalText.SameTextSameNumber | utils/decimal/decimal.go:704-706 | Two numbers print alike exactly if they are equal. |
| DecimalText.TextShape | utils/decimal/decimal.go:1043-1089 | The printed text: a minus for negative numbers only, no superfluous zeros in front, and after the point as many digits as the exponent says or, trimmed, none that are zero at the end. |
| CronNext.MonthLevel | job/spec.go:95-110 | The month loop passes over no matching time, and ends in the same year or with a wrap-around. |
| CronNext.DayLevel | job/spec.go:112-136 | The same for days, under the rule for day of month and day of week. |
| CronNext.HourLevel | job/spec.go:138-148 | The same for hours. |
| CronNext.MinuteLevel | job/spec.go:150-160 | The same for minutes. |
| CronNext.SecondLevel | job/spec.go:162-172 | The same for seconds; without a wrap-around all fields match. |
| CronNext.Pass | job/spec.go:90-172 | One pass over the fields either finds a match, with nothing matching passed over, or wraps around strictly later. |
| CronNext.Next | job/spec.go:58-175 | For all masks and start times the search ends with the least matching second strictly after the start, or with none exactly if nothing matches up to the end of the fifth year on. |
| CronNext.NextUnique | job/spec.go:56-57 | That description has only one answer. |
| Calendar.BeforeIsEarlier | job/spec.go:81-88 | Comparing times field by field is comparing them on the time line. |
| Calendar.DaysFollow | job/spec.go:178-182 | Days follow one another on the time line, over the ends of months and years, and weekdays with them. |
| Calendar.Epoch | job/spec.go:178-182 | 1 January 1970 is a Thursday, and lies where it should on the time line. |
| CronField.GetBits | job/parser.go:344-357 | The bits start, start + step and so on up to end, and no other; the counter does not wrap around for any step the parser accepts. |
| CronField.OneByOne | job/parser.go:347-350 | For step one the two shifts give what the loop would. |
| CronField.GetRange | job/parser.go:252-318 | Whatever part it is given, either the bits the part denotes or the error it deserves. |
| CronField.PartRead | job/parser.go:249-251 | Every part written with numbers, names, a range and a step is read as what it means, "N/step" reaching to the maximum. |
| CronField.FieldsWellNamed | job/spec.go:21-49 | The six fields lie below the star bit, and no name contains a character the parser splits at. |
| CronField.GetField | job/parser.go:236-247 | Bit i is set exactly if some comma part denotes i; all bits but the star bit lie within the bounds; the first bad part is the one reported. |
| CronSpec.NormalizeFields | job/parser.go:160-215 | Fails exactly on two optional places or a wrong number of fields; otherwise every accepted place gets its field in order and every other its default. |
| CronSpec.Expand | job/parser.go:204-214 | The given fields end up at the places set, in order. |
| CronParse.NormalisedUnique | job/parser.go:160-215 | The six fields a text stands for are determined. |
| CronParse.CompileField | job/parser.go:123-130 | One field, its mask or its error, in terms of what its parts denote. |
| CronParse.Compile | job/parser.go:132-152 | Six fields compile exactly if none has a bad part; the first bad one is reported; and the schedule matches exactly the times the fields describe, under the rule for the two day fields. |
| CronParse.Parse | job/parser.go:88-153 | From the text: what is taken for a time zone, a descriptor and fields; when it is refused and why; that it crashes exactly for a zone without a space after it; and otherwise a schedule that matches exactly the times its fields describe. |
| CronParse.WordsRead | job/parser.go:112-113 | However words are spaced in the text they are read back, each one and in order. |
| CronParse.ZoneRead | job/parser.go:93-102 | The name of a time zone and what follows it are read back. |
| CronParse.NextOfText | job/parser.go:144-152 | The next activation of such a schedule is the next time the text describes. |
| CronScheduler.StrictWeakOrder | job/cron.go:81-92 | byTime is a strict weak order with the zero time after every other. |
| CronScheduler.BreakSkipsNone | job/cron.go:305-314 | In a sorted list nothing after an entry that is not due is due. |
| CronScheduler.TimerIsFirst | job/cron.go:287-297 | The timer's time has come exactly if some entry's has. |
| CronScheduler.Cron.Start | job/cron.go:279-284 | Every entry gets what its schedule answers for that time as its next activation, and nothing else about it changes. |
| CronScheduler.Cron.Wake | job/cron.go:301-314 | The loop with its early break starts every entry whose time has come, gives it what its schedule answers for that time as its next activation and the old one as its previous, and leaves the others alone. |
| CronScheduler.Cron.Remove | job/cron.go:384-392 | All entries but the one with that id, in order. |
| CronScheduler.RunDistinct | job/cron.go:195-211 | In every run no two entries share an id, and no id in the list is above the counter. |
| CronScheduler.FreshId | job/cron.go:195-211 | In every run an addition hands out an id above every id that was in the list at any time before and above every one handed out earlier, so none twice. |
| CronScheduler.WakeStartsDue | job/cron.go:276-342 | In every run a wake starts an id once if its entry is due and otherwise not at all, whatever order the sort chose among equals. |
| CronScheduler.RemovedNeverStarts | job/cron.go:332-336 | In every run a removed id is never in the list again and never started. |
| CronScheduler.ChangesOnlyByFiring | job/cron.go:299-340 | Across any event an entry that stays is the same, unless a wake finds that its time has come: then its next activation is what its schedule answers for the time of the wake, and its previous one the one that had come. |
| CronScheduler.NothingDueAfter | job/cron.go:305-314 | Right after a wake nothing is due whose schedule answers later times. |
| CronScheduler.StartsExactly | job/cron.go:299-314 | In every run a wake starts an entry that is still there exactly if the time has come that its schedule answered when it was added or when it was started last. |
| ConnPool.StepKeeps | rpcx/pool/pool.go:175-276 | Every step of every thread keeps the invariant of slots, open connections, references and lock. |
| ConnPool.RecheckSucceeds | rpcx/pool/pool.go:188-197 | With the lock held and ref zero nobody has got past its read lock and nobody holds a connection, so shrinking is safe. |
| ConnPool.RunKeeps | rpcx/pool/pool.go:216-276 | The invariant holds throughout every interleaving. |
| ConnPool.HeldIsOpen | rpcx/pool/pool.go:200-213 | No connection is closed while a caller holds it. |
| ConnPool.SlotsWhenFree | rpcx/pool/pool.go:243-267 | With the lock free, current lies between MaxIdle and MaxActive, and exactly the first current slots are filled. |
| ConnPool.GetNeverNil | rpcx/pool/pool.go:274-275 | Get finds a connection in the slot it picked, even if the pool has changed since. |
| ConnPool.RefCounts | rpcx/pool/pool.go:175-198 | ref is the number of Gets on their way, connections in use and failed Gets, so never negative. |
| ConnPool.NeverNegative | rpcx/pool/pool.go:183-187 | In every run, whoever gives a reference back finds one, and the panic for a negative ref is not reached. |
| ConnPool.FailureStopsShrinking | rpcx/pool/pool.go:239-271 | After one failed Get ref never reaches zero and the pool never shrinks. |
| ConnPool.ReferenceLeft | rpcx/pool/pool.go:244-272 | A run after which everybody is idle, nothing is held and one reference remains. |
| ConnPool.NeverRefused | rpcx/pool/pool.go:222-224 | Without Close of the pool no Get takes it for closed. |
| PoolAlone.GetAlone | rpcx/pool/pool.go:216-276 | A Get that is alone ends, within nine steps and one for each slot, with a connection shared, one of its own, or the pool doubled as far as it may be and one of that shared; a dial that fails leaves what was made; in any case with one reference more. |
| PoolAlone.GetGoesOn | rpcx/pool/pool.go:216-276 | It is never stuck. |
| PoolAlone.CapacityKept | rpcx/pool/pool.go:226-267 | One Get at a time keeps references within MaxConcurrentStreams for each connection, for as long as the pool can grow. |
| PoolAlone.CloseAlone | rpcx/pool/pool.go:183-214 | A Close that is alone ends with one reference less; with the last one gone the pool is back at its idle connections and all others are closed; a connection made for one caller is closed too. |
| PoolAlone.CloseGoesOn | rpcx/pool/pool.go:183-214 | It is never stuck. |
| RateLimiter.DurationBounds | cache/limiter/rate_limiter.go:365-368 | The duration is the largest whole number of nanoseconds that earns no more than the tokens asked about. |
| RateLimiter.AdvanceBounds | cache/limiter/rate_limiter.go:340-361 | Advancing never takes tokens away, never passes the burst, and earns at most the limit's pace; a clock that went back earns nothing. |
| LimiterExact.AdvanceExactly | cache/limiter/rate_limiter.go:340-361 | Everything earned since the last time counts, exactly, as long as that is no more than the burst; beyond it the tokens are less than one nanosecond's worth below the burst and not above. |
| LimiterExact.GrantedExactly | cache/limiter/rate_limiter.go:287-336 | A request is granted exactly if it is no more than the burst, its caller would wait zero or more, and it is less than what there is and will be earned by then, plus a nanosecond's worth. |
| LimiterExact.IdleGrants | cache/limiter/rate_limiter.go:340-361 | A limiter left idle until full grants any request up to the burst, to be used at once. |
| LimiterExact.RunGrantsExactly | cache/limiter/rate_limiter.go:287-336 | In every run a request is granted exactly if, with all that has been granted since the bucket was full last, it stays below what there was then and what is earned by the time its caller would wait. |
| LimiterExact.LimitsInTurn | cache/limiter/rate_limiter.go:273-282 | After a change of limit, tokens have been earned at the old limit until then and are earned at the new one from then on. |
| LimiterExact.CancelSparesLater | cache/limiter/rate_limiter.go:163-176 | Of two waiting reservations, cancelling the first gives back only what it reserved in excess of the second, up to a nanosecond's worth. |
| LimiterExact.CancelsUndo | cache/limiter/rate_limiter.go:150-190 | Cancelling both, the later first, gives everything back, up to a nanosecond's worth. |
| RateLimiter.Limiter.Advance | cache/limiter/rate_limiter.go:340-361 | The capped computation of elapsed time gives those tokens. |
| RateLimiter.Limiter.ReserveN | cache/limiter/rate_limiter.go:287-336 | The whole new state and the reservation, granted or refused, for any number of tokens; the tokens stay within the burst if that number is not negative. |
| RateLimiter.Limiter.CancelAt | cache/limiter/rate_limiter.go:153-190 | The whole new state, with all four early returns; the tokens stay within the burst. |
| RateLimiter.Limiter.SetLimitAt | cache/limiter/rate_limiter.go:273-282 | Tokens are settled at the old limit before the new one counts. |
| RateLimiter.ApplyKeeps | cache/limiter/rate_limiter.go:153-361 | Any call leaves at most the burst exactly unless it is a request for a negative number, by a caller willing to wait zero or more, that returns more tokens than there is room for at that time; this can be checked before the call. |
| RateLimiter.WithinBurstExactly | cache/limiter/rate_limiter.go:153-361 | In every run all states up to some point hold at most the burst exactly if no call before it meets that condition. |
| RateLimiter.FirstAbove | cache/limiter/rate_limiter.go:287-336 | In every run the burst is passed for the first time by exactly the first call that meets it. |
| RateLimiter.NeverAboveBurst | cache/limiter/rate_limiter.go:153-361 | In every run of reserving, cancelling and changing the limit, at any times in any order, with no negative requests, tokens never exceed the burst. |
| RateLimiter.NegativeRequest | cache/limiter/rate_limiter.go:303-329 | A full bucket asked for minus one token holds one more than the burst. |
| RateLimiter.CancelUndoes | cache/limiter/rate_limiter.go:150-190 | Cancelling a granted reservation at once restores exactly the tokens there would be without it, if and only if their number was not negative. |
| RateLimiter.ReserveStep | cache/limiter/rate_limiter.go:287-336 | What one request does to the tokens, granted or not. |
| RateLimiter.BetweenGrants | cache/limiter/rate_limiter.go:287-336 | For a fixed limit and requests whose times do not go back: from one grant to a later one the tokens granted stay below the burst, the limit times the time between them, and one nanosecond's worth. |
| RateLimiter.WindowBound | cache/limiter/rate_limiter.go:287-336 | The same for the tokens to be used within any window of time: below the burst, the limit times the window, and one nanosecond's worth, wherever in the run it lies. |
| RateLimiter.TimesNeverDecrease | cache/limiter/rate_limiter.go:320-330 | While nothing is cancelled, later grants are never to be used before earlier ones. |
| LuaBucket.Hash.Run | cache/limiter/rate_limiter_redis.go:15-47 | One execution of the script: the stored fields afterwards and the status. |
| LuaBucket.ScriptStep | cache/limiter/rate_limiter_redis.go:25-42 | The count stays between zero and the bucket, the stored time does not go back, a refused call stores nothing, and an admission costs a token. |
| LuaBucket.AdmittedExactly | cache/limiter/rate_limiter_redis.go:15-47 | A call is admitted exactly if the bucket can hold a token and, after the first call, what was stored and what has been earned since come to one; the time stored is then the later of the two. |
| LuaBucket.BurstAdmitted | cache/limiter/rate_limiter_redis.go:15-47 | In every run, from a full bucket as many calls in a row are admitted as it holds tokens, whatever their clocks show. |
| LuaBucket.LittleLost | cache/limiter/rate_limiter_redis.go:15-47 | Along any segment that does not fill the bucket up every admission costs its token and less than one more in rounding, and nothing else is lost. |
| LuaBucket.SegmentBound | cache/limiter/rate_limiter_redis.go:15-47 | Along any segment admissions are paid for by the stored count and what was earned while the stored time grew, although every step rounds down. |
| LuaBucket.AtMost | cache/limiter/rate_limiter_redis.go:15-47 | Any segment of any run, clocks in any order, admits at most the bucket, less what is left of it, plus the whole tokens earned while the stored time grew: from what was stored before the segment or, if nothing was, from the time stored by the first admission in it. |
| LeaseLock.StepKeeps | cache/redis_lock.go:17-157 | Every step keeps the invariant: tokens are distinct, and a client inside its call owns the key until its lease runs out. |
| LeaseLock.MutualExclusion | cache/redis_lock.go:115-157 | In every run at most one client is inside its call with an unexpired lease. |
| LeaseLock.LateLeaveHarmless | cache/redis_lock.go:17-29 | An unlock after the lease has run out takes nothing from the successor. |
| LeaseLock.EnteredBySuccess | cache/redis_lock.go:115-140 | A client enters its call only by an answered SET NX of its own some steps before, with its token and its lease, at a moment when nobody held the lock, however late the reply. |
| LeaseLock.EntersTooLate | cache/redis_lock.go:52-62 | A reply that arrives after the lease has run out: the client enters although another holds the lock. |
| LeaseLock.StepInbox | cache/redis_lock.go:17-29 | Releases announced are put at the end of what a subscribed client has pending, and only its own receiving takes from the front. |
| LeaseLock.KeyEnds | cache/redis_lock.go:17-29 | A live key ends exactly when its time runs out or its own holder's release is executed, and is not changed until then. |
| LeaseLock.KeyBegins | cache/redis_lock.go:52-62 | A key begins exactly with an attempt that is executed while none is live, and is then that attempt's, for the seconds it asked for. |
| LeaseLock.TenMinutes | cache/redis_lock.go:99-113 | In every run no live key lasts longer than the ten minutes a request may ask for. |
| LeaseLock.ReleasedThenObtained | cache/redis_lock.go:17-62 | In every run, after a release in time the resource is free at once, and the next attempt that reaches the server obtains it, whoever makes it. |
| LeaseLock.HandedOver | cache/redis_lock.go:115-140 | From any state: a spinning holder leaves in time, the waiting client hears of it, tries again, and enters its call with the lock. |
| LeaseLock.ListensUntil | cache/redis_lock.go:115-136 | In every run a client that has subscribed listens exactly until it gives up or enters its call. |
| LeaseLock.InboxExactly | cache/redis_cache.go:325-351 | In every run what a subscribed client has pending is what has been announced since it subscribed less what it has taken. |
| LeaseLock.WaitsInVainExactly | cache/redis_lock.go:115-136 | A waiting client has nothing pending about its resource exactly if every announced release of it since the subscription has been taken, so always if none was announced. |
| LeaseLock.RetriedByMessage | cache/redis_lock.go:122-131 | In every run a waiting client tries again only after some spinning holder released its resource, in time and after the subscription. |
| LeaseLock.WakeUpCanBeMissed | cache/redis_lock.go:120-131 | A run with a release between the refusal and the subscription, no time passing: the lock is free, its only contender waits, and no message is left to come. |
| LeaseLock.PlainHolderIsSilent | cache/redis_lock.go:64-69 | The same without a race, after a release by a holder that did not spin, no time passing. |
| LeaseLock.ExpiryIsSilent | cache/redis_lock.go:52-62 | The same after a lease that ran out, without any release. |
| Conditions.Cnd.ResultSize | ormx/sqlc/cnd.go:448-457 | Sizes outside 1 to 5000 become 50. |
| SqlWhere.BuildWhereCase | ormx/sqld/base_manager.go:1676-1786 | The text with its trailing separators and the arguments in order, or a panic where slicing goes below zero. |
| SqlParse.CondsTextMeans | ormx/sqld/base_manager.go:1676-1786 | For every condition tree the text is the clause of what the tree means, and it panics exactly where an Or or an alternative has nothing in it. |
| SqlText.LexShow | ormx/sqld/base_manager.go:1687-1757 | The spaces the builder writes keep all tokens apart. |
| SqlQuery.AltsAreRead | ormx/sqld/base_manager.go:1758-1782 | A parser with the usual precedence recovers every nested disjunction and binds the i-th question mark to the i-th argument. |
| SqlQuery.ClauseIsRead | ormx/sqld/base_manager.go:934-953 | What the callers' trimming of three characters and one more leaves parses back to the conjunction, no argument left over. |
| SqlQuery.WhereMeansConditions | ormx/sqld/base_manager.go:1676-1786 | Tree to text to parse: the conjunction of the conditions, every Or a parenthesised disjunction; exactly when the builder panics; and when no clause is written at all. |
| SqlQuery.EmptyAlternativePanics | ormx/sqld/base_manager.go:1766-1776 | An Or with an empty alternative makes the builder panic. |
| QueryTruth.WhereAccepts | ormx/sqld/base_manager.go:929-954 | For every row and database, evaluating the clause as read, in three-valued logic, is evaluating the conditions. |
| DroppedDates.ErasedText | ormx/sqld/base_manager.go:1686-1784 | For every tree, erasing its dates on all levels changes neither the text nor the arguments. |
| DroppedDates.ClauseMeansErased | ormx/sqld/base_manager.go:929-954 | For every tree, row and database the clause is true as the conditions without their dates are; where nothing is left no clause is sent. |
| DroppedDates.DateIgnored | ormx/sqld/base_manager.go:1686-1784 | A row outside the dates that the clause accepts. |
| MongoMatch.BuildMongoMatch | ormx/sqld/mongo_manager.go:805-865 | The document the loop and its recursion fill in, conditions it does not support skipped. |
| MongoMatch.TestAgreesExactly | ormx/sqld/mongo_manager.go:819-848 | Each of the tests by equality, order, null, range and membership accepts the same rows in both stores exactly if it is not not-equal or not-in meeting a null; there Mongo accepts and SQL does not. |
| MongoMatch.OneAccepts | ormx/sqld/mongo_manager.go:819-848 | What the document of one condition asks of a row, operator by operator, patterns and dates included. |
| MongoMatch.LeavesNothing | ormx/sqld/mongo_manager.go:834-848 | Exactly is-not-null, not-between and not-like leave every document as it was. |
| MongoMatch.MatchAgrees | ormx/sqld/mongo_manager.go:805-865 | For such trees, nested Ors included, the document accepts a row exactly if the conditions are true of it. |
| MongoMatch.SameRows | ormx/sqld/mongo_manager.go:805-865 | Document and WHERE clause built from one tree of those tests, keys distinct and at most one Or on a level, accept the same rows, and the server takes the document. |
| MongoReplaces.FieldsAccept | ormx/sqld/mongo_manager.go:809-864 | For every list of conditions a document that the server takes accepts a row exactly if the row meets the last condition under each name and some alternative of the last Or. |
| MongoReplaces.TakenExactly | ormx/sqld/mongo_manager.go:849-861 | The server takes the document exactly if the last Or on every level that is sent has alternatives and none of them is empty; an empty one is sent as a null. |
| MongoReplaces.FirstBoundLost | ormx/sqld/mongo_manager.go:823-830 | A row that SQL rejects and Mongo accepts because the second bound on a key replaced the first. |
| MongoReplaces.FirstOrLost | ormx/sqld/mongo_manager.go:849-861 | The same for two Ors. |
| FastPage.NewPaging | ormx/sqlc/cnd.go:459-475 | The settings kept, with sizes outside 1 to 5000 turned into 50. |
| FastPage.Prepare | ormx/sqld/mongo_manager.go:584-621 | Which cursor conditions are added, in which direction rows are fetched, and the page size. |
| FastPage.BuildMongoSortBy | ormx/sqld/mongo_manager.go:986-1007 | With fast paging its key leads and is left out of the rest; the other keys follow in order under their stored names, repeated ones too; without it they stand alone. |
| FastPage.OtherSortsAre | ormx/sqld/mongo_manager.go:995-1005 | The other keys are exactly those entries whose stored name is not the paging key's, each in its place with its direction. |
| FastPage.CursorAccepts | ormx/sqld/mongo_manager.go:600-617 | Exactly the rows beyond the cursor in sort order remain; with both cursors given, lastID decides alone. |
| FastPage.AnswerUnique | ormx/sqld/mongo_manager.go:627-640 | Filter, order and size determine the page. |
| FastPageRows.FindListQuery | ormx/sqld/mongo_manager.go:584-630 | Filter, sort keys, skip and limit of the find command FindList sends for a page. |
| FastPageRows.PageAnswers | ormx/sqld/mongo_manager.go:627-640 | Whatever that command can return of a collection is, by the ids, the first page of the base filter's rows inside the cursor, in the direction set. |
| FastPageRows.ForwardVisitsRows | ormx/sqld/mongo_manager.go:584-621 | For rows with distinct positive keys: following lastID from command to command lists the base filter's rows in sort order, each once, without gaps, and all of them once a page comes back short. |
| FastPageRows.BackReturnsRows | ormx/sqld/mongo_manager.go:600-614 | The command with prevID taken from the first row of a page returns the rows of the page before it, reversed. |
| Snowflake.Node.constructor | utils/snowflake/id_worker.go:91-109 | A new generator starts at time and step zero with its node number. |
| Snowflake.FieldsRecovered | utils/snowflake/id_worker.go:278-290 | Time, Node and Step recover what was packed, and the sign bit stays clear. |
| Snowflake.NodesApart | utils/snowflake/id_worker.go:153-156 | IDs of different nodes differ, whatever their times and steps. |
| Snowflake.Ordered | utils/snowflake/id_worker.go:153-156 | IDs of one node are ordered exactly as time, then step. |
| Snowflake.Node.Generate | utils/snowflake/id_worker.go:129-160 | The state afterwards, through clocks behind, exhausted steps and the wait, and the ID packed from it. |
| Snowflake.NextIs | utils/snowflake/id_worker.go:120-156 | A new millisecond starts at step zero; within one the steps count up, all 4096 of them, and then the wait ends with the first reading past it; a clock that is behind is read again after the sleep. |
| Snowflake.Node.Wait | utils/snowflake/id_worker.go:142-146 | The wait ends with the first reading past the last time. |
| Snowflake.AboveExactly | utils/snowflake/id_worker.go:129-160 | An ID is above the one before it exactly if the clock reading used is not behind. |
| Snowflake.StrictlyIncreasing | utils/snowflake/id_worker.go:128-160 | IDs of one node strictly increase over any run whose readings are not behind. |
| Base58.Encode | utils/snowflake/id_worker.go:223-242 | Dividing and reversing in place gives the base-58 text. |
| Base58.Swap | utils/snowflake/id_worker.go:237-239 | Swapping from both ends reverses. |
| Base58.Parse | utils/snowflake/id_worker.go:244-257 | Rejects where the table marks a character invalid, and otherwise gives the number the digits write, wrapped around to 64 bits. |
| Base58.RoundTrip | utils/snowflake/id_worker.go:223-257 | A number is read back from its text, which uses the alphabet only. |
| Base58.ReadBack | utils/snowflake/id_worker.go:223-257 | Parsing the text of any ID, in 64 bits, gives the ID. |
| Base58.RejectedExactly | utils/snowflake/id_worker.go:51-59 | A text is rejected exactly for a character below ':' outside the alphabet; others outside count as zero, because the table is marked by index and not by character. |
| Base58.ColonPasses | utils/snowflake/id_worker.go:53-59 | A text with a colon is read like one with the zero digit. |

## Left out

- FloatDecimal.NewFromFloat: the bits are the input, so the float argument itself and the special case for zero before the call are not modelled; a zero mantissa gives zero either way.
- DecimalText.NumberRead: which of two error texts an out-of-range exponent gets is not distinguished from a malformed one.
- CronNext.Next: in UTC, to the second; the branch that repairs midnights skipped by daylight saving never runs there and is left out, and so are nanoseconds of the start time, which the code drops.
- CronField.GetField: names are lowered for ASCII letters only.
- CronScheduler.Cron.Wake: schedules are arbitrary functions, the sort is any sorted permutation, and starting a job is recorded, not run; `Stop` ends a run.
- ConnPool.StepKeeps: on values, as steps between which any thread may run; the index counter is any choice, ref does not overflow, every handle is closed once, and the pool is not closed meanwhile, as documented. Conn contexts are left out, and so is the non-nil handle Get returns together with a dial error.
- RateLimiter.WindowBound: the burst is not negative and requests are not either; tokens are reals, so floating-point rounding is not captured; the limit is positive and finite, and differences of times do not saturate.
- LuaBucket.AtMost: numbers are exact where Lua has doubles; the branch that would set an expiry needs a negative count, which a bucket of at least zero never gives.
- LeaseLock.MutualExclusion: on values; time is the server's, and replication or failover of the server is not modelled.
- SqlWhere.BuildWhereCase: the escaped form of keys only; keys with a backquote would end their own quotes and are excluded where the text is read back.
- Conditions.Cnd: of the methods that add a condition only the one Mongo's pagination calls is a method here; condition trees are any that all of them together can build.
- MongoMatch.SameRows: without Like, whose patterns differ between the stores (`OneAccepts` says what Mongo is asked), for distinct keys and at most one Or on each level, and for rows on which not-equal and not-in meet no null; `TestAgreesExactly` shows the last condition is needed.
- FastPageRows.ForwardVisitsRows: keys are distinct and positive, a zero cursor meaning none, the base filter does not use the key, and rows do not change between pages; the first command has no cursor.
- Snowflake.StrictlyIncreasing: the time fits 41 bits after the epoch.
- `Mod`, `Pow`, `RoundCash` and the trigonometric functions go through a division to 16 digits and have no exact statement.
- CronParse.Parse: a descriptor beginning with `@` is handed on as a text and its own meaning is not modelled; which zone names are known is an input; only ASCII spaces separate words.
- Base58.Encode: a negative ID, on which the source panics.
- `NewFromFloatWithExponent` and descriptors such as `@every` would add only easy cases.
- Counting for regular pagination, aggregates, projections, joins, index handling and the SQL dialects.
- HTTP, WebSocket, AMQP, Consul, gRPC dialling, the cryptographic wrappers, reflection and logging.
- The drivers of MySQL, Mongo and Redis: only row evaluation, atomic commands, script execution and message delivery are modelled.
