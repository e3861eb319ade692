# Verification of the mbed TLS port for NewtonOS

A Dafny model of five parts of the port, with proofs of what they promise. Run
`dafny verify dfyconfig.toml`.

**The TLS connection end.** mbedtls calls for bytes synchronously; the inet end below it
answers requests with callbacks, inside the call or later. `Sender.dfy`, `Receiver.dfy` and
`ClientReads.dfy` describe the three streams, `Session.dfy` joins them to one state machine
whose steps are the calls the connection end receives, `Runs.dfy` proves what holds in every
run of it, `History.dfy` says what it returns and completes in terms of the run's events alone,
and `ConnectionEnd.dfy` is the object with its fields, loops and nested callbacks,
each method proved to move its fields exactly by the machine's steps.

**The ARM division runtime.** `Words.dfy`, `Division.dfy` and `Modulo.dfy`: registers, the
unrolled loops with their over-subtraction, the signed and power-of-two routes, and the
rotated mask by which the remainder routine repairs its last pass.

**The tiny printf.** `PrintfSpec.dfy` says what a format prints, `Printf.dfy` is the code with
its scratch buffer and its bounded output buffer, `PrintfLaws.dfy` compares both with
section 7.21.6.1 of ISO/IEC 9899:2011 and reads the output back, and `PrintfDirectives.dfy` goes
from the spelling of a format to its text and back.

**Calendar arithmetic.** `Calendar.dfy`: the two conversions, each against a calendar defined
by the lengths of years and months, and against each other.

**Root certificates.** `Certificates.dfy`: listing names into a buffer, and loading by name.

## What the environment may do

Nothing is assumed silently: these rules are the preconditions `Enabled`, `LegalReturn`,
`LegalGet`, `LegalNested` and `LegalLength`.

- The inet end answers a request once, with at least one and at most the requested number of
  bytes, an end of file or an error; it may do so inside the request. It takes any number of
  the bytes it is asked to put, and may complete a put, and the puts that follow from it,
  inside the call that issues it. Otherwise it calls between operations.
- mbedtls calls back only inside an operation. It never asks for no bytes, and asks again for
  exactly the bytes missing from a fetch until it is satisfied, as the comment at
  `Protocol/PMbedTLSConnectionEnd.cpp:1426` relies on. It reports WANT_READ if and only if its
  last receive callback did, and calls back no more after that. A handshake or a read only
  succeeds when no fetch is left unsatisfied, except that a read may report the end of the
  stream by returning 0 once the transport is closed. No more plaintext is returned than there
  is room for. Over a stream mbedtls arms no timer, so that the timer tick
  (`Protocol/PMbedTLSConnectionEnd.cpp:421-433`) begins no handshake.
- The client keeps the threshold of a get until it completes. A call that it makes inside a
  completion is a step after that completion. Runs follow the fields as if the reset of the
  count after the completion changed nothing; `CompletionLoses` says when it does.
- A buffer list that was emptied is at position 0 again.
- Runs end with the first reset of the TLS session.

The retry message is queued once however often it is sent.

## Where the code departs from its promise

Each of these is proved, with the exact condition where the property is a matter of inputs,
and most with inputs or runs for which it fails.

- `__umodsi3` returns a wrong remainder for some large dividends and divisors 1, 2 and 3: an
  early exit is then taken for the last pass. `Misfires` names these pairs; for all others,
  and so for every divisor from 4, the result is the remainder (`Umodsi3`). They occur
  (`MisfiresOccur`, `WrongRemainder`).
- An end of file that answers a request at once sends no retry message. If nothing was buffered
  then, WANT_READ is returned although nothing is outstanding, and the handshake or the client's
  read is never resumed (`LostWakeup`, `LostForever`). A suspended operation is waited for if
  and only if this did not happen (`NoLostWakeup`).
- Moving the rest of the receive buffer starts at its end instead of at the bytes copied. The
  branch, whenever it is entered, hands on what the heap holds there (`StreamKeptIffItFits`); it
  is entered in no run under the rules above (`NeverShifts`).
- The read loop takes a return of 0 for a read. It goes on as long as what was read stays below
  the threshold (`ReadLoopEnds`): for ever when the peer closes before that (`SpinsAtEof`,
  `EofHangs`), or with a threshold above the size of the buffer (`NeverEnough`). Positive reads
  bound it (`ReadLoopBound`).
- The count of bytes read is reset after the completion, so that a get started inside it loses
  what it has read if it is suspended there (`CompletionLoses`, `ByteLost`).
- `TimeToLocal1904Minutes` overflows its 32-bit result outside the dates from -2180-12-08 to
  5987-01-23 (`MinutesFitLong`), and `tm_yday` is counted from 1 March (`YdayIsNeverFromJanuary`).
- printf ignores the precision of an integer with the minus flag, and truncates at 32 characters
  of scratch (`FieldIsIso`, `MinusDropsPrecision`, `SpaceLost`). With `#` it takes digits for
  padding, and adds the octal prefix to zeros that contain it (`HashIsIso`, `HashDropsDigits`).
  It converts `%hhd` to a plain char, which is unsigned on ARM (`PlainCharIsUnsigned`), and
  reads a negative precision argument as 0 instead of none (`ParseIsIso`,
  `NegativePrecisionString`, `NegativePrecisionInt`).
- The user's certificates are listed with a cursor moved by the NewtonScript integer 1 instead
  of the number 1; the move is a parameter of the model, and the list is complete only for a
  move by one (`VisitsAll`, `SkipsSecond`). Everything else is proved for every positive move.

## Model

| member | source | states |
|---|---|---|
| `Sending.TakeKeeps` | Protocol/PMbedTLSConnectionEnd.cpp:742-751 | When the inet end takes any number of bytes, no byte is lost, repeated or reordered, and the sender is ready for the next put |
| `Sending.StartPutKeeps` | Protocol/PMbedTLSConnectionEnd.cpp:763-769 | However many puts complete inside the call that issues them, the send invariant holds afterwards and nothing more has been accepted |
| `Sending.PutCompleteKeeps` | Protocol/PMbedTLSConnectionEnd.cpp:742-774 | A completed put, partial, failed or whole, with any nesting of further completions, keeps: taken + unsent + queued = accepted, one put outstanding at most, both queues empty when idle without error |
| `Sending.SendKeeps` | Protocol/PMbedTLSConnectionEnd.cpp:1381-1405 | A send appends exactly its bytes to what is accepted, or nothing after an error, and keeps the send invariant |
| `Sending.PutCompleteUses` | Protocol/PMbedTLSConnectionEnd.cpp:742-774 | A put that completes uses its result and those of the puts that follow from it one by one, all without an error but perhaps the last, whose error is kept; results are left over only when no put is outstanding |
| `Sending.PutEnds` | Protocol/PMbedTLSConnectionEnd.cpp:748-752 | A failed put is not put again and its error is the one kept; with all bytes taken and none queued nothing is put any more |
| `Sending.TakesAsMany` | Protocol/PMbedTLSConnectionEnd.cpp:751-768 | The inet end takes as many of the bytes put as it says, in order, if there are as many |
| `Sending.SendReports` | Protocol/PMbedTLSConnectionEnd.cpp:1385-1404 | Without an error the result is the number of bytes accepted, which is all of them; with one it is the error, and none is accepted |
| `Receiving.GetCompleteKeeps` | Protocol/PMbedTLSConnectionEnd.cpp:791-816 | A completed get of legal size keeps the receive invariant: handed + buffered = delivered, and no more is buffered or outstanding than mbedtls wants |
| `Receiving.HandsOverWhole` | Protocol/PMbedTLSConnectionEnd.cpp:1436-1442 | When mbedtls asks again for exactly what it misses, the buffer never exceeds the length asked for, so the branch that moves a rest of it is not entered |
| `Receiving.RecvKeeps` | Protocol/PMbedTLSConnectionEnd.cpp:1411-1451 | Every receive callback under that rule keeps the receive invariant, whether its request is answered at once, later or not at all |
| `Receiving.RecvHands` | Protocol/PMbedTLSConnectionEnd.cpp:1436-1447 | The bytes a receive callback returns are the ones recorded as handed over, appended in order |
| `Receiving.EofAfterData` | Protocol/PMbedTLSConnectionEnd.cpp:1416-1419 | 0 is returned only when every byte delivered before the end of file was handed over |
| `Receiving.SuspendsOnRequest` | Protocol/PMbedTLSConnectionEnd.cpp:1421-1434 | WANT_READ leaves a request outstanding, except exactly when an end of file answered that request at once and nothing was buffered |
| `Receiving.AsksForMissing` | Protocol/PMbedTLSConnectionEnd.cpp:1421-1428 | The callback asks for exactly the bytes missing when there is no error, no end of file and no request outstanding, and otherwise for nothing |
| `Receiving.StreamKeptIffItFits` | Protocol/PMbedTLSConnectionEnd.cpp:1436-1446 | Without the rule: the byte stream survives a hand-over for every content of the heap if and only if the buffer fits the length asked for, since the move reads past the end of the buffer |
| `ClientReads.AcceptKeeps` | Protocol/PMbedTLSConnectionEnd.cpp:351-353 | A new get, when none is in progress, keeps the client invariant: plaintext returned = bytes of the completed gets + bytes read for the open one, completions numbered in order |
| `ClientReads.AppendKeeps` | Protocol/PMbedTLSConnectionEnd.cpp:1318-1329 | A successful read keeps it; a completion it triggers holds at least the threshold and at most the size of the get |
| `ClientReads.DrainKeeps` | Protocol/PMbedTLSConnectionEnd.cpp:1332-1350 | A failed or ended read completes the open get, once, with what was read before |
| `Session.StepKeepsSender` | Protocol/PMbedTLSConnectionEnd.cpp:742-774 | No step of the session breaks the send invariant |
| `Session.StepKeepsReceiver` | Protocol/PMbedTLSConnectionEnd.cpp:791-825 | No step of the session breaks the receive invariant |
| `Session.StepKeepsReads` | Protocol/PMbedTLSConnectionEnd.cpp:1315-1353 | No step breaks the client invariant, and until a reset a read buffer means a get not yet completed |
| `Session.StepKeepsControl` | Protocol/PMbedTLSConnectionEnd.cpp:439-458 | In every state the operation suspended on WANT_READ is the one the retry message would retry: the handshake while none is established, else the read in progress |
| `Session.StepKeepsWakeup` | Protocol/PMbedTLSConnectionEnd.cpp:791-825 | A suspended operation has a request outstanding or a retry message queued if no end of file ever answered at once a request made with nothing buffered, and neither if one did; with nothing suspended nothing is waited for |
| `Session.StepKeeps` | Protocol/PMbedTLSConnectionEnd.cpp:259-458 | Every call the environment may make, in any order, keeps all of the above together |
| `Runs.RunKeeps` | Protocol/PMbedTLSConnectionEnd.cpp:259-458 | The session invariant holds after every run |
| `Runs.SendPath` | Protocol/PMbedTLSConnectionEnd.cpp:1381-1405 | In every run the inet end has taken a prefix of what mbedtls sent, all of it when idle without error, and no more than one put is outstanding |
| `Runs.NothingSentAfterError` | Protocol/PMbedTLSConnectionEnd.cpp:748-749 | From any state with a send error, no continuation accepts, puts or takes another byte |
| `Runs.ReceivePath` | Protocol/PMbedTLSConnectionEnd.cpp:1411-1451 | In every run mbedtls was handed a prefix of what the inet end delivered, and buffered plus requested bytes never exceed what it still wants |
| `Runs.NeverShifts` | Protocol/PMbedTLSConnectionEnd.cpp:1442-1446 | In no run is the branch that moves the rest of the receive buffer entered |
| `Runs.EofLast` | Protocol/PMbedTLSConnectionEnd.cpp:1416-1419 | In every run, a receive callback that returns 0 finds everything delivered already handed over |
| `Runs.ReturnedIsPlaintext` | Protocol/PMbedTLSConnectionEnd.cpp:1318-1320 | The plaintext on record is what mbedtls_ssl_read returned over the run, in order |
| `Runs.ClientGets` | Protocol/PMbedTLSConnectionEnd.cpp:1315-1353 | In every run, across any number of suspensions, the completed gets carry the plaintext in order; each get completes at most once, within its size and, unless the stream ended, with its threshold |
| `Runs.ReadLoopBound` | Protocol/PMbedTLSConnectionEnd.cpp:1317-1329 | With positive reads the loop calls mbedtls_ssl_read fewer times than bytes are missing from the threshold before the call that ends it |
| `Runs.ReadLoopEnds` | Protocol/PMbedTLSConnectionEnd.cpp:1317-1329 | Over every sequence of callbacks and successful reads, empty ones and the end of the stream included, the loop goes on if and only if what was read stays below the threshold |
| `Runs.SpinsAtEof` | Protocol/PMbedTLSConnectionEnd.cpp:1317-1329 | Below the threshold with the transport closed, any number of reads that report the end of the stream is legal and changes nothing: the loop hangs |
| `Runs.EofHangs` | Protocol/PMbedTLSConnectionEnd.cpp:1317-1329 | It is reached: a client waits for one byte, the peer closes, and for every n there is a run with n reads more in the loop and nothing told to the client |
| `Runs.NeverEnough` | Protocol/PMbedTLSConnectionEnd.cpp:1318-1321 | With a threshold above the size of the buffer no sequence of successful reads leaves the loop |
| `Runs.CompletionLoses` | Protocol/PMbedTLSConnectionEnd.cpp:1326-1327 | Where the client starts a get inside a completion, the reset of the count loses plaintext if and only if that get is still open and has read some |
| `Runs.ByteLost` | Protocol/PMbedTLSConnectionEnd.cpp:1326-1327 | That happens: a legal run in which such a get is suspended with one byte read |
| `Runs.NoLostWakeup` | Protocol/PMbedTLSConnectionEnd.cpp:817-821 | In every run a suspended handshake or read waits for an outstanding request or a queued message if and only if no end of file in the run answered at once a request made with nothing buffered |
| `Runs.RetriesSuspended` | Protocol/PMbedTLSConnectionEnd.cpp:439-453 | The handler of the retry message begins exactly the suspended operation, and none if none is suspended |
| `Runs.LostForever` | Protocol/PMbedTLSConnectionEnd.cpp:421-458 | Where such an end of file did occur, no continuation of any length resumes the suspended handshake or read, and the client gets nothing any more |
| `Runs.LostWakeup` | Protocol/PMbedTLSConnectionEnd.cpp:1427-1434 | It does occur: a legal run leaves a handshake suspended for ever, another one a client's read |
| `Runs.StuckForever` | Protocol/PMbedTLSConnectionEnd.cpp:421-458 | A handshake or read that waits for nothing after an end of file stays suspended in every continuation, through writes, termination and resets, and the client's reads do not change |
| `Histories.GetsAnswered` | Protocol/PMbedTLSConnectionEnd.cpp:340-402 | In every run the k-th completion answers the k-th get that was accepted: at most the size asked for and, unless the stream ended, at least the threshold given, and the read buffer has the size and threshold of the get still open |
| `Histories.StatusOfGets` | Protocol/PMbedTLSConnectionEnd.cpp:1332-1349 | The status of every completion is 0, but for the last one of a run in which a read failed, which has the status of that failure, 0 for the end of the stream |
| `Histories.ReceiverRecords` | Protocol/PMbedTLSConnectionEnd.cpp:791-816 | In every run the data delivered, the end of file and the error on record are those that the inet end has answered |
| `Histories.RecvReturns` | Protocol/PMbedTLSConnectionEnd.cpp:1411-1451 | What a receive callback returns follows from the answers alone: the error of the failed request, if and only if one failed; else 0, if and only if the peer has closed before; else all data not handed over yet, or WANT_READ if there is none |
| `Histories.SendReturns` | Protocol/PMbedTLSConnectionEnd.cpp:1381-1405 | In every run the bytes accepted are those that mbedtls and its alerts sent up to the first error, and a send returns the length of its bytes, or the error with which a put of the run completed |
| `Histories.StepFlags` | Protocol/PMbedTLSConnectionEnd.cpp:259-306 | The established and closing flags after any step: what establishes a session, what ends it, and what closes the connection |
| `Histories.StepOperation` | Protocol/PMbedTLSConnectionEnd.cpp:340-458 | Which mbedtls operation a call begins, and when the read loop is left |
| `ConnectionEnds.CallReturns` | Protocol/PMbedTLSConnectionEnd.cpp:1315-1375 | One mbedtls call, with all its callbacks, is a run of the session |
| `ConnectionEnds.CallsAreRuns` | Protocol/PMbedTLSConnectionEnd.cpp:1317-1352 | All the mbedtls_ssl_read calls of one DoSSLRead are a run of the session: what every run keeps, the object keeps |
| `ConnectionEnds.ConnectionEnd.constructor` | Protocol/PMbedTLSConnectionEnd.cpp:1573-1591 | The fields start in the configured state |
| `ConnectionEnds.ConnectionEnd.MoveSegments` | Protocol/PMbedTLSConnectionEnd.cpp:754-761 | The loop moves every queued segment, in order, behind the list to put, and says whether there was one |
| `ConnectionEnds.ConnectionEnd.PutCompleteCB` | Protocol/PMbedTLSConnectionEnd.cpp:742-774 | The object's fields move as the completed put prescribes, with nested completions re-entering it |
| `ConnectionEnds.ConnectionEnd.SSLSendCallback` | Protocol/PMbedTLSConnectionEnd.cpp:1381-1405 | Returns the length, or the pending error; the fields move as one send |
| `ConnectionEnds.ConnectionEnd.GetCompleteCB` | Protocol/PMbedTLSConnectionEnd.cpp:791-825 | Error, end of file or the segment's first bytes reach the receive fields, and the retry message is queued unless the callback is in progress |
| `ConnectionEnds.ConnectionEnd.SSLRecvCallback` | Protocol/PMbedTLSConnectionEnd.cpp:1411-1451 | Returns the error, 0, WANT_READ or the bytes of the receive step, for a request answered at once or not, and clears its progress flag |
| `ConnectionEnds.ConnectionEnd.DoSSLHandshake` | Protocol/PMbedTLSConnectionEnd.cpp:1359-1375 | Runs one handshake call and sets the two flags as its result demands |
| `ConnectionEnds.ConnectionEnd.AppendRead` | Protocol/PMbedTLSConnectionEnd.cpp:1319-1329 | Bytes written after the count extend the client's data; at the threshold exactly these are sent and the buffer is disposed of |
| `ConnectionEnds.ConnectionEnd.FailRead` | Protocol/PMbedTLSConnectionEnd.cpp:1332-1350 | The session is closed and the client gets what was read with the status; a buffer that held nothing is kept |
| `ConnectionEnds.ConnectionEnd.StartRead` | Protocol/PMbedTLSConnectionEnd.cpp:389-393 | The read buffer is as large as the client asked for, and empty |
| `ConnectionEnds.ConnectionEnd.DoSSLRead` | Protocol/PMbedTLSConnectionEnd.cpp:1315-1353 | For every finite list of mbedtls_ssl_read calls that leads out of the loop, the end of the stream among them, the loop makes exactly these; when it is left at all is Runs.ReadLoopEnds |
| `ConnectionEnds.ConnectionEnd.GetBytesImmediateStart` | Protocol/PMbedTLSConnectionEnd.cpp:381-402 | Refused exactly without a session or with a get in progress, and then nothing changes; else the get is accepted and its read run |
| `ConnectionEnds.ConnectionEnd.GetBytesStart` | Protocol/PMbedTLSConnectionEnd.cpp:340-361 | The same with threshold 0 |
| `ConnectionEnds.ConnectionEnd.HandleRequest` | Protocol/PMbedTLSConnectionEnd.cpp:439-453 | The retry message runs the suspended handshake or read, or nothing |
| `ConnectionEnds.ConnectionEnd.ConnectCompleteCB` | Protocol/PMbedTLSConnectionEnd.cpp:695-699 | A connected transport starts the handshake |
| `ConnectionEnds.ConnectionEnd.PutBytesStart` | Protocol/PMbedTLSConnectionEnd.cpp:274-301 | Refused exactly while closing or without a session; else the write is run, and any failure ends the session |
| `ConnectionEnds.ConnectionEnd.TerminateStart` | Protocol/PMbedTLSConnectionEnd.cpp:259-266 | An established session sends its close notification and closes; otherwise nothing changes |
| `Bytes.FlattenAppend` | BufferInterface.md:198-199 | Appending segments to a list appends their bytes |
| `Words.OrBelow` | NewtonRuntime/_udivsi3.s:51 | Setting a bit below all bits of the result adds its weight |
| `Words.XorTopBit` | NewtonRuntime/_divsi3.s:80 | The sign of the exclusive or says whether the signs differ |
| `Words.SingleBit` | NewtonRuntime/_divsi3.s:83-90 | A word that shares no bit with its predecessor is a power of two |
| `Division.QuotientUnique` | NewtonRuntime/_udivsi3.s:76-83 | A remainder below the divisor pins down quotient and remainder |
| `Division.HalveWeight` | NewtonRuntime/_udivsi3.s:49-60 | One subtraction at half the weight keeps dividend = rest + quotient * divisor and rest below the divisor |
| `Division.SubtractAt` | NewtonRuntime/_udivsi3.s:49-60 | Above weight 1 the partial quotient stays exact; below, whatever is subtracted too much, the result stays the quotient |
| `Division.LoopExit` | NewtonRuntime/_udivsi3.s:61-66 | At weight 1, or early with nothing left, the result is the quotient |
| `Division.ScaleDivisor` | NewtonRuntime/_udivsi3.s:26-43 | Both scaling loops end, shift no bit out, keep divisor = b * bit, and leave the dividend below twice the divisor |
| `Division.DivisionLoop` | NewtonRuntime/_udivsi3.s:44-64 | The unrolled loop ends with the quotient, from any divisor and bit scaled together |
| `Division.Udivsi3` | NewtonRuntime/_udivsi3.s:18-67 | The quotient for every dividend and non-zero divisor |
| `Division.ArmDivBody` | NewtonRuntime/_divsi3.s:2-51 | The same with the first shift by three |
| `Division.ArmDiv2Order` | NewtonRuntime/_divsi3.s:53-72 | The bisection finds the exponent of every power of two |
| `Division.UnsignedQuotient` | NewtonRuntime/_divsi3.s:89-92 | The shift for powers of two and the loops agree on the quotient |
| `Division.Divsi3` | NewtonRuntime/_divsi3.s:77-112 | The quotient truncated toward zero, modulo 2^32, on all four routes, for every pair of words with a non-zero divisor |
| `Division.QuotientFits` | NewtonRuntime/_divsi3.s:77-112 | The wrapped quotient is the true one if and only if the operands are not -2^31 and -1 |
| `Division.RemainderBounds` | NewtonRuntime/_udivsi3.s:85-93 | The signed remainder is smaller than the divisor in magnitude, and zero or of the dividend's sign |
| `Division.RemainderWord` | NewtonRuntime/_udivsi3.s:90-92 | Multiplying back and subtracting modulo 2^32 gives that remainder, even for -2^31 and -1 |
| `Division.Uidivmod` | NewtonRuntime/_udivsi3.s:76-83 | Quotient and remainder of every pair with a non-zero divisor |
| `Division.Idivmod` | NewtonRuntime/_udivsi3.s:86-93 | Truncated quotient and its remainder, for every pair with a non-zero divisor |
| `Modulo.FixupsFire` | NewtonRuntime/_umodsi3.s:68-75 | Which fix-ups fire, for every bit position: those of subtractions whose bit fell off the bottom, and those whose bit is still among the top three |
| `Modulo.LastPass` | NewtonRuntime/_umodsi3.s:62-75 | In a pass that ends at weight 1, undoing the recorded subtractions below it leaves the remainder, whatever was subtracted |
| `Modulo.FirstPass` | NewtonRuntime/_umodsi3.s:46-56 | What the first pass leaves and which subtractions it makes, as digits of the quotient |
| `Modulo.MisfiresInFirstPass` | NewtonRuntime/_umodsi3.s:23-61 | A fix-up fires in an early exit exactly for the inputs of Misfires |
| `Modulo.Scale` | NewtonRuntime/_umodsi3.s:23-40 | The scaling loops keep divisor = b * bit and end with the dividend below twice the divisor |
| `Modulo.Pass` | NewtonRuntime/_umodsi3.s:45-56 | One pass leaves what four conditional subtractions leave, and records the last three |
| `Modulo.FixUp` | NewtonRuntime/_umodsi3.s:68-75 | The fix-ups after the loop add back exactly the firing steps, without overflow |
| `Modulo.AtExit` | NewtonRuntime/_umodsi3.s:58-75 | Leaving the loop, early or not, the fixed-up dividend is the remainder if and only if no fix-up fires by mistake |
| `Modulo.DivisionLoop` | NewtonRuntime/_umodsi3.s:41-61 | The loop ends, keeps the dividend congruent modulo the divisor, and can misfire only if its first pass does |
| `Modulo.Umodsi3` | NewtonRuntime/_umodsi3.s:17-76 | For every pair with a non-zero divisor the result is the remainder if and only if the pair is not a misfire, a condition on the operands alone |
| `Modulo.MisfiresOnlyBelow4` | NewtonRuntime/_umodsi3.s:62-67 | Every misfire has a divisor of 1, 2 or 3 that divides the dividend, so every divisor from 4 is safe |
| `Modulo.MisfiresOccur` | NewtonRuntime/_umodsi3.s:62-75 | Misfires occur for each of the three divisors |
| `Modulo.WrongRemainder` | NewtonRuntime/_umodsi3.s:17-76 | The routine returns a wrong remainder of 0x60000000 by 1 |
| `Calendar.YearOfEraCorrect` | Protocol/NewtonBindings.cpp:150-153 | Year and day of an era are in range, and a 366th day only occurs in a leap year |
| `Calendar.MonthFromMarch` | Protocol/NewtonBindings.cpp:154-156 | Month and day of a March-based year are in range, with the lengths of the months, and the unsigned addition wraps to 0 to 11 |
| `Calendar.CivilCorrect` | Protocol/NewtonBindings.cpp:146-161 | Every day number, of any sign, gives a valid proleptic Gregorian date whose count by summed year and month lengths is that day |
| `Calendar.DaysSince1904Correct` | Protocol/NewtonBindings.cpp:177-185 | The closed formula counts the days from 1904-01-01 that summing year and month lengths counts, for every valid date |
| `Calendar.DayCountIncreases` | Protocol/NewtonBindings.cpp:177-185 | A later date has a larger day count |
| `Calendar.DateRoundTrip` | Protocol/NewtonBindings.cpp:146-185 | Every valid date survives the conversion to a day number and back |
| `Calendar.DayRoundTrip` | Protocol/NewtonBindings.cpp:146-185 | Every day number survives the conversion to a date and back |
| `Calendar.MinutesFitLong` | Protocol/NewtonBindings.cpp:171-188 | The minutes are 1440 times the day count if and only if the date is from -2180-12-08 to 5987-01-23; the 32-bit long wraps for all others |
| `Calendar.MinutesWrap` | Protocol/NewtonBindings.cpp:171-188 | For every date the result is the minutes modulo 2^32, in the range of a signed long |
| `Calendar.MinutesIncrease` | Protocol/NewtonBindings.cpp:171-188 | Between those dates a later date has more minutes |
| `Calendar.WeekdayCycles` | Protocol/NewtonBindings.cpp:158 | Weekdays are in range, day 0 is a Thursday, and each day has the weekday after that of the day before, on both sides of 1970 |
| `Calendar.YdayIsNeverFromJanuary` | Protocol/NewtonBindings.cpp:163 | The stored day of the year is C's for no day at all |
| `Calendar.YdayIsFromMarch` | Protocol/NewtonBindings.cpp:150-163 | It is the number of days since the first of March, for every day |
| `Calendar.GmtimeR` | Protocol/NewtonBindings.cpp:137-166 | The fields hold a valid date and time of day that together are the 32-bit seconds since 1970 |
| `Printf.Sink.Put` | NewtonRuntime/printf.c:133-138 | One character goes to the buffer if it fits and is counted in any case; nothing else changes |
| `Printf.Sink.OutRev` | NewtonRuntime/printf.c:199-223 | Pads on one side and reverses the scratch buffer |
| `Printf.NtoaFormat` | NewtonRuntime/printf.c:227-277 | The scratch loops and tests produce the field of its specification, within 32 characters |
| `Printf.FillDigits` | NewtonRuntime/printf.c:292-298 | The digit loop ends within 32 characters, lowest digit first |
| `Printf.NtoaLong` | NewtonRuntime/printf.c:281-326 | One integer conversion, of either width, prints the field of its specification |
| `Printf.StrnlenS` | NewtonRuntime/printf.c:171-176 | The length of the string or the limit, whichever is smaller |
| `Printf.PutStringField` | NewtonRuntime/printf.c:796-820 | A string conversion shows the string up to the precision, padded to the width |
| `Printf.PutCharField` | NewtonRuntime/printf.c:776-794 | A character conversion shows one character, padded to the width |
| `Printf.PutInteger` | NewtonRuntime/printf.c:684-756 | Base, case, sign and padding flags and the argument's conversion are those of the specification |
| `Printf.ReadDirective` | NewtonRuntime/printf.c:601-680 | The format pointer passes over flags, width, precision and length and collects them as the grammar of directives says |
| `Printf.Print` | NewtonRuntime/printf.c:587-850 | The loop prints the rendering of every well-formed format |
| `Printf.Snprintf` | NewtonRuntime/printf.c:883-890 | The count returned is that of the whole text whatever the size; the buffer holds the longest prefix that leaves room for a terminator, then the terminator, and nothing else in it changes; size 0 and no buffer included |
| `PrintfLaws.FormattedShape` | NewtonRuntime/printf.c:227-277 | The scratch buffer holds sign, zeros and digits, for every length, full or not |
| `PrintfLaws.CodeBodyShape` | NewtonRuntime/printf.c:227-301 | With room, what is printed is the sign, zeros up to the count, and the digits |
| `PrintfLaws.ConformingBody` | NewtonRuntime/printf.c:227-301 | Sign and digits are those of section 7.21.6.1 of ISO/IEC 9899:2011 when they fit the scratch buffer and the minus flag meets no precision above the number of digits |
| `PrintfLaws.BodyIsIso` | NewtonRuntime/printf.c:227-301 | The sign and the digits, before they are padded to the width, are the standard's if and only if that is so |
| `PrintfLaws.FieldIsIso` | NewtonRuntime/printf.c:199-301 | What is printed is the standard's field if and only if its sign and digits conform, or 32 digits leave no room for a space sign that the padding then supplies; that field has exactly max(width, sign + max(digits, precision)) characters |
| `PrintfLaws.PadsDiffer` | NewtonRuntime/printf.c:202-220 | Padding never makes up for a shorter body that begins, or ends, with no space |
| `PrintfLaws.MinusDropsPrecision` | NewtonRuntime/printf.c:230-240 | A concrete conversion with the minus flag prints no zeros of its precision, against the standard's field |
| `PrintfLaws.SpaceLost` | NewtonRuntime/printf.c:264-274 | The supplied space occurs, and without padding to supply it the same conversion is wrong |
| `PrintfLaws.HashDropsDigits` | NewtonRuntime/printf.c:242-249 | A concrete conversion with `#` prints two digits of four, against the standard's field |
| `PrintfLaws.DigitsRead` | NewtonRuntime/printf.c:293-297 | Reading the digits of a value in their base gives the value, for every value and base |
| `PrintfLaws.FieldReadsBack` | NewtonRuntime/printf.c:199-326 | Reading a field gives its number for every width, precision and flags but `#`, when it fits the scratch buffer |
| `PrintfLaws.IntegerRoundTrip` | NewtonRuntime/printf.c:683-756 | Every integer conversion without `#` reads back as its argument, for all 32-bit and 64-bit values (in base 2, of at most 32 digits), precision below 32 and zero-padded width up to 32 |
| `PrintfLaws.FieldWidths` | NewtonRuntime/printf.c:776-820 | Strings and characters take max(width, what is shown) |
| `PrintfLaws.PlainCharIsUnsigned` | NewtonRuntime/printf.c:735 | The hh length with a signed conversion is that of signed char if and only if the low byte is below 128 |
| `PrintfLaws.HashIsIso` | NewtonRuntime/printf.c:242-262 | With `#` in base 8 and 16, for every value, precision and width, the printed field is the standard's if and only if: there is room for the prefix in 32 characters, or an octal precision of 32 supplies it; the digits do not fill the field by themselves or leave one place where the prefix takes two; the octal prefix and the precision do not both add a zero, the minus flag forgets none, and zero is not octal with precision 0 |
| `PrintfLaws.ParseIsIso` | NewtonRuntime/printf.c:631-644 | A directive is parsed as the standard says if and only if its precision is not a negative argument |
| `PrintfLaws.NegativeIsZero` | NewtonRuntime/printf.c:639-642 | A negative precision argument is read as a precision of zero instead of none |
| `PrintfLaws.NegativePrecisionString` | NewtonRuntime/printf.c:796-820 | A string with such a precision prints as the standard asks if and only if it is all spaces and no longer than the width |
| `PrintfLaws.NegativePrecisionInt` | NewtonRuntime/printf.c:684-756 | An integer with such a precision prints as the standard asks if and only if it is not zero and no zeros would pad its field |
| `PrintfDirectives.SignedReadsBack` | NewtonRuntime/printf.c:721-738 | What d and i print reads back in base 10 as the argument converted to long long, long, plain char, short or int: equal within the range, congruent and in the range outside it |
| `PrintfDirectives.UnsignedReadsBack` | NewtonRuntime/printf.c:690-705 | What u, x, X, o and b print reads back in base 10, 16, 16, 8 and 2 as the argument converted to the unsigned type of its length |
| `PrintfDirectives.FlagsPassed` | NewtonRuntime/printf.c:702-719 | Signs only for d and i, no zero flag with a precision, capitals only for X, no hash in decimal, and everything else as given |
| `PrintfDirectives.LetterCase` | NewtonRuntime/printf.c:706-709 | X prints no small letters, in digits or prefix, and the other integer conversions no capitals |
| `PrintfDirectives.BinaryPrefix` | NewtonRuntime/printf.c:256-261 | With `#` the binary prefix is printed whole if and only if the digits do not fill the field by themselves |
| `PrintfDirectives.FlagsTaken` | NewtonRuntime/printf.c:601-612 | Every flag character sets its own flag, and parsing stops behind them |
| `PrintfDirectives.NumberTaken` | NewtonRuntime/printf.c:188-195 | A decimal number is read as its value modulo 2^32, up to its last digit |
| `PrintfDirectives.WidthTaken` | NewtonRuntime/printf.c:614-629 | The width is none, the number, or the magnitude of an argument whose sign is a minus flag |
| `PrintfDirectives.PrecisionTaken` | NewtonRuntime/printf.c:631-644 | The precision is 0 behind a dot alone, the number, or the argument, 0 if negative |
| `PrintfDirectives.LengthTaken` | NewtonRuntime/printf.c:646-680 | Each length modifier sets its flags, and no other |
| `PrintfDirectives.ParseSpelled` | NewtonRuntime/printf.c:601-680 | Parsing inverts spelling: flags, width, precision and length of every directive come back as spelled, with the arguments its stars take |
| `PrintfDirectives.LiteralText` | NewtonRuntime/printf.c:590-595 | Characters without a percent sign print as they are |
| `PrintfDirectives.DirectiveText` | NewtonRuntime/printf.c:682-849 | A directive prints the text of its conversion with the flags and numbers it spells, takes one argument if it needs one, and the rest of the format is printed with the others |
| `PrintfDirectives.PrintsDecimal` | NewtonRuntime/printf.c:721-738 | From the format to the number: the text of any d or i directive reads back as its argument |
| `PrintfDirectives.CharSides` | NewtonRuntime/printf.c:776-794 | The character stands on the side the minus flag says, all else is spaces |
| `PrintfDirectives.StringSides` | NewtonRuntime/printf.c:796-820 | So does the string, as many characters from its beginning as the precision allows |
| `PrintfDirectives.PointerText` | NewtonRuntime/printf.c:822-838 | A pointer is eight hexadecimal digits that read back as it |
| `Certificates.Find` | Protocol/PMbedTLS.cpp:208-216 | A query by tag gives an entry of that tag, or there is none |
| `Certificates.FindsFirst` | Protocol/PMbedTLS.cpp:208-216 | A query finds the first entry of the tag, wherever it is in the soup |
| `Certificates.UserOverrides` | Protocol/PMbedTLS.cpp:215-232 | The user's first entry of a tag is used whatever the package has; without one, the first of the package; else none |
| `Certificates.CertificateInSlots` | Protocol/PMbedTLS.cpp:233-243 | The certificate is the pem slot's binary whatever der holds, or the der slot's where pem is nil; none without trust, or with another pem |
| `Certificates.GetRootCertificate` | Protocol/PMbedTLS.cpp:201-266 | The size or -1; the certificate is written and its size reported exactly when it fits, else nothing is written |
| `Certificates.PutName` | Protocol/PMbedTLS.cpp:301-315 | One name and its terminator extend the text: all of it counts, and what the buffer holds stays a prefix |
| `Certificates.ListRootCertificates` | Protocol/PMbedTLS.cpp:272-354 | The size is that of all names; the buffer holds the prefix that fits, across both loops, and nothing else changes |
| `Certificates.ListTextIsPacked` | Protocol/PMbedTLS.cpp:292-339 | The text is the names of the entries listed, packed in order |
| `Certificates.SplitPack` | Protocol/PMbedTLSConnectionEnd.cpp:1539-1552 | Splitting packed names at their terminators gives them back |
| `Certificates.ListSplits` | Protocol/PMbedTLS.cpp:292-339 | Splitting the list gives the names of the listed entries, in order |
| `Certificates.NameIsTag` | Protocol/PMbedTLS.cpp:303-314 | A name is its tag if and only if every character of the tag is a non-zero byte |
| `Certificates.NameOfTag` | Protocol/PMbedTLS.cpp:303-314 | A name is the low bytes of its tag, as long as none of them is zero |
| `Certificates.QueryableTags` | Protocol/PMbedTLS.cpp:211-214 | The query for a name finds its tag if and only if no low byte of the tag is zero and the system's encoding gives back every character from its low byte |
| `Certificates.UnhiddenMembers` | Protocol/PMbedTLS.cpp:292-317 | The package loop lists exactly the entries whose tag the user does not have |
| `Certificates.UnhiddenOrder` | Protocol/PMbedTLS.cpp:292-317 | They are listed in their order |
| `Certificates.VisitsAll` | Protocol/PMbedTLS.cpp:320-338 | The user loop visits every entry if and only if its cursor moves by one or there is one at most |
| `Certificates.VisitedAt` | Protocol/PMbedTLS.cpp:320-338 | The cursor visits every step-th entry, from the first |
| `Certificates.SkipsSecond` | Protocol/PMbedTLS.cpp:337 | Of two user entries a cursor that moves further lists the first only |
| `Certificates.ListedOnce` | Protocol/PMbedTLS.cpp:292-339 | Every package entry without a user entry is listed, nothing else but user entries is, and with distinct tags in each soup no tag twice |
| `Certificates.ListedOrder` | Protocol/PMbedTLS.cpp:292-339 | The package's entries come first, the user's after them |
| `Certificates.DistrustSuppresses` | Protocol/PMbedTLS.cpp:233-236 | A user entry without trust disables the certificate of its tag |
| `Certificates.ReadName` | Protocol/PMbedTLSConnectionEnd.cpp:1537-1551 | The C string at a position of the list is the name packed there |
| `Certificates.RoomIsLargest` | Protocol/PMbedTLSConnectionEnd.cpp:1540-1548 | The buffer is as large as the largest certificate so far: one is too large for it exactly when it is not empty and larger than all before |
| `Certificates.OnceOrTwice` | Protocol/PMbedTLSConnectionEnd.cpp:1539-1552 | Every name is asked once, and a second time exactly if its certificate is larger than all before it |
| `Certificates.LoadNames` | Protocol/PMbedTLSConnectionEnd.cpp:1535-1552 | The loop with its growing buffer ends, parses the exact certificates of the names in order, and asks for the names in order, each of them as often as OnceOrTwice says |
| `Certificates.LoadRootCertificates` | Protocol/PMbedTLSConnectionEnd.cpp:1524-1554 | Listing, then loading: the same parsing and the same queries over the names listed |
| `Certificates.FindsItself` | Protocol/PMbedTLS.cpp:208-216 | With distinct tags a query for an entry's tag finds that entry |
| `Certificates.LoadsExactlyListed` | Protocol/PMbedTLSConnectionEnd.cpp:1539-1552 | With distinct tags that the system's encoding gives back, what is parsed are the certificates of the trusted entries listed, each once, in the order of the list |

## Left out

- ConnectionEnds.ConnectionEnd.PutBytesStart: the plaintext the client puts and the number of bytes mbedtls_ssl_write accepts of it, which happen inside mbedtls; the flags and the refusals are modelled, and the callbacks that carry the encrypted bytes.
- ConnectionEnds.ConnectionEnd.DoSSLRead: that mbedtls makes finitely many calls is given with the list of them; Runs.ReadLoopEnds and Runs.EofHangs say when there is no end to them.
- ConnectionEnds.ConnectionEnd.HandleRequest: the threshold is the client's, kept across retries; the call forwarded to the client's own handler and the timer tick are not modelled.
- ConnectionEnds.ConnectionEnd.ConnectCompleteCB: only with TLS enabled and a successful connection; the upgrade of a plain connection (`mUpgradable`) and its failure path, options, host names and timers.
- ConnectionEnds.ConnectionEnd.constructor: SSLConfigure also sets up entropy, the mbedtls contexts and a heap, and can fail to; only the fields are modelled, and the certificate loop in the module Certificates.
- Sending.StartPutKeeps: the argument that lists how nested puts complete is finite, so an inet end that completes puts at once for ever is not modelled, and neither are errors of the memory manager.
- Receiving.StreamKeptIffItFits: the receive and put buffers are values, as are segments and lists of segments; aliasing and disposal of these blocks are not captured. The client's read buffer is an array.
- Calendar.GmtimeR: the offset from Greenwich is a parameter, and the difference between the two epochs is the constant of the code, about which nothing is claimed.
- Calendar.MinutesFitLong: the conversion of the result to 32 bits wraps, as the machine does; C leaves a signed overflow undefined, and intermediate `int` results of years beyond four million are not checked one by one.
- Printf.Snprintf: lengths do not wrap at 2^32, and the conversion of the count to int is not modelled; formats are those whose directives are complete and whose arguments are given, without floating point. `printf_`, `sprintf_`, `vprintf_` and `fctprintf` share the loop and differ in the output function.
- PrintfLaws.HashIsIso: base 2, which the standard does not have; PrintfDirectives.BinaryPrefix has its prefix.
- PrintfDirectives.BinaryPrefix: fields padded with zeros.
- PrintfDirectives.PointerText: pointers with flags or a precision, which the standard leaves open.
- PrintfLaws.NegativePrecisionInt: base 2, and integers with `#`, whose field without a precision is that of PrintfLaws.HashIsIso.
- Certificates.ListRootCertificates: a buffer of size 0 while there is something to list, which the callers never pass and for which the code has no end of the buffer to meet; exceptions of the store and their codes; soups do not change during a call.
- Certificates.GetRootCertificate: called with a size; the encoding of strings is a parameter that maps single characters, the query compares tags character by character, without the case folding of the system, and store exceptions do not occur.
- Certificates.LoadRootCertificates: mbedtls_x509_crt_parse, which receives the bytes, and its result.
- Division by zero raises the system's exception; it is the outcome `DivideByZero` here.
- The registry of objects shared with NewtonScript: its destructors depend on a garbage collector that clears weak references, which is not part of the repository.
- TLS, X.509, random numbers, the NewtonScript bindings, the event handlers and the jump tables: other software, or forwarding to it.
