# Verified models of dc, aan, ed, ar, calls and factor

This project models the core of six programs and proves what they are for. Code that works in place is
modelled in place: digit buffers with a cursor, line tables, block caches, member chains and stacks are
classes whose methods are proved against functions on sequences, and the promises are proved about those
functions.

* **dc** (`Arith`, `Dc*.dfy`). Numbers are strings of base-100 digits, lowest first; a negative number has a
  top digit of -1. `DcDigits.Val` is the integer such a string stands for, `DcDigits.Normal` the form every
  operation leaves, and `DcBlk.Blk` the buffer with its read cursor. Each stored digit has the type `Char`
  (-128 to 127), so every store in every loop is a proof that it fits. Addition, change of sign,
  multiplication, division, square root, powers, decimal shifts, printing and reading are exact. Division
  guesses each digit from two or three leading digits, may guess low and store digits above 99, and repairs
  the last digit and the carries afterwards; the invariant is `DcDivStep.Working`.
* **aan** (`Aan*.dfy`). `AanProtocol` is the two endpoints and the network as a state machine, with runs over
  any interleaving of both sides' steps, lost connections and redials. `AanEndpoint.Endpoint` is one endpoint
  with its queues of buffers changed in place; each method is one step of the protocol.
* **ed** (`Ed*.dfy`). `EdFile.TempFile` is the text log behind two block buffers, `EdLines.Table` the line
  table, and `EdEditor` the commands that need both.
* **calls** (`Calls.dfy`). The recursive listing of a call graph that may have cycles.
* **factor** (`Factor.dfy`). Trial division along a wheel of the numbers prime to 210.
* **ar** (`Ar*.dfy`). `ArSystem.Machine` says of every call of malloc, create and write whether it succeeds, and
  how far a failed write gets; every proof is for all such machines. `ArStore` has the temporary files, chains
  of members that may be spilled to disk at any allocation; `ArIndex` the symbol index; `Ar` the globals and
  the operations on them; `ArRun` whole runs.

Where the code does something other than one would expect, the model follows the code:

* `dcexp` with a negative exponent keeps only the base's last digit. It is the truncated reciprocal unless the
  base is -1 and is stored as `[99, -1]` or the exponent is even (`DcPowers.ReciprocalExact`, with a concrete
  input in `DcPowers.ReciprocalCounterexample`).
* `removc` rounds towards minus infinity when it drops pairs of places of a negative number. It cuts the
  fraction off exactly when the number is not below zero, or has no digit left, or loses only zeros in those
  pairs, or loses one more place above them and that is not a nine (`DcShift.RemovcTruncates`, with a concrete
  input in `DcShift.RemovcRoundsDown`).
* In `mult` the carry left over at the end of a row always lands past the end, so the addition to an existing
  digit is never needed (`DcMult.MultRow`). In `tenot` the last test, for a single decimal left over, is never
  true.
* `tenot` prints no zero before the point, except that a number whose digits are all decimals, an odd number of
  them, is printed with one (`DcNotation.PartsAre`).
* An aan endpoint takes acknowledgements only from data messages. It has a buffer left exactly while fewer than
  `Nbuf` messages are numbered past the last acknowledgement (`AanProtocol.WindowBound`), so an endpoint whose
  peer's client sends nothing stops after `Nbuf` of them; `AanProtocol.StalledRun` is such a run, with every
  message delivered and the connection up.
* In `ar` a write to a temporary file that fails part of the way leaves its bytes there while the member stays
  in core, and another file may then be spilled instead. The run can so end well with a wrong archive
  (`ArRun.TornRun` is one). The archive is right exactly when no write to a temporary file failed part of the
  way (`Ar.Archive.Install`, `ArRun.Rebuild`). An index entry holds the offset modulo 2^32.
* `calls` says that the nesting is too deep only when a path of calls from the root, with no function on it
  twice before its end, is longer than the stack. In full mode it then always says so; in terse mode, which
  goes through each function once, that depends on which functions were gone through before.
* In `ed`, "v/re/d" on an empty buffer marks the entry before the first line, and the deletion then leaves the
  last line before that entry (`EdLines.Table.Mark` and `EdLines.Table.DeleteHits` say exactly when).

## Model

| member | source | states |
|---|---|---|
| DcDigits.SignIsTop | sys/src/cmd/dc.c:1342-1350 | a number is negative exactly when its top digit is -1, which is how every operation tests the sign |
| DcDigits.CanonicalUnique | sys/src/cmd/dc.c:1392-1425 | two strings in normal form with the same value are the same string, `[99, -1]` aside |
| DcBlk.Put | sys/src/cmd/dc.c:39-41 | writing at the cursor replaces the digit there or extends the buffer by one, and changes nothing else |
| DcAdd.NegatedValue | sys/src/cmd/dc.c:1392-1425 | complementing each digit and closing the top negates the value |
| DcAdd.NegatedCanonical | sys/src/cmd/dc.c:1409-1423 | change of sign turns any normal form into the canonical one |
| DcAdd.NegatedTwice | sys/src/cmd/dc.c:1392-1425 | two changes of sign restore the digits |
| DcAdd.ComplementInPlace | sys/src/cmd/dc.c:1398-1408 | the digit loop, run in the buffer, leaves the complement and its carry |
| DcAdd.Chsign | sys/src/cmd/dc.c:1392-1425 | the buffer holds the negated number, in canonical form |
| DcAdd.ColumnsValue | sys/src/cmd/dc.c:1772-1786 | the digits so far and the carry or borrow are the sum of the low digits of both operands, top digits of -1 included |
| DcAdd.SumValue | sys/src/cmd/dc.c:1762-1809 | the digits left after zeros are stripped and 99s collapsed are the sum, in normal form |
| DcAdd.AddColumns | sys/src/cmd/dc.c:1767-1786 | the column loop over two cursors computes those digits and that carry |
| DcAdd.StripZerosOnce | sys/src/cmd/dc.c:1789-1797 | all zeros on top go, and nothing else |
| DcAdd.BackOverNines | sys/src/cmd/dc.c:1798-1804 | the cursor stops on the last digit to keep below a run of 99s under -1 |
| DcAdd.CollapseNines | sys/src/cmd/dc.c:1798-1807 | the run of 99s under a top -1 is removed, except the lowest digit |
| DcAdd.Add | sys/src/cmd/dc.c:1761-1809 | the result is a fresh normal number whose value is the sum |
| DcMult.RowValue | sys/src/cmd/dc.c:1369-1375 | part of a row and its carry are the old digits plus the product of the digits done, in their place |
| DcMult.RowAddedValue | sys/src/cmd/dc.c:1364-1381 | one row adds digit times multiplicand in place and grows by at most a nonzero digit |
| DcMult.MultRow | sys/src/cmd/dc.c:1365-1380 | the row loop, in the product buffer, computes that row |
| DcMult.ProductNormal | sys/src/cmd/dc.c:1360-1390 | the product of normal numbers has no zero on top though nothing strips it |
| DcMult.Mult | sys/src/cmd/dc.c:1334-1390 | the product of signed numbers is exact, with digits below 100 and in normal form |
| DcEstimate.EstimateInner | sys/src/cmd/dc.c:872-884 | a digit guessed before the last never overshoots, and what is left is under 1.18 divisors of the next place |
| DcEstimate.EstimateLast | sys/src/cmd/dc.c:872-884 | the last digit guessed is right, one too big, or, when flagged, perhaps one too small |
| DcDiv.LeadsDivisor | sys/src/cmd/dc.c:854-863 | the two or three scaled leading digits of the divisor bound its value |
| DcDiv.LeadBounds | sys/src/cmd/dc.c:866-871 | the three leading digits of the dividend bound its value |
| DcDiv.MultiplyInto | sys/src/cmd/dc.c:885-893 | the scratch buffer holds divisor times digit, each digit in range |
| DcDiv.SubtractedValue | sys/src/cmd/dc.c:894-907 | the digits left and the borrow are the difference, in place |
| DcDiv.SubtractFrom | sys/src/cmd/dc.c:894-907 | the subtraction loop, from the offset up to the dividend's end, computes those digits and that borrow |
| DcDivStep.InnerGuess | sys/src/cmd/dc.c:864-884 | for any working dividend within 118 divisors of its place the digit guessed is below 118 and leaves a working dividend for the next place |
| DcDivStep.LastGuess | sys/src/cmd/dc.c:864-884 | the same for the last place, with the undershoot flag |
| DcDivStep.InnerStep | sys/src/cmd/dc.c:885-918 | before the last place nothing is borrowed out, the top digit left is 0 or 1, and folding it down keeps the value and the invariant |
| DcDivStep.LastStep | sys/src/cmd/dc.c:885-918 | after the last place the remainder is short of the divisor, of twice the divisor when flagged, or negative by at most one divisor with a borrow |
| DcDivStep.FoldKeeps | sys/src/cmd/dc.c:911-918 | adding 100 to the digit under the top stands for the 1 dropped from the top |
| DcDivide.Guess | sys/src/cmd/dc.c:866-884 | the code reads and scales the leading digits as the estimate is defined |
| DcDivide.DivDigit | sys/src/cmd/dc.c:865-918 | one turn of the loop stores a digit at most 118 and takes that many divisors off the working dividend |
| DcDivide.DigitLoop | sys/src/cmd/dc.c:852-919 | all turns: the digits stored, not yet normalised, times the divisor, plus what is left, are the dividend |
| DcDivide.FixUnder | sys/src/cmd/dc.c:920-932 | a flagged last digit is raised exactly when the divisor still fits |
| DcDivide.FixOver | sys/src/cmd/dc.c:933-939 | after a borrow the last digit drops by one and the divisor is added back |
| DcDivide.PassCarries | sys/src/cmd/dc.c:941-952 | quotient digits up to 119 become digits below 100 of the same value |
| DcDivide.DivPlain | sys/src/cmd/dc.c:849-966 | for magnitudes: dividend = quotient * divisor + remainder, remainder below the divisor, both in normal form |
| DcDivide.PutSigns | sys/src/cmd/dc.c:959-969 | quotient and remainder get their signs and stay normal |
| DcDivide.QuotientUnique | sys/src/cmd/dc.c:816-974 | the promised quotient and remainder are unique |
| DcDivide.Div | sys/src/cmd/dc.c:816-974 | dividend = quotient * divisor + remainder, remainder smaller than the divisor and zero or of the dividend's sign, for all signs; division by zero yields the empty number and no remainder |
| DcPowers.NewtonAbove | sys/src/cmd/dc.c:1089-1095 | a Newton step from anywhere stays at or above the root |
| DcPowers.NewtonStops | sys/src/cmd/dc.c:1100-1106 | a step that does not go down was taken from the root |
| DcPowers.SeedAbove | sys/src/cmd/dc.c:1067-1087 | a digit whose square exceeds the leading pair, over zeros, is above the root |
| DcPowers.OddSeed | sys/src/cmd/dc.c:1076-1079 | subtracting odd numbers finds a digit whose square exceeds the leading pair |
| DcPowers.Seed | sys/src/cmd/dc.c:1067-1087 | the first guess is a normal number above the root |
| DcPowers.NewtonStep | sys/src/cmd/dc.c:1089-1095 | the step computed with div and add is at or above the root |
| DcPowers.NotBelow | sys/src/cmd/dc.c:1096-1103 | the sign of the sum tells whether the step went down |
| DcPowers.Dcsqrt | sys/src/cmd/dc.c:1061-1112 | for every positive p the loop ends with r * r <= p < (r + 1) * (r + 1) |
| DcPowers.PowerHalves | sys/src/cmd/dc.c:1133-1149 | halving the exponent and squaring the base keeps the power still to be computed |
| DcPowers.PowerLoop | sys/src/cmd/dc.c:1133-1149 | the loop ends with base to the exponent |
| DcPowers.Invert | sys/src/cmd/dc.c:1150-1164 | what the code leaves for a negative exponent |
| DcPowers.Dcexp | sys/src/cmd/dc.c:1114-1169 | base to any exponent of zero or more is exact and normal; for a negative one the result is one for the base one, minus one for the base `[-1]`, and zero for every other base |
| DcPowers.ReciprocalIs | sys/src/cmd/dc.c:1150-1164 | that is what the branch for negative exponents leaves for every base, zero included |
| DcPowers.ReciprocalExact | sys/src/cmd/dc.c:1150-1164 | that is the truncated quotient of one by the power if and only if the base is not -1, or is `[-1]` with an odd exponent |
| DcPowers.ReciprocalCounterexample | sys/src/cmd/dc.c:1157-1163 | -1 to the power -2 comes out as -1 |
| DcShift.DropPlaces | sys/src/cmd/dc.c:1841-1862 | dropping pairs of places and then a tenth is division by the power of ten, for numbers of zero or more |
| DcShift.DropDigits | sys/src/cmd/dc.c:1847-1853 | for either sign, what is left without the low digits is the value rounded down, and is normal |
| DcShift.Removc | sys/src/cmd/dc.c:1841-1862 | the value without n decimal places, exactly, for every normal number and n |
| DcShift.RemovcTruncates | sys/src/cmd/dc.c:1841-1862 | that is the value with the fraction cut off if and only if the number is not below zero, has no digit left, loses only zeros in the pairs dropped, or loses one more place that is not a nine |
| DcShift.RemovcRoundsDown | sys/src/cmd/dc.c:1841-1862 | removing two decimal places from -1 leaves -1, and -1 divided by 100 with the fraction cut off is 0 |
| DcText.Add0 | sys/src/cmd/dc.c:1311-1332 | appending n decimal zeros multiplies by ten to the n, odd n included |
| DcText.Scale | sys/src/cmd/dc.c:1874-1890 | the number keeps its value, and the scale goes on top of it |
| DcText.Accumulate | sys/src/cmd/dc.c:1288-1294 | one more digit makes ten times the number plus the digit |
| DcText.ReadDigits | sys/src/cmd/dc.c:1264-1297 | the loop reads just the text that the notation says is a number, and its digits |
| DcText.Readin | sys/src/cmd/dc.c:1256-1306 | the number and scale are what Scan, an independent reading of the text, says, and the input stands at the first character after it |
| DcText.DigitsAre | sys/src/cmd/dc.c:1276-1285 | the digits are 0 to 9 and A to F with the values 0 to 15, and no other character is one |
| DcText.NumberGoesOn | sys/src/cmd/dc.c:1266-1294 | a digit makes ten times the number plus the digit, one more decimal after the point and nothing past the 99th; the first point starts the decimals; a backslash hides the character after it |
| DcText.AfterScan | sys/src/cmd/dc.c:1266-1298 | a number ends before any other character and before a second point |
| DcText.PutWhole | sys/src/cmd/dc.c:1623-1633 | the digits before the point go out as pairs, the first without a zero before it, and read back as their value |
| DcText.PutPoint | sys/src/cmd/dc.c:1639-1647 | the point, and the digit pair it splits when the scale is odd, go out and read back right |
| DcText.PutDecimals | sys/src/cmd/dc.c:1648-1663 | leading zeros and the remaining pairs go out and read back as the decimals |
| DcText.Tenot | sys/src/cmd/dc.c:1618-1666 | what is printed is the parts of the number, with a line break just where the count of columns asks for one, and a newline; without the breaks it is the decimal notation; with them it reads back as the number with its scale |
| DcNotation.PartsAre | sys/src/cmd/dc.c:1617-1666 | without line breaks the parts are the decimal notation of the number: the whole part has no zero before it, and the decimals are as many as the scale; a whole part of zero is left out, or is one zero exactly when the scale is odd and the number has that many digits |
| DcNotation.NumeralIs | sys/src/cmd/dc.c:1623-1633 | such a whole part does not start with a zero and has just as many digits as the value needs |
| DcNotation.FoldsWhenFull | sys/src/cmd/dc.c:46-47 | no line break comes while there are columns left, and one comes as soon as there are none |
| DcText.RoundTrip | sys/src/cmd/dc.c:1256-1306 | for any positive number and a scale of 0 to 99 the text printed scans as that number with that scale, and reading it gives the same digits and scale |
| AanProtocol.RunKeeps | sys/src/cmd/aan.c:171-341 | every state of every run satisfies the invariant on buffers, numbers, acks, wires and delivered bytes |
| AanProtocol.StreamIsWhole | sys/src/cmd/aan.c:301-338 | whatever is lost and redialled, the bytes each side delivers are a prefix of those the other read, and all of them once the end was seen |
| AanProtocol.NeverFaults | sys/src/cmd/aan.c:317-331 | the assertion on ack order and a wait for a missing buffer are unreachable; the buffers are partitioned and numbered in sequence from lastacked, and ack values never go down with the message number |
| AanProtocol.NoGapOnTheWire | sys/src/cmd/aan.c:387-404 | in both directions, the numbered messages in flight are a run of those written, each as it was first, starting no later than the peer expects, and so is what would be resent |
| AanProtocol.DrainedIsCaughtUp | sys/src/cmd/aan.c:387-404 | in both directions, with a session up and its wire drained the peer has received all that was moved to unacked and written |
| AanProtocol.ReceivesRightly | sys/src/cmd/aan.c:293-337 | in every state of every run a keepalive or a message received before changes nothing, an end ends the receiver, and the next message is delivered and frees the buffers it newly acknowledges, oldest first |
| AanProtocol.WritesRightly | sys/src/cmd/aan.c:191-227 | in every state of every run the message written is the next one, with the piece read under its number and the count received as its ack; keepalives carry that ack; a resend is of all that is not acknowledged, each as it was first |
| AanProtocol.DoneAtEnd | sys/src/cmd/aan.c:224-227 | in every state of every run an endpoint is done if and only if it has seen the end of the other or the last message it wrote was its own end |
| AanProtocol.Recovers | sys/src/cmd/aan.c:171-190 | every run in which neither side is at its end can go on, over one new connection, until each side has delivered all that the other had written, whatever was lost |
| AanProtocol.WindowBound | sys/src/cmd/aan.c:141-149 | in both directions, an endpoint has a buffer left if and only if fewer than Nbuf messages are numbered, or being read, past the last ack it took, and that ack was really sent |
| AanProtocol.OneWayTrafficStalls | sys/src/cmd/aan.c:293-331 | in both directions, if the peer's client sends nothing, at most Nbuf messages are ever numbered, and no buffer is left exactly when they are |
| AanProtocol.StalledRun | sys/src/cmd/aan.c:171-341 | a run, in which no connection breaks and no client hangs up, that ends with Nbuf messages sent and received, nothing in flight and no buffer left |
| AanEndpoint.Endpoint.TakeEmpty | sys/src/cmd/aan.c:244 | refines the protocol step: a buffer passes to the client reader |
| AanEndpoint.Endpoint.ReadClient | sys/src/cmd/aan.c:245-258 | refines the protocol step: the piece is numbered in its buffer and queued |
| AanEndpoint.Endpoint.Queue | sys/src/cmd/aan.c:211-212 | refines the protocol step: unsent to unacked |
| AanEndpoint.Endpoint.Send | sys/src/cmd/aan.c:214-227 | refines the protocol step: the ack is stamped in place and the message goes out |
| AanEndpoint.Endpoint.Stamp | sys/src/cmd/aan.c:214 | the ack is set in the last buffer queued, and nothing else changes |
| AanEndpoint.Endpoint.ReturnAcked | sys/src/cmd/aan.c:318-331 | the loop succeeds exactly when the numbers match, and moves that many buffers back to empty |
| AanEndpoint.Endpoint.Receive | sys/src/cmd/aan.c:293-337 | refines the protocol step, faults included |
| AanEndpoint.Endpoint.Deliver | sys/src/cmd/aan.c:317-337 | the same for a message that is new |
| AanEndpoint.Endpoint.Keepalive | sys/src/cmd/aan.c:191-205 | the message sent, with no change of state |
| AanEndpoint.Endpoint.Synchronize | sys/src/cmd/aan.c:387-404 | refines the protocol step: all of unacked is resent in order and queued again as it was |
| EdFile.TempFile.GetBlock | sys/src/cmd/ed.c:1041-1074 | whichever block is wanted and whichever two are cached, no stored rune is lost and the buffer returned holds the block; it fails only past the last block |
| EdFile.RecordedGrows | sys/src/cmd/ed.c:1027-1029 | appending a record at an even address keeps every record, disjoint from the new one |
| EdFile.ReadBack | sys/src/cmd/ed.c:982-1000 | a record is its text, with no line end inside, and a zero after it, at an even address |
| EdFile.TempFile.PutRunes | sys/src/cmd/ed.c:1008-1026 | the copying loop, across blocks, stores the line up to its end, and succeeds exactly when that lies in the file |
| EdFile.TempFile.StoreRune | sys/src/cmd/ed.c:1014-1019 | one rune is stored, a newline as a zero, and the line is known to end exactly at its length |
| EdFile.TempFile.PutLine | sys/src/cmd/ed.c:1002-1030 | it succeeds exactly when the line ends before the last block does; a fresh even address is then added to the texts stored, with this line's text, and the next address is as the code rounds it |
| EdFile.TempFile.GetLine | sys/src/cmd/ed.c:982-1000 | the line buffer holds exactly the text stored, whatever the low bit of the address |
| EdEditor.Session | sys/src/cmd/ed.c:982-1074 | any interleaving of stores and fetches answers as a list of lines would, up to the first store that does not fit; the file is reported full exactly when there is one, and never while four runes a line to spare are left |
| EdEditor.RoomyFits | sys/src/cmd/ed.c:1027-1051 | all stores fit when the texts with four runes more each do |
| EdLines.ThreeFlips | sys/src/cmd/ed.c:1360-1368 | three reversals exchange two neighbouring blocks |
| EdLines.MovedPermutes | sys/src/cmd/ed.c:1331-1372 | the moved table is a permutation, the block and the rest keep their order, and the block stands right after the target |
| EdLines.Table.Reverse | sys/src/cmd/ed.c:1374-1386 | the loop reverses the block in place and touches nothing else |
| EdLines.Table.Exchange | sys/src/cmd/ed.c:1360-1368 | the three calls exchange the blocks in place |
| EdLines.Table.ClearMarks | sys/src/cmd/ed.c:1350-1352 | the marks of the lines moved are cleared, and no others |
| EdLines.Table.MoveBlock | sys/src/cmd/ed.c:1355-1371 | the lines are the block taken out and put back after the target, dot is its last line, and a target inside is refused |
| EdLines.Table.Move | sys/src/cmd/ed.c:1331-1372 | the whole of "m" |
| EdLines.Table.Insert | sys/src/cmd/ed.c:816-838 | a line is put after dot, with the table grown when it is full |
| EdLines.Table.RDelete | sys/src/cmd/ed.c:941-958 | the lines before and after the range remain, in order, and dot is the line after it or the last |
| EdLines.SweepWithout | sys/src/cmd/ed.c:1141-1149 | deleting one marked line does not change what deleting all of them leaves |
| EdLines.SweepPicks | sys/src/cmd/ed.c:960-980 | what sweeping the marked lines out leaves is just the lines that are not marked, in their order |
| EdLines.Table.Mark | sys/src/cmd/ed.c:1105-1132 | over the addresses given, or else the whole buffer, a line is marked if and only if it matches, or for "v" does not, and no address changes otherwise; wrong addresses are refused; entry 0 is marked exactly by "v" on an empty buffer |
| EdLines.Table.DeleteMarked | sys/src/cmd/ed.c:1142-1146 | clearing the mark of a line and deleting it leaves the unmarked lines as they were |
| EdLines.Table.GDelete | sys/src/cmd/ed.c:960-980 | the one-pass deletion leaves exactly the unmarked lines, in order, and the last line inside the table unless entry 0 is marked; dot is left after the last line deleted if there was another, or at the end |
| EdLines.Table.DeleteHits | sys/src/cmd/ed.c:1105-1140 | "g/re/d" and "v/re/d" leave exactly the lines they are not for, at places that go up, and dot as above; the end of the table falls before its start exactly for "v" on an empty buffer |
| EdLines.Table.GlobalDelete | sys/src/cmd/ed.c:1141-1149 | so does the loop it replaces, which deletes one line and starts again |
| EdLines.GlobalLoop | sys/src/cmd/ed.c:1141-1149 | for every command, with any hidden state, that sets no mark: the trace of tables starts at the given one, each is what the command makes of the one before with the first mark cleared and dot there, the commands are no more than the marks there were, and at the end no line is marked |
| EdEditor.CopyLine | sys/src/cmd/ed.c:1388-1395 | a copy of a line is stored at a new address with the same text, exactly when the file has room |
| EdEditor.AppendCopies | sys/src/cmd/ed.c:1340-1348 | the copies, at new addresses, are appended in order after the last line; all of them, exactly when the file has room; every text stored before stays |
| EdEditor.CopyLines | sys/src/cmd/ed.c:1331-1372 | "t": copies of equal text at new addresses stand after the target, all other lines and every text stored are as before, dot is the last copy, and the file and table are ready for the next command; this happens exactly when the file has room for all copies |
| Calls.Printer.MakeActive | sys/src/cmd/calls.c:364-374 | the name is pushed unless the stack is full |
| Calls.Printer.Active | sys/src/cmd/calls.c:380-389 | whether the name is on the stack below its top |
| Calls.Printer.Backup | sys/src/cmd/calls.c:352-357 | the top is popped |
| Calls.Printer.Output | sys/src/cmd/calls.c:401-454 | on any graph the recursion ends and restores the stack; the first line printed names the function and says what it is (too deep, recursive, external, a reference to the line it was marked with, or listed), and under it come the lines for each function it calls, in order; the nesting is said to be too deep only if some path of calls from the stack is, and in full mode exactly then; otherwise only newly reached functions are added, whose callees are all expanded in the end, and in terse mode the lines are one more than the calls of the functions added |
| Calls.Printer.Expand | sys/src/cmd/calls.c:432-449 | the same for the branch that lists a function and its calls |
| Calls.Printer.Refer | sys/src/cmd/calls.c:432-451 | a function seen before takes one line, with the number it was marked with if it calls anything, and expands nothing |
| Calls.Pigeonhole | sys/src/cmd/calls.c:364-374 | a stack of different defined functions is no deeper than there are definitions |
| Calls.DeepDown | sys/src/cmd/calls.c:401-454 | a path that is too deep from a function on the stack is too deep from one of its callees |
| Calls.FewIsShallow | sys/src/cmd/calls.c:364-374 | with fewer definitions than the stack holds no path is too deep |
| Calls.ExploredIsReachable | sys/src/cmd/calls.c:401-454 | functions closed under calls and reached from the root are exactly the reachable ones |
| Calls.OneListing | sys/src/cmd/calls.c:401-454 | so there is just one listing of a graph from given roots, in either mode |
| Calls.Tree | sys/src/cmd/calls.c:401-454 | one terse tree is the listing from its root, and unless a path from its root is too deep, expands every defined function its root reaches exactly once, and takes 1 + (their calls) lines; in the lines printed a function that calls anything is listed once, and every other mention is a reference to that line's number or a recursive call |
| Calls.MentionedOnce | sys/src/cmd/calls.c:431-452 | if every line is what a terse listing may hold, a function with calls is listed on one line only |
| Calls.ListRoots | sys/src/cmd/calls.c:467-474 | the same for the listing from the roots asked for, unknown ones left out; in full mode a line says the nesting is too deep if and only if a path from some root is |
| Calls.KnownPicks | sys/src/cmd/calls.c:467-474 | the roots listed are just those in the graph, in the order asked for |
| Calls.UncalledPicks | sys/src/cmd/calls.c:340-346 | with no roots asked for, they are just the names that no function but themselves calls, in the order of the table |
| Calls.Dumptree | sys/src/cmd/calls.c:460-484 | the listing from the roots asked for, or from all functions that no other one calls, each of which is named in it; it says the nesting is too deep only if a path from one of them is, and in full mode exactly then; otherwise it expands exactly what any of them reaches, once, with the same promise about the lines printed, and in terse mode takes one line for each root found and one for each call |
| Factor.Turns0 | sys/src/cmd/factor.c:7-14 | the first eight steps of the wheel pass only over multiples of 2, 3, 5 or 7 and stop on none |
| Factor.WheelIsRight | sys/src/cmd/factor.c:7-14 | so do all forty-eight, and they add up to 210 |
| Factor.NextOnWheel | sys/src/cmd/factor.c:79-80 | a step leads to the next number prime to 210, so the wheel visits all of them in order |
| Factor.SkipKeeps | sys/src/cmd/factor.c:79-80 | a number without the factors 2, 3, 5, 7 has no divisor among those skipped |
| Factor.LeastIsPrime | sys/src/cmd/factor.c:81-85 | the least divisor is prime, so what is printed is |
| Factor.RestIsPrime | sys/src/cmd/factor.c:87-94 | what has no divisor up to its root is prime |
| Factor.TakeOut | sys/src/cmd/factor.c:58-62 | a divisor is printed as often as it divides |
| Factor.WheelLoop | sys/src/cmd/factor.c:78-92 | the loop ends though d is compared with the root only once a turn, and what is left is one or a prime |
| Factor.Factor | sys/src/cmd/factor.c:48-96 | for every positive integer the numbers printed are primes, in order, whose product it is |
| ArBytes.FlatConcat | sys/src/cmd/ar.c:1071-1094 | members laid end to end can be cut between any two |
| ArStore.PlacedPage | sys/src/cmd/ar.c:1131-1157 | moving the first member from core to the end of the disk file keeps disk followed by core |
| ArStore.PlacedTorn | sys/src/cmd/ar.c:1149-1150 | a write that fails part of the way is accounted for |
| ArStore.Armember.Arwrite | sys/src/cmd/ar.c:1113-1129 | the header and the body rounded up to an even length |
| ArStore.Arfile.Arinsert | sys/src/cmd/ar.c:1068-1080 | the member is linked at the tail of the chain |
| ArStore.Arfile.Page | sys/src/cmd/ar.c:1131-1157 | the head member goes to disk and off the chain; or the file cannot be created and nothing changes; or the write fails and the disk grows by just the bytes it wrote; which of these is decided by the calls of create and write made |
| ArStore.Arfile.Arstream | sys/src/cmd/ar.c:1082-1111 | what is put out is everything inserted, in order, if and only if no write was torn |
| Ar.Archive.Getspace | sys/src/cmd/ar.c:1159-1174 | the files are tried in their order up to the first that gives a member up, which is the only one to do so; failure means that every file with a member in core refused; no file's members, symbols or size change, and bytes are left behind exactly when a write made failed part of the way |
| Ar.Archive.Armalloc | sys/src/cmd/ar.c:1190-1210 | for every pattern of failures the retry loop ends, one member leaves core for each malloc that failed but the last, and it gives up only when every file with a member in core has refused a spill; nothing but the place of members changes, and bytes are left behind exactly when a write made failed part of the way |
| Ar.Archive.Duplicate | sys/src/cmd/ar.c:591-613 | whether the text symbol was seen, entering it if not |
| Ar.Archive.Objsym | sys/src/cmd/ar.c:559-586 | a text or data symbol goes on the chain with the offset its member will have and is counted in symdefsize; a second text symbol of a name is left out and noticed |
| Ar.Archive.Scanobj | sys/src/cmd/ar.c:517-554 | with all members objects and no duplicate, all of a member's text and data symbols are in the chain, in order; duplicates are noticed exactly |
| Ar.ListedPicks | sys/src/cmd/ar.c:559-566 | the symbols listed of an object are just its text and data symbols, in order |
| Ar.TwiceIs | sys/src/cmd/ar.c:569-580 | that is when two text symbols have one name |
| Ar.Archive.Arcopy | sys/src/cmd/ar.c:751-767 | an old member is inserted with its bytes, its size is added, and the symbols scanned become its own |
| Ar.Archive.Armove | sys/src/cmd/ar.c:719-749 | the same for a file, odd lengths included |
| Ar.Archive.Keep | sys/src/cmd/ar.c:333-336 | scanning then copying, as the commands do, adds one member with just its symbols |
| Ar.Wrsym | sys/src/cmd/ar.c:862-881 | the chain is written entry by entry |
| Ar.Archive.Rl | sys/src/cmd/ar.c:817-860 | header, entries of the three files with their bases, and padding |
| Ar.Archive.Install | sys/src/cmd/ar.c:783-815 | nothing is written for duplicate symbols; otherwise the archive is index and members in order, if and only if no write to a temporary file since the start failed part of the way, and it is longer by just the bytes left behind |
| Ar.CompleteIsIndexed | sys/src/cmd/ar.c:559-586 | the chains install finds are those the index theorems speak of |
| ArRun.Add | sys/src/cmd/ar.c:333-336 | one more member, its buffer allocated with spilling, joins the file it is sent to and no other; it fails only if malloc does, and if malloc never does nothing is spilled |
| ArRun.Rebuild | sys/src/cmd/ar.c:407-449 | from an empty start, for all outcomes of malloc, create and write, any members sent to the three files in any order and installed: the run stops early only when malloc failed last; the archive is written unless all are objects and two text symbols have one name, and it is index and members as given if and only if no write to a temporary file failed part of the way |
| ArRun.PartPicks | sys/src/cmd/ar.c:407-449 | the members of each of the three files are just those sent to it, in order |
| ArRun.AllSymsAt | sys/src/cmd/ar.c:559-586 | the symbols looked through for duplicates are those of every object, one after another |
| ArRun.TornRun | sys/src/cmd/ar.c:1131-1174 | a failed malloc, a write that fails after one byte, and the next file spilled instead: the run ends well and the archive is wrong |
| ArRun.BuiltIndexIsRight | sys/src/cmd/ar.c:817-860 | the index of that archive has an entry if and only if some member given defines the symbol and stands at the offset |
| ArIndex.IndexLength | sys/src/cmd/ar.c:582 | the entries take just the bytes counted |
| ArIndex.EntryBytes | sys/src/cmd/ar.c:868-877 | an entry is the type, the four low bytes of the offset with the lowest first, the name and a zero |
| ArIndex.BodyLength | sys/src/cmd/ar.c:826-860 | the index body is symdefsize bytes and a pad byte if that is odd |
| ArIndex.IndexRoundTrip | sys/src/cmd/ar.c:862-881 | reading entries back gives types, names and offsets modulo 2^32 |
| ArIndex.MembersStand | sys/src/cmd/ar.c:797-814 | each member of the archive stands at its computed position |
| ArIndex.IndexIsRight | sys/src/cmd/ar.c:817-860 | an entry is in the index if and only if some member defines that symbol and stands at that offset, across the three files |
| ArIndex.EntryFindsMember | sys/src/cmd/ar.c:817-860 | below 4 GiB the offset of each entry leads to the header and body of a member that defines the symbol |

## Left out

- dc: the capacity and growth of buffers and the storage counters; a buffer is its digits and a cursor.
- dc: the stack, macros, commands, `dscale`, `removr` and the `%` operator, and output in bases other than ten.
- dc: input bases other than ten in `readin`; the base is fixed at ten, with hexadecimal digits still accepted as the code does.
- dc: the extra zeros that `zero` leaves past the end of a buffer; the digits are those before the write cursor.
- AanProtocol.StreamIsWhole: synchronization is taken as one step with respect to acknowledgements; the code publishes the connection at line 384 of `aan.c` just before it resends.
- AanProtocol.Recovers: an end written over a dead connection is lost, as the writer then stops; such runs are left out.
- AanProtocol.StreamIsWhole: after an end message the run goes on, but nothing is claimed about an end message that is lost.
- aan: partial headers, the timer, dialling and listening, and liveness; 32-bit wrap-around of message numbers.
- EdFile.TempFile.PutLine: after the file is full nothing is promised about appending again, because the write buffer may have moved past the end of the text.
- EdLines.Table.GlobalDelete: only the lines are compared with the one-pass deletion; dot can differ when exactly one line is marked.
- EdLines.GlobalLoop: the command is a function of the table, dot and a state of any kind.
- EdLines.Table.GDelete: when entry 0 is marked, which is only after "v" on an empty buffer, the end of the table is given as the result -1 and `dol` stays, as positions here are not below entry 0.
- EdLines.Table.Mark: the expression is a given predicate on lines.
- EdEditor.CopyLines: when the text file has no room only the lines are stated, the copies that fitted being left at the end; dot and the file are left as an error leaves them.
- ed: error jumps and interrupts, regular expressions, block I/O errors, and relocation of pointers, which are indices here.
- Calls.Tree: which of the paths that are too deep a terse listing comes upon, as that depends on the order of the calls.
- Calls.Printer.Output: tabs, dashes and the text of a line; a line is its kind, name and number. In full mode the number of lines is not stated, as functions are expanded again.
- calls: reading the sources, and building the graph, which is a map from names to callees.
- Factor.Factor: numbers are exact integers, which doubles are below 2^53; negative and fractional arguments are not modelled, nor the echo of the number.
- ar: object parsing, the formatting of headers, dates and modes, which are sixty given bytes, and the commands' choice of members, pivot and file.
- ar: the chained hash table of text symbols is a set, and the linked chain of symbols a sequence.
- Ar.Archive.Armove: the byte behind an odd-sized body is a parameter, as the code writes one byte past its buffer.
- ArRun.TornRun: the members are put in core without going through the allocations that reading them takes.
- ArRun.Rebuild: members come from an archive, all of their bytes read, and all three files are opened at the start.
- Ar.Archive.Install: failures to write the archive itself, which end the program, and the width of `long`.
