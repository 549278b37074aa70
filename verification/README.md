# Verified models of the hard parts of `contribs/`

The project models, in Dafny, six pieces of the Slurm simulator's `contribs/` tree and proves what
they are for:

- **Hilbert numbers** (`contribs/skilling.c`). Skilling's in-place transforms between axis
  coordinates and a transposed Hilbert index, on arrays of 32-bit words, for any number of
  dimensions `n >= 1` and any `1 <= b <= 30` bits (31 from axes to index). The methods of `Skilling`
  are proved against functions on columns of bits (`HilbertCurve`), and those against numbers (`HilbertNumber`): the
  Hilbert number is a bijection, consecutive numbers are one unit apart, aligned blocks are aligned
  subcubes, and numbers close together belong to points close together on every axis.
- **The PMI2 client's wire protocol** (`contribs/pmi2/pmi2_api.c`). The writer with its fixed
  buffer, the two-pass reader that parses in place, frames over a stream that `read` and `write` cut
  up at will, the path of a command from end to end, and the threaded client around the `blocked`
  flag as a state machine over every schedule.
- **The buffered line reader** (`contribs/pmi2/pmi2_util.c`), against one that takes a byte at a time.
- **The simulation manager** (`contribs/simulator/sim_mgr.c`): job ids, dependency rewriting, the
  submission loop over whole runs, and the two-semaphore hand-over with the daemons.
- **Switch names** (`contribs/sgi/netloc_to_topology.c`) and **node lists**
  (`contribs/cray/capmc_resume.c`).

`dafny verify dfyconfig.toml` checks everything.

## Files

| file | content |
|---|---|
| `Bits.dfy`, `Words.dfy` | bit strings and numbers; 32-bit words as bit strings |
| `HilbertCurve.dfy`, `HilbertNumber.dfy`, `Skilling.dfy` | the curve, its numbers, the transforms |
| `Decimal.dfy`, `Strtok.dfy`, `Runs.dfy`, `Options.dfy`, `Sets.dfy` | `%d` and `atoi`; `strtok`; runs of one character; optional values; set sizes |
| `Pmi2Codec.dfy`, `Pmi2Reader.dfy`, `Pmi2Writer.dfy`, `Pmi2Wire.dfy`, `Pmi2EndToEnd.dfy` | message bodies, reader, writer, frames, all of them together |
| `Pmi2Threads.dfy`, `Pmi2Untagged.dfy` | the threaded client; the same where replies may come without a `thrid` |
| `Pmi2Readline.dfy` | the line reader |
| `SimJobIds.dfy`, `SimDependencies.dfy`, `SimClock.dfy`, `SimReservations.dfy`, `SimRun.dfy`, `SimLockStep.dfy` | the simulation manager |
| `SwitchNames.dfy`, `NodeList.dfy` | the two small pieces |

## Reading the model

- A C `char` is a Dafny `char`; nothing depends on its range, so every statement covers all bytes.
- Word operations have names (`Xor32`, `Half`, `Below`, ...) whose bodies are the operators; the laws
  in `Words` say what each does to the bits of a word.
- Calls into code that is not modelled are parameters: the ids the controller hands out, the hosts on
  a switch, what `read` returns. `Wire.Read` and `Wire.Write` choose how many bytes they move, and may
  fail unless the wire is `reliable`.
- Where the source stores past a buffer, goes through a null pointer or runs into an assertion, the
  model has an outcome for it (`Overrun`, `Crash`, `crashed`, `ok == false`) and the exact condition
  for that outcome is proved; nothing is said about the source from there on.
- Some promises do not hold of the code for every input, and the exact condition is proved instead.
  - `RoundTrip`: a message whose lengths are in bounds and whose keys are C strings reads back if and
    only if the command name holds no `;` and no key holds `=` or starts with `;`. Values are escaped;
    names and keys are not.
  - `WriterAccepts`: the writer builds a message if and only if all lengths are in bounds and everything
    fits its buffer. The room for a value is not checked: `WriterOverruns` says, in lengths, exactly when
    the writer stores past the buffer instead of refusing, and `ThirtyTwoPairsOverrun` gives an input.
  - `StoredWithinCount`: the two passes of the reader agree on the number of pairs if and only if no key
    has a run of `;` of odd length; otherwise the table of pairs has entries that are never set.
  - `OverlapIsUnsafe`: if replies may come without a `thrid`, a new command can get a reply delivered to
    the wrong thread if and only if another command is outstanding when it is sent. Any number of commands
    one after another are safe (`SequentialIsSafe`); with a `thrid` in every reply all runs are (`OwnReply`).
  - `EarlyExitIsSafe`: the id lookup that stops early agrees with a full search if and only if the list
    is ordered, as it is when trace ids never decrease (`AddsKeepOrder`).
  - `RewritesExactly`: the dependency rewriting works on a text if and only if it is a list of types and
    ids in the form of `Layout`; otherwise it hands a null pointer to `atoi`. `RewriteLayout` says what
    comes out, and `Run` which runs of the manager end that way.
  - `KeepsStructure`: Slurm lets a type have several ids, `afterok:1:2`, and the comment on the function
    promises the same structure; the structure is kept if and only if every type has one id.
- The comment on `_node_names_2_nid_list` says nothing of a range written backwards; the code then sets
  its two ends, and so does `ItemBits`.
- On an error the PMI2 client returns without clearing `blocked`; `FailureStopsTheWire` states
  what follows.

## Model

| member | source | states |
|---|---|---|
| Skilling.GrayDecode | contribs/skilling.c:45-49 | the in-place loop leaves the transposed Gray code of the old columns, and every word stays below 2^b |
| Skilling.WorkIsStep | contribs/skilling.c:57-58 | the xor and mask arithmetic at bit q reflects axis 0 or exchanges two axes in the bits below q and keeps all higher bits |
| Skilling.UndoLevel | contribs/skilling.c:55-59 | one pass over the axes turns the low bits by the word at level q and changes nothing above |
| Skilling.UndoExcessWork | contribs/skilling.c:51-60 | the loop over Q turns Gray-decoded columns into the axes of the recursive curve |
| Skilling.TransposeToAxes | contribs/skilling.c:37-61 | the whole transform is the curve on columns, in range, for every n and b, and turns a transposed Hilbert number into the coordinates of its point |
| Skilling.ConsecutiveNumbers | contribs/skilling.c:37-61 | two arrays with consecutive numbers are transformed into coordinates at distance 1 |
| Skilling.RedoLevel | contribs/skilling.c:73-77 | one pass in the opposite order turns the low bits back |
| Skilling.RedoExcessWork | contribs/skilling.c:70-78 | the loop over falling Q inverts the excess work |
| Skilling.RunningXor | contribs/skilling.c:81-82 | every word becomes the xor of the words up to it |
| Skilling.SpreadDown | contribs/skilling.c:83-86 | the shift-doubling loop computes, bit by bit, the xor of all bits at and above each place |
| Skilling.FoldIsRunningXor | contribs/skilling.c:84-85 | once the shift reaches the width the fold is the inverse Gray code of the word, for every width |
| Skilling.GrayEncode | contribs/skilling.c:80-88 | the encode loops give the one set of columns whose transposed Gray code was in X |
| Skilling.AxesToTranspose | contribs/skilling.c:62-89 | the whole transform is the inverse of the curve on columns, in range, for every n and b up to 31, and leaves the Hilbert number of the coordinates |
| Skilling.ThereAndBack | contribs/skilling.c:119-123 | transforming to the index and back restores every word |
| Skilling.PackingIsInterleaving | contribs/skilling.c:109-113 | the fifteen-term sum of the sample program is the number of the interleaved bits |
| Skilling.SampleProgram | contribs/skilling.c:99-113 | the sample program prints the Hilbert number of its coordinates |
| HilbertCurve.StepInvolution | contribs/skilling.c:57-58 | each work step undoes itself |
| HilbertCurve.TurnInverse | contribs/skilling.c:56-59 | the steps of a level in one order undo those in the other, both ways |
| HilbertCurve.UnAxesAxes | contribs/skilling.c:70-78 | inverse undo after undo is the identity at all levels |
| HilbertCurve.AxesUnAxes | contribs/skilling.c:51-60 | undo after inverse undo is the identity at all levels |
| HilbertCurve.UnGrayGray | contribs/skilling.c:80-88 | encode after decode is the identity |
| HilbertCurve.GrayUnGray | contribs/skilling.c:45-49 | decode after encode is the identity |
| HilbertCurve.CurveInverse | contribs/skilling.c:37-89 | the two transforms are two-sided inverses for every n, b and column set |
| HilbertCurve.CurveEnds | contribs/skilling.c:37-61 | the curve runs from one end of axis 0 to the other, in either direction |
| HilbertCurve.StepKeepsAdjacent | contribs/skilling.c:57-58 | a work step maps neighbours to neighbours |
| HilbertCurve.Cross | contribs/skilling.c:45-60 | where one cell of a level ends and the next begins, the two corners face each other across the axis the Gray code changes |
| HilbertCurve.NextIsAdjacent | contribs/skilling.c:37-61 | the next transposed index moves one unit along one axis |
| HilbertCurve.CurveTop | contribs/skilling.c:45-60 | the top k levels of the point are the k-level curve of the top k levels of the index |
| HilbertNumber.GrayInterleave | contribs/skilling.c:45-49 | the transposed Gray loop is the Gray code of the interleaved bits |
| HilbertNumber.GrayOnNumbers | contribs/skilling.c:45-49 | as numbers, the loop computes h xor h/2 |
| HilbertNumber.InterleaveNext | contribs/skilling.c:109-113 | stepping the transposed index adds one to the interleaved bits |
| HilbertNumber.InterleavePlace | contribs/skilling.c:109-113 | for every n and b, bit q of axis j is bit qn + n - 1 - j of the number, as the shifts of the sample program have it |
| HilbertNumber.IndexOfPoint | contribs/skilling.c:62-113 | every h below 2^(nb) is the Hilbert number of its point, which lies in the cube |
| HilbertNumber.PointOfIndex | contribs/skilling.c:62-113 | every point of the cube is the point of its Hilbert number, which is below 2^(nb) |
| HilbertNumber.PointEnds | contribs/skilling.c:37-61 | number 0 is the origin and the last number is (2^b-1, 0, ..., 0) |
| HilbertNumber.Neighbours | contribs/skilling.c:37-61 | for every n, b and h the points of h and h+1 differ on one axis only, and there by 1 |
| HilbertNumber.Nesting | contribs/skilling.c:45-60 | dividing the number by 2^(n(b-k)) divides every coordinate by 2^(b-k) |
| HilbertNumber.BlocksAreSubcubes | contribs/skilling.c:45-60 | two numbers share an aligned block exactly when their points share an aligned subcube |
| HilbertNumber.CloseNumbersAreClosePoints | contribs/README:105-115 | numbers at most 2^(nj) apart belong to points whose coordinates differ by less than 2^(j+1) on every axis |
| Pmi2Codec.ScanSound | contribs/pmi2/pmi2_api.c:1262-1282 | what a value scan accepts is the escaped value and a `;` that no `;` follows |
| Pmi2Codec.ScanEscaped | contribs/pmi2/pmi2_api.c:1262-1282 | an escaped value of any bytes scans back to itself |
| Pmi2Codec.ParseWritten | contribs/pmi2/pmi2_api.c:1240-1290 | a written pair parses to its key and value and leaves the rest of the text |
| Pmi2Codec.ParseText | contribs/pmi2/pmi2_api.c:1240-1290 | the text of a pair is accepted exactly when its key has at most 64 bytes and its value at most 1024, and its key is cut at a NUL |
| Pmi2Codec.ReadsExactly | contribs/pmi2/pmi2_api.c:1429-1459 | a text is read as a message exactly when it is a list of such pairs, none after the first starting with `;`, the first with the key `cmd`; every other text is rejected |
| Pmi2Codec.WireFormat | contribs/pmi2/pmi2_api.c:1567-1608 | a message byte for byte |
| Pmi2Codec.RoundTrip | contribs/pmi2/pmi2_api.c:1429-1459 | a written body reads back as the same command and the same pairs in order if and only if name and keys are clean |
| Pmi2Codec.CountPair | contribs/pmi2/pmi2_api.c:1409-1427 | a pair parsed from any bytes uses at least one of the count, and exactly one if and only if no run of `;` in its key is odd |
| Pmi2Codec.StoredWithinCount | contribs/pmi2/pmi2_api.c:1409-1459 | on any bytes the pairs stored never exceed the count, and for a text that parses they equal it exactly when no key has an odd run of `;` |
| Pmi2Reader.CountPairs | contribs/pmi2/pmi2_api.c:1409-1427 | the counting loop computes the count |
| Pmi2Reader.FindKeyEnd | contribs/pmi2/pmi2_api.c:1248-1253 | the key loop stops at the first `=` or the end |
| Pmi2Reader.ScanInPlace | contribs/pmi2/pmi2_api.c:1262-1276 | the value loop leaves the unescaped value, never writes past the read position and keeps the unread text |
| Pmi2Reader.ParseValue | contribs/pmi2/pmi2_api.c:1262-1283 | the value is accepted exactly when it ends and is not too long |
| Pmi2Reader.ParseKeyval | contribs/pmi2/pmi2_api.c:1240-1290 | the in-place parse agrees with the parse of the text, and the rest of the buffer is as it was |
| Pmi2Reader.StringAt | contribs/pmi2/pmi2_api.c:1295-1307 | a key is read up to its NUL |
| Pmi2Reader.StorePairs | contribs/pmi2/pmi2_api.c:1446-1459 | the pairs of the text are stored in order, and the store is never written past its end |
| Pmi2Reader.ParseBody | contribs/pmi2/pmi2_api.c:1409-1459 | both passes together read any received bytes as the parse of the text says, error cases included, and all entries are set exactly when no key has an odd run of `;` |
| Pmi2Writer.WriterAccepts | contribs/pmi2/pmi2_api.c:1556-1608 | the writer builds the body, its `thrid` pair first, exactly when the name has at most 1024 bytes, keys 64, values 1024, and the body with six bytes and a NUL fits 65536; it builds nothing else |
| Pmi2Writer.PreambleFormat | contribs/pmi2/pmi2_api.c:1567-1581 | the beginning of a command byte for byte, with and without a `thrid` |
| Pmi2Writer.WrittenIsRead | contribs/pmi2/pmi2_api.c:1429-1608 | whatever the writer's limits let through, the reader's limits accept, and it reads as it was written |
| Pmi2Writer.OverrunExactly | contribs/pmi2/pmi2_api.c:1583-1620 | from any text written so far: the pairs overrun the buffer exactly when some key fits and its value does not, all lengths so far in bounds, or nothing is left for the NUL |
| Pmi2Writer.WriterOverruns | contribs/pmi2/pmi2_api.c:1556-1620 | the same for whole commands |
| Pmi2Writer.ThirtyTwoPairsOverrun | contribs/pmi2/pmi2_api.c:1591-1602 | 32 pairs with values of 1024 `;` overrun the buffer under every name |
| Pmi2Writer.HeaderFits | contribs/pmi2/pmi2_api.c:1614-1616 | every length below 100000 leaves a place free in the length field |
| Pmi2Writer.Put | contribs/pmi2/pmi2_api.c:1567-1589 | text is appended to what the buffer held |
| Pmi2Writer.PutEscaped | contribs/pmi2/pmi2_api.c:1591-1607 | the value loop appends the escaped value and a `;`, or would leave the buffer, exactly by its length |
| Pmi2Writer.PutPairs | contribs/pmi2/pmi2_api.c:1583-1608 | for every list of pairs the loop refuses, overruns or appends exactly as the outcome says |
| Pmi2Writer.BuildCommand | contribs/pmi2/pmi2_api.c:1552-1620 | for every command the outcome is the one characterised above; a built command leaves its length in decimal, spaces up to six bytes and its body in the buffer |
| Pmi2Wire.SendAll | contribs/pmi2/pmi2_api.c:1641-1650 | all bytes go out in order, however `write` splits them; after a failed write a proper prefix has gone out |
| Pmi2Wire.ReadExactly | contribs/pmi2/pmi2_api.c:1373-1405 | exactly the bytes asked for come in, however `read` splits them, or the stream ended or a read failed; no byte is lost |
| Pmi2Wire.FrameIsReceived | contribs/pmi2/pmi2_api.c:1386-1405 | the space-padded header of a body that is not empty reads as its length, and nothing after the frame is touched |
| Pmi2Wire.FramesAreDistinct | contribs/pmi2/pmi2_api.c:1370-1405 | a stream can be cut into frames in one way only |
| Pmi2Wire.SendFrame | contribs/pmi2/pmi2_api.c:1610-1650 | sending puts a body at the back of the frames in flight, unless a write fails |
| Pmi2Wire.ReceiveFrame | contribs/pmi2/pmi2_api.c:1370-1405 | receiving takes the body at the front; an empty stream or a failed read is an error |
| Pmi2Wire.Exchange | contribs/pmi2/pmi2_api.c:1370-1405 | any sequence of messages arrives as it was sent; after a failure, a prefix of it |
| Pmi2EndToEnd.Deliver | contribs/pmi2/pmi2_api.c:1330-1650 | a legal command that fits, with or without a `thrid`, goes through writer, stream and reader unchanged, the pair count is right, and the reader finds the `thrid` |
| Pmi2EndToEnd.GetVal | contribs/pmi2/pmi2_api.c:1138-1150 | the value of the first pair whose key is the key asked for, or agrees with it on 64 bytes if both are that long; none exactly if no pair has it |
| Pmi2EndToEnd.SameUpToIs | contribs/pmi2/pmi2_api.c:1143 | comparing up to n bytes: the keys are the same, or both have n bytes and agree on them |
| Pmi2EndToEnd.ServerSeesWholeCommands | contribs/pmi2/pmi2_api.c:1624-1660 | in every reachable state a server framing the wire finds whole bodies of different commands in lock order |
| Pmi2Threads.NextInv | contribs/pmi2/pmi2_api.c:1351-1368 | every step of every thread and of the server keeps the invariant of flag, wire, and replies |
| Pmi2Threads.MutualExclusion | contribs/pmi2/pmi2_api.c:1624-1660 | at most one thread is between setting and clearing the flag |
| Pmi2Threads.FramesNeverInterleave | contribs/pmi2/pmi2_api.c:1624-1660 | the wire is whole frames of different commands, but perhaps for the last |
| Pmi2Threads.OwnReply | contribs/pmi2/pmi2_api.c:1461-1495 | a thread returns only with its command complete, and it holds the server's reply to that command |
| Pmi2Threads.NoDeadlock | contribs/pmi2/pmi2_api.c:1351-1368 | while a thread has not returned and none has failed, some step can be taken |
| Pmi2Threads.OneStepEach | contribs/pmi2/pmi2_api.c:1351-1495 | failures apart a thread never has two steps to choose from, but for the size of a write: it returns at once with a complete command, and a reader stops at its own reply |
| Pmi2Threads.RunsAreFinite | contribs/pmi2/pmi2_api.c:1351-1495 | every run has at most seven steps a command and one for each byte of the frames |
| Pmi2Threads.MaximalRunsFinish | contribs/pmi2/pmi2_api.c:1351-1495 | a run without failures that cannot go on has every thread returned with the reply to its command |
| Pmi2Threads.FailureStopsTheWire | contribs/pmi2/pmi2_api.c:1497-1503 | after a failed read or write the flag stays set and no byte is ever written again |
| Pmi2Untagged.Misdelivered | contribs/pmi2/pmi2_api.c:1461-1463 | with two commands written and read by the server, one of them not answered, some run gives a thread a reply that is not its own |
| Pmi2Untagged.SequentialIsSafe | contribs/pmi2/pmi2_api.c:1461-1476 | for any number of commands sent one after another, and any mix of replies with and without a `thrid`, every run keeps the invariant and every complete command has its own reply |
| Pmi2Untagged.OverlapIsUnsafe | contribs/pmi2/pmi2_api.c:1461-1476 | after any such run, a further command can lead to a misdelivered reply exactly when another is outstanding |
| Pmi2Readline.LineReader.Fill | contribs/pmi2/pmi2_util.c:69-89 | a refill keeps what is unread, or uses up one end or error of the stream |
| Pmi2Readline.LineReader.TakeByte | contribs/pmi2/pmi2_util.c:69-91 | the next byte is the next item of the stream, whether it was buffered or not |
| Pmi2Readline.LineReader.FillLine | contribs/pmi2/pmi2_util.c:66-99 | the loop returns, stores and leaves unread what the reader without a buffer does |
| Pmi2Readline.LineIsCut | contribs/pmi2/pmi2_util.c:66-96 | bytes followed by an end, an error or nothing: which bytes a line takes, and when the end or the error is used up and reported |
| Pmi2Readline.LineReader.ReadLine | contribs/pmi2/pmi2_util.c:53-105 | a call on a stream of bytes returns all of it up to the limit less one, its end or its first newline, whichever comes first, and leaves the rest unread; -1 exactly for an error before the first byte; in general what the reader without a buffer gives |
| Pmi2Readline.ReadLines | contribs/pmi2/pmi2_util.c:53-105 | so does any sequence of calls |
| Pmi2Readline.ChunkingDoesNotMatter | contribs/pmi2/pmi2_util.c:69-89 | how the stream is cut into reads does not matter |
| Pmi2Readline.DeliveredIsPrefix | contribs/pmi2/pmi2_util.c:53-105 | the bytes delivered by any calls are a prefix of the stream |
| SimJobIds.JobIdList.Lookup | contribs/simulator/sim_mgr.c:182-196 | the loop is the search that gives up at a smaller id |
| SimJobIds.EarlyExitIsSafe | contribs/simulator/sim_mgr.c:182-196 | giving up early never changes an answer exactly when the list is ordered |
| SimJobIds.AddsKeepOrder | contribs/simulator/sim_mgr.c:135-176 | adding trace ids that never decrease keeps the list ordered |
| SimDependencies.RewriteLength | contribs/simulator/sim_mgr.c:203-241 | the output is at most five times as long as the input |
| SimDependencies.ReWriteDependencies | contribs/simulator/sim_mgr.c:203-241 | for every text a record can hold the loop over both buffers gives the rewritten text or the crash, and neither buffer overflows |
| SimDependencies.RewriteList | contribs/simulator/sim_mgr.c:198-241 | on a well-formed list the output is the print of the same list with every id mapped |
| SimDependencies.RewriteLayout | contribs/simulator/sim_mgr.c:203-241 | on every text of the accepted form: the types in order, each with the id its number resolves to |
| SimDependencies.RewritesExactly | contribs/simulator/sim_mgr.c:214-222 | a text is rewritten, rather than crashed on, exactly when it has that form |
| SimDependencies.ExtraIdsAreLost | contribs/simulator/sim_mgr.c:198-226 | an input that loses its structure: ids after the first of a type are dropped |
| SimDependencies.KeepsStructure | contribs/simulator/sim_mgr.c:198-241 | a list comes out as the same list with every id mapped exactly when every type has one id |
| Decimal.AtoiReads | contribs/simulator/sim_mgr.c:222 | any printed number with blanks and at most one sign before it, whatever follows, is read as the `int` that agrees with it modulo 2^32, and past the range of `long` as -1 or 0 |
| Decimal.AtoiOfPrintInt | contribs/simulator/sim_mgr.c:222-234 | every unsigned 32-bit id survives `%d` and `atoi` |
| Decimal.DigitsAre | contribs/simulator/sim_mgr.c:229-234 | decimal text, digit by digit |
| Decimal.BlanksAre | contribs/simulator/sim_mgr.c:222 | the six characters `atoi` skips before a number |
| SimDependencies.ResolveUnknown | contribs/simulator/sim_mgr.c:223-227 | an id that the list does not have stays as it is |
| SimDependencies.ResolveKnown | contribs/simulator/sim_mgr.c:223-227 | an id with only larger ones before its first pair becomes the id the controller gave, if it gave one |
| SimDependencies.ResolveHidden | contribs/simulator/sim_mgr.c:182-196 | an id behind a smaller one stays as it is |
| SimDependencies.UnknownIdsStay | contribs/simulator/sim_mgr.c:203-241 | a list of unknown ids is rewritten to itself |
| SimDependencies.NoColonCrashes | contribs/simulator/sim_mgr.c:214-222 | a text without `:` is one the source cannot handle |
| SimRun.SimManager.constructor | contribs/simulator/sim_mgr.c:606-672 | any records are queued in order and the clock starts 60 before the first job |
| SimRun.SimManager.CreateReservation | contribs/simulator/sim_mgr.c:361-398 | the reservation at the head is created if it is due, one a turn at most |
| SimRun.SimManager.GenerateJob | contribs/simulator/sim_mgr.c:472-541 | one job is submitted with its rewritten dependencies and its id pair recorded, whatever the controller answered; or the manager crashes, exactly on a text that cannot be rewritten |
| SimRun.SimManager.Drain | contribs/simulator/sim_mgr.c:400-441 | jobs leave the head of the queue until it is empty or not due, or the manager crashes |
| SimRun.SimManager.Tick | contribs/simulator/sim_mgr.c:346-466 | a turn creates a reservation and submits jobs, keeps both schedules and advances the clock by the increment |
| SimRun.SimManager.Run | contribs/simulator/sim_mgr.c:346-466 | after any number of turns the jobs submitted are exactly those due, with all before them, up to the first text that cannot be rewritten; the manager has crashed exactly if such a text came due |
| SimRun.SimManager.ExactlyTheDueJobs | contribs/simulator/sim_mgr.c:401-452 | without a crash a job is submitted if and only if all jobs up to it were due by the last turn |
| SimRun.SimManager.UpToTheCrash | contribs/simulator/sim_mgr.c:401-452 | with a crash the jobs submitted are those due before the one it happened on |
| SimRun.Simulate | contribs/simulator/sim_mgr.c:346-466 | a trace whose dependencies are printed lists never crashes the manager, and the jobs submitted are exactly those due, with all before them, counting from 60 before the first |
| SimReservations.EarliestReservations | contribs/simulator/sim_mgr.c:361-398 | no way to create reservations in order and one a turn has any of them earlier |
| SimReservations.MostReservations | contribs/simulator/sim_mgr.c:361-398 | nor has any way more of them by any turn |
| SimRun.FirstFittingTick | contribs/simulator/sim_mgr.c:401-452 | a job goes out by tick t exactly if every submit time up to its own is at most the start plus t increments |
| SimRun.InTraceOrder | contribs/simulator/sim_mgr.c:427-432 | submissions are the jobs of the trace in order, once each |
| SimRun.SortedLateness | contribs/simulator/sim_mgr.c:401-452 | with a sorted trace a job is never early and less than one tick late |
| SimRun.ResolvesEarlier | contribs/simulator/sim_mgr.c:182-227 | the id of an earlier job resolves to what the controller gave it |
| SimRun.DependenciesAreSound | contribs/simulator/sim_mgr.c:401-541 | over a whole run each submitted list names the ids given to the jobs it depends on |
| SimLockStep.NextInv | contribs/simulator/sim_mgr.c:443-452 | every step keeps one token, in one place, exactly while the manager waits |
| SimLockStep.LockStep | contribs/simulator/sim_mgr.c:443-452 | posts lead waits by 0 or 1, and the k-th post finds the clock at start plus k increments |
| SimLockStep.ClockStandsStill | contribs/simulator/sim_mgr.c:443-452 | no step moves the clock while a daemon has the turn |
| SimLockStep.SomeoneMoves | contribs/simulator/sim_mgr.c:443-445 | in every reachable state some step can be taken |
| SwitchNames.Pigeonhole | contribs/sgi/netloc_to_topology.c:912-917 | a table holds at most as many numbered names as it has entries |
| SwitchNames.PrefixOf | contribs/sgi/netloc_to_topology.c:906-907 | what is cut out of a host name |
| SwitchNames.SwitchTable.FindSwitchName | contribs/sgi/netloc_to_topology.c:829-839 | the first entry with the id, or the count |
| SwitchNames.SwitchTable.IsUnique | contribs/sgi/netloc_to_topology.c:843-857 | whether no entry has the name |
| SwitchNames.SwitchTable.MakeNewSwitchName | contribs/sgi/netloc_to_topology.c:905-921 | the host name without leading `n`s up to its next `n`, then `s` and the least number that gives a name not in the table; `(null)` for a host of `n`s; within table size + 1 tries |
| SwitchNames.SwitchTable.Append | contribs/sgi/netloc_to_topology.c:805-822 | the entry is appended and the count stays below the capacity, which doubles when reached |
| SwitchNames.SwitchTable.GetSwitchName | contribs/sgi/netloc_to_topology.c:789-825 | a known id keeps its name; a new one gets a new name, or nothing changes if no host is known |
| SwitchNames.LookupAll | contribs/sgi/netloc_to_topology.c:789-825 | over any lookups two names are the same exactly when the ids are |
| NodeList.SetBits | contribs/cray/capmc_resume.c:303 | exactly the bits of the range are set |
| NodeList.ReadNumber | contribs/cray/capmc_resume.c:293-301 | zeros and a bracket are skipped and the digits read as their number |
| NodeList.NodeNamesToBitmap | contribs/cray/capmc_resume.c:288-311 | on any text the loop sets exactly the bits the text marks, and fails exactly if one of them lies past the bitmap |
| NodeList.NodeListMeaning | contribs/cray/capmc_resume.c:282-311 | a printed list, padded and bracketed in any of these ways, marks the union of its numbers and ranges |

## Left out

- `getvalint`, `getvalbool` and the scanning of a pointer from the `thrid` text: `GetVal` returns the text itself.
- The `pendingq` list of the PMI2 client: it serves debugging only.
- A length field that reads as a negative number: the source passes it to `malloc` and `read`; the model treats it as a failed read.
- Skilling.TransposeToAxes: words with bits at or above `b`, and `b` above 30, where its shift leaves the range of `int`.
- Skilling.AxesToTranspose: words with bits at or above `b`, and `b` above 31, where its shift leaves the range of `int`.
- SimRun.DependenciesAreSound: trace ids grow along the trace, and the controller gives no job the id that stands for none.
- NodeList.NodeNamesToBitmap: a node number past the range of `int` counts as one past the bitmap.
- Pmi2Threads: a thread sends one command, and a reply is read as a whole; `Pmi2Wire` has the reading of a frame in parts.
- Spurious wake-ups and interrupted system calls of the PMI2 client: both only repeat a step.
- The wrap-around of the 32-bit simulated clock, the end of a simulation and the measuring of real time in `time_mgr`.
- The linked trace queue is a sequence: the aliasing of head and tail records is not captured.
- Printing of the bitmap as a list (`bit_fmt`), and the netloc calls that find a host on a switch.
- Everything else in the repository: RPC wrappers, plugins, trace converters, PAM modules and process control would add only easy members or rest on code outside the repository.
