# Verified models of cooja-ng's data paths

cooja-ng simulates networks of embedded nodes. This project models, in Dafny 4.11, the five parts of it where a
mistake would be silent: the CBOR writer and readers behind its debug protocol, the per-CPU event queue with its two
time domains, the bundled cJSON library, the IEEE 802.15.4 frame check sequence, and the Gilbert-Elliott burst-loss
medium. `dafny verify dfyconfig.toml` checks everything.

Code that changes things in place is a class or a method with loops (the CBOR writer and reader, the linked event
queue, the JSON parser, printer, child list, tree copy and comparison, the radio medium), proved against a specification;
the theorems are about those functions. Pure code is functions and lemmas.

- **CBOR** (`Cbor*.dfy`). `CborFormat` gives data items and their preferred encoding (sections 3 and 4.1 of RFC 8949).
  `CborWriterSpec` is the writer as a state machine over calls, with the document a caller means by them beside it; the
  simulation theorem says that over every call sequence the buffer holds exactly the document's bytes, or the writer is
  broken. `CborWriter` and `CborReader` are the code on arrays; `CborAccepted` says exactly which bytes the reader accepts.
  `CborPython` is the independent decoder of the debug tool, which decodes text with replacement (`Unicode`, after RFC
  3629), and `CborAgreement` shows that both decoders agree.
- **Event queue** (`CpuTime`, `EventQueue*.dfy`). `EventQueueSpec` is the queue as a sequence and one turn of each
  operation; `EventQueueRuns` reasons over whole runs with frequency changes; `EventQueue` is the linked list.
- **cJSON** (`Json*.dfy`). `JsonText` is what the printers write, `JsonParse` what the parser makes of any buffer;
  `JsonTokens` and `JsonRoundTrip` show that it reads every text of the grammar of RFC 8259, so whatever the printers
  write, and `JsonAccepted` that it accepts nothing else but for wider tokens; `JsonString` bounds the two passes over a
  string literal, `JsonMarks` is about what stands around a value, `JsonLayout` about which text the printers choose.
  `JsonList` and `JsonTree` are linked trees; `JsonParser` builds them, `JsonPrinter` prints them, `JsonDuplicate` copies
  them and `JsonComparer` compares them, against `JsonCompare`. `JsonDocuments` puts it all together.
- **Frame check sequence** (`Fcs`), on bit vectors, for frames of any length.
- **Burst-loss medium** (`Gilbert*.dfy`), over exact reals. `GilbertDraws` counts, over all sequences of equally likely
  draws, how many leave the chain in BAD, and so ties the probabilities to the code; `GilbertLimits` says where and when
  the chain settles.

Findings that contradict what the code or its comments suggest, each proved with its exact condition:

- `cbor_close_*` under another container's name is accepted if its own head fits; it leads to the same writer as the
  right close exactly when both names count the contents alike (`CborWriterSpec.WrongClose`).
- `cbor_read_signed` returns -2^63 only through a wrapped negation; the model wraps too (`CborReaderSpec.ReadIntegerBack`).
- The Python decoder's result writes the item again, up to null and undefined, exactly when its maps have hashable,
  distinct keys, where True equals 1, and its texts are well-formed UTF-8 (`CborPython.DecodeRecovers`). The texts 0xFF
  and 0xFE decode alike, and as keys of one map an entry is lost (`CborPython.TextsCollide`).
- A callback that always reschedules its own event at or before the current cycle keeps `execute_events` looping forever,
  as long as no other callback names that event (`EventQueueSpec.NeverEnds`). If the others look ahead and leave the
  event alone, the loop ends if and only if this callback looks ahead too (`EventQueueSpec.SelfRescheduling`).
- Above 1 GHz the ceiling conversion does not undo `cpu_cycles_to_ns` (`CpuTime.CeilLosesAboveGHz`), and for negative
  times it need not be the ceiling (`CpuTime.CeilExactIff`, `CpuTime.CeilLate`).
- `add_item_to_array` clears an item's `next` only for an empty list, so appending an item that still points on
  corrupts the list, and so does inserting an item that is in it already. Replacing an item by another of the list
  corrupts it too, unless the last of three or more is replaced by the first: then that one item is left and the others
  are lost. `JsonList.Item.Add`, `Insert` and `Replace` have the exact conditions.
- Where names repeat, `cJSON_Compare` accepts objects of different length and may refuse a copy, although it accepts a
  node against itself (`JsonComparer.CompareWithCopy`). Two nodes are accepted exactly if their trees mean the same and
  in both, at every depth, members of one name mean the same (`JsonCompare.CompareIff`, `JsonCompare.Repeats`).
- The parser builds strings with a NUL inside from `\u0000` (`JsonDocuments.NulLiteral`), but comparing, looking up,
  copying and printing stop there: such a string equals what is in front of the NUL (`JsonCompare.NulHides`).
- The parser accepts more than RFC 8259: every byte up to 0x20 is whitespace, numbers may have leading zeros or lack
  digits on one side of the dot, strings may hold control bytes, and `\u` with bad digits stands for NUL
  (`JsonAccepted.AcceptedIff`, `StringIff`, `NumberIsLoose`).
- A byte order mark is skipped only with two bytes or more behind it; otherwise the buffer is refused
  (`JsonMarks.MarkIsSkipped`, `JsonMarks.OthersRefused`).
- A number is read whole exactly if it has at most 63 characters (`JsonTokens.NumberBack`).
- The comments call `burst_len = 1` memoryless; it is so only if nothing is dropped (`GilbertElliott.BurstOfOne`), and
  the drop rate is the one asked for only up to b / (b + 1) (`GilbertElliott.StationaryIff`). At burst length 1 and a drop
  rate above 1/2 the chain does not settle at all (`GilbertLimits.SettlesIff`).
- The comments promise uniforms in [0, 1); the generator yields (0, 1], and yields 1 from exactly one state, 0x5E6CFCE7
  (`GilbertMedium.DrawsOneIff`). On that draw a chain of burst length 1 stays BAD (`GilbertMedium.StaysBad`).

In each case the model follows the code.

## Model

| member | source | states |
|---|---|---|
| CborFormat.InitialByte | lib/cbor.c:127-144 | major type and short argument share the initial byte without overlapping |
| CborFormat.HeadIsHead | lib/cbor.c:116-166 | the head the writer emits is a well-formed head for its major type and argument |
| CborFormat.HeadIsShortest | lib/cbor.c:116-166 | no well-formed head for the argument is shorter, and none as short differs: preferred serialization |
| CborFormat.BigEndianUnique | lib/cbor.c:161-165 | bytes of a given width determine the argument and the other way round |
| CborReaderSpec.ReadHead | lib/cbor.c:315-361 | reading the head of an encoding gives its argument and uses exactly its bytes |
| CborReaderSpec.ReadStringBack | lib/cbor.c:385-417 | a string's length and bytes come back, whatever follows |
| CborReaderSpec.ReadIntegerBack | lib/cbor.c:363-383 | every int64 written comes back, including -2^63 through the wrapped negation |
| CborReaderSpec.ReadBack | lib/cbor.c:292-457 | for every writable tree, reading its encoding gives the tree and uses exactly those bytes, whatever follows |
| CborReaderSpec.ReadAllBack | lib/cbor.c:429-457 | the same for a sequence of items |
| CborReaderSpec.EncodeInjective | lib/cbor.c:168-221 | encodings of different items differ and none is a proper prefix of another |
| CborAccepted.UnsignedIff | lib/cbor.c:315-361 | on every input: an argument is read if and only if a well-formed head, of any width, is at the front, and exactly its bytes are used |
| CborAccepted.SignedIff | lib/cbor.c:363-383 | an int64 is read if and only if the head of it, or of -1 minus it, is at the front |
| CborAccepted.SignedBack | lib/cbor.c:208-221 | what the writer appends for any int64 is read as that number and uses exactly those bytes |
| CborAccepted.StringIff | lib/cbor.c:385-417 | a string is read if and only if a head with its length and then its bytes are at the front |
| CborAccepted.CountIff | lib/cbor.c:429-457 | a count is read if and only if its head is at the front and it is below SIZE_MAX |
| CborAccepted.OtherTypeStays | lib/cbor.c:400-457 | a call for another type uses nothing, so that the right call can still be made |
| CborAccepted.ReadIff | lib/cbor.c:292-457 | on every input: an item is read, with so many bytes, if and only if they are a well-formed encoding of it, shortest or not, and the calls can return it |
| CborReader.Reader.constructor | lib/cbor.c:292-298 | a reader starts with all bytes unread |
| CborReader.Reader.Peek | lib/cbor.c:300-307 | the major type of the next item, or nothing at the end |
| CborReader.Reader.End | lib/cbor.c:309-313 | true exactly when every byte was used |
| CborReader.Reader.Unsigned | lib/cbor.c:315-361 | result and bytes used as specified, the big-endian loop included |
| CborReader.Reader.Signed | lib/cbor.c:363-383 | result and bytes used as specified, with two's complement negation |
| CborReader.Reader.String | lib/cbor.c:385-417 | a string of the expected major type; one that does not fit in what is left is refused |
| CborReader.Reader.SimpleByte | lib/cbor.c:419-427 | takes the next byte as it is, or nothing at the end |
| CborReader.Reader.ElementCount | lib/cbor.c:429-457 | element count of an array or map of the expected major type |
| CborReader.NextItem | lib/cbor.c:292-457 | a caller that peeks and makes the matching calls reads whole trees as specified |
| CborWriterSpec.CloseKeepsOuter | lib/cbor.c:116-166 | closing a container moves its body only: everything in front of its header stays |
| CborWriterSpec.StepKeepsInv | lib/cbor.c:61-240 | every call keeps the record starts strictly ordered and within the bytes written; broken is absorbing |
| CborWriterSpec.RunKeepsInv | lib/cbor.c:61-290 | the same over every call sequence |
| CborWriterSpec.StepSimulates | lib/cbor.c:61-290 | one call follows the document the caller means, counts included, if the bytes fit, and breaks otherwise |
| CborWriterSpec.RunSimulates | lib/cbor.c:61-290 | over every call sequence without misuse the writer holds exactly the document's bytes, or is broken because a call was rejected or the bytes do not fit |
| CborWriterSpec.EndOfRun | lib/cbor.c:53-59 | `cbor_end_writer` reports the length exactly if all containers are closed and the bytes fit, else 0 |
| CborWriterSpec.PlanRuns | lib/cbor.c:168-290 | the calls for a tree build exactly that tree, if at most the allowed number of containers is open at once |
| CborWriterSpec.WriteTree | lib/cbor.c:43-290 | for every tree: success if and only if the encoding fits and nesting is within the limit; then the buffer is the shortest encoding and the reader gives the tree back |
| CborWriterSpec.RunReadBack | lib/cbor.c:292-457 | whatever a run wrote, the reader recovers all of it and nothing is left over |
| CborWriterSpec.WrongClose | lib/cbor.c:248-290 | if the right close is accepted, one under another name leads to the same writer exactly when both names count the contents alike; if not, exactly when the other one is refused too |
| CborWriterSpec.CloseUnder | lib/cbor.c:116-290 | a close under any name is accepted exactly when its own head fits and, for a map, the count is even; then it back-patches the opened kind with its own count |
| CborWriterSpec.WrongCloseAccepted | lib/cbor.c:248-290 | an accepted close under another name leaves a live writer, whose bytes are the document's exactly when both names count alike |
| CborWriter.BitOrIsAdd | lib/cbor.c:127-144 | or-ing the short argument into the header byte equals adding it |
| CborWriter.Writer.constructor | lib/cbor.c:43-51 | a fresh writer |
| CborWriter.Writer.End | lib/cbor.c:53-59 | length, or 0 if broken or a container is open |
| CborWriter.Writer.Break | lib/cbor.c:61-66 | the broken state |
| CborWriter.Writer.Increment | lib/cbor.c:68-75 | counts an item in the innermost open record |
| CborWriter.Writer.WriteFirstByte | lib/cbor.c:77-87 | appends one byte if there is room, else breaks |
| CborWriter.Writer.WriteObject | lib/cbor.c:89-114 | copies a complete item, counting it, or breaks |
| CborWriter.Writer.Insert | lib/cbor.c:116-166 | widening, shifting the body and serialising the length in place refine the machine's insertion |
| CborWriter.Writer.Shift | lib/cbor.c:152-155 | the move of the body keeps its bytes and everything in front of it |
| CborWriter.Writer.WriteUnsigned | lib/cbor.c:168-173 | refines the machine's step |
| CborWriter.Writer.WriteSigned | lib/cbor.c:175-184 | refines the machine's step for both signs |
| CborWriter.Writer.WriteString | lib/cbor.c:186-202 | refines the machine's step for byte and text strings |
| CborWriter.Writer.WriteSimple | lib/cbor.c:204-221 | refines the machine's step |
| CborWriter.Writer.Open | lib/cbor.c:223-279 | pushes a record on the stack that grows downwards, or breaks when it is full |
| CborWriter.Writer.Close | lib/cbor.c:235-290 | back-patches the header of the innermost container and pops its record |
| CborPython.ReadUintBack | tools/ws_debug.py:90-102 | the tool's argument decoding inverts every head |
| CborPython.DecodeBack | tools/ws_debug.py:104-138 | on every encoding the recursive decoder uses exactly its bytes and yields the item's Python value, text decoded with replacement, or raises if a key is unhashable |
| CborPython.DictIsPairs | tools/ws_debug.py:123-128 | a dict keeps all pairs exactly when no two keys are equal in Python's sense |
| CborPython.EvalIsValue | tools/ws_debug.py:104-138 | the decoder loses no entry exactly when every map in the item has hashable keys that Python tells apart |
| CborPython.DecodeRecovers | tools/ws_debug.py:86-138 | end to end: the result writes the item again, up to null and undefined, if and only if no entry is lost and every text is well-formed UTF-8 |
| CborPython.EvalRecovers | tools/ws_debug.py:104-138 | the same for an item's value, nested items included |
| CborPython.ValueDetermines | tools/ws_debug.py:104-138 | two items have the same value if and only if they are the same once undefined is null and ill-formed parts of texts are replaced |
| CborPython.DecodeInjective | tools/ws_debug.py:86-138 | decodable items decode alike if and only if they are the same in that sense |
| CborPython.TextsCollide | tools/ws_debug.py:115-119 | two texts with one value; as keys of a map they cost an entry |
| CborAgreement.DecodersAgree | tools/ws_debug.py:86-138 | on every input on which the C reader finds an item the tool finds its value, and both use the same bytes |
| CborAgreement.LastWins | tools/ws_debug.py:123-128 | of several entries under equal keys the dict keeps the last value |
| CborAgreement.MapRaisesIff | tools/ws_debug.py:123-128 | decoding a map raises if and only if one of its items does or a key is an array or a map |
| CborAgreement.BoolsAreKeys | tools/ws_debug.py:123-136 | to a dict True is the key 1 and False the key 0, and no other number |
| CborAgreement.OddInput | tools/ws_debug.py:90-138 | the end of the input, tags and other simple values are None; reserved widths are 0 |
| CborAgreement.CutShort | tools/ws_debug.py:111-114 | of a byte string that is cut short the tool returns what there is |
| CborAgreement.MissingAreNone | tools/ws_debug.py:104-122 | elements beyond the end are None |
| Unicode.TextBack | tools/ws_debug.py:115-119 | decoding with replacement gives back every text that was encoded |
| Unicode.WellFormedIff | tools/ws_debug.py:115-119 | decoding loses nothing if and only if the bytes are well-formed UTF-8 |
| Unicode.FrontIsLongest | tools/ws_debug.py:115-119 | each replacement stands for the longest part that begins a well-formed sequence, or for one byte |
| Unicode.DecodedAlike | tools/ws_debug.py:115-119 | bytes decode alike if and only if they are the same once their ill-formed parts are replaced |
| CpuTime.SplitIsExact | include/common/cpu_time.h:9-14 | the split quotient equals the truncated quotient of the full product, at either sign |
| CpuTime.NsToCyclesExact | include/common/cpu_time.h:21-25 | nanoseconds to cycles is the exact truncated quotient |
| CpuTime.CyclesToNsExact | include/common/cpu_time.h:38-43 | cycles to nanoseconds is the exact truncated quotient |
| CpuTime.CeilIsExact | include/common/cpu_time.h:31-36 | the ceiling variant is the exact ceiling of every nonnegative time |
| CpuTime.CeilExactIff | include/common/cpu_time.h:27-36 | for any time it is the ceiling if and only if the remainder times the frequency is above -10^9 or one above a multiple of 10^9 |
| CpuTime.CeilLate | include/common/cpu_time.h:27-36 | at 1 GHz it takes -1 ns to cycle 0, one late |
| CpuTime.NoFrequency | include/common/cpu_time.h:21-43 | without a frequency every conversion gives 0 |
| CpuTime.NoOverflow | include/common/cpu_time.h:12-14 | no intermediate product leaves int64 when the result fits, for floor and ceiling, at either sign |
| CpuTime.NoOverflowToNs | include/common/cpu_time.h:12-14 | the same for the other direction |
| CpuTime.CeilIsFirstCycle | include/common/cpu_time.h:27-30 | a cycle's time reaches a deadline if and only if the cycle is at least the ceiling |
| CpuTime.CeilUndoes | include/common/cpu_time.h:27-43 | up to 1 GHz the ceiling undoes the conversion to nanoseconds |
| CpuTime.CeilLosesAboveGHz | include/common/cpu_time.h:27-43 | above 1 GHz it does not |
| EventQueueSpec.InsertKeepsSorted | include/common/event_queue.h:29-38 | insertion keeps the order and goes behind all equal cycles |
| EventQueueSpec.InsertSlot | include/common/event_queue.h:29-38 | the walk ends at the slot behind every entry that is not later |
| EventQueueSpec.RemoveIs | include/common/event_queue.h:66-75 | cancelling takes out exactly the named event and keeps the rest in order |
| EventQueueSpec.RemoveKeeps | include/common/event_queue.h:66-75 | a cancelled queue is still sorted and free of duplicates, without the event |
| EventQueueSpec.ActIs | include/common/event_queue.h:22-78 | scheduling puts the event at the cycle given, without a deadline, or at the cycle its deadline maps to, cancelling nowhere; all other events stay as they are |
| EventQueueSpec.LastCallHolds | include/common/event_queue.h:22-78 | of several calls that name an event the last one holds |
| EventQueueSpec.NextIsEarliest | include/common/event_queue.h:76-99 | the cached deadline is the earliest cycle queued, INT64_MAX if there is none, so that comparing with it tells whether anything is due |
| EventQueueSpec.InsertAllSortsStably | include/common/event_queue.h:126-145 | the rebuild is sorted and lists equal cycles in their old order |
| EventQueueSpec.FrequencyChangeSortsStably | include/common/event_queue.h:101-148 | a frequency change yields a stably sorted permutation of the re-targeted events |
| EventQueueSpec.FrequencyKeeps | include/common/event_queue.h:101-148 | a frequency change keeps all events and deadlines: those scheduled by cycle stay at their cycle, those with a deadline move to the cycle it maps to; a frequency of 0 changes nothing |
| EventQueueSpec.FireShrinks | include/common/event_queue.h:80-96 | if callbacks look ahead, one turn strictly shrinks the due events, so the loop ends |
| EventQueueSpec.ExecEnds | include/common/event_queue.h:80-99 | whatever the callbacks schedule or cancel, the loop leaves a sorted queue without duplicates and nothing due, and the clock synced if anything fired |
| EventQueueSpec.FiredAreDueOrNamed | include/common/event_queue.h:80-99 | with any callbacks, what fires was due at the start or named by an earlier callback, and there are no more firings than events due and calls made |
| EventQueueSpec.ExecResult | include/common/event_queue.h:80-99 | if callbacks look ahead, only due events fire, in queue order; a due event that does not fire was touched by a callback |
| EventQueueSpec.FiredOnce | include/common/event_queue.h:80-99 | then no event fires twice |
| EventQueueSpec.SelfRescheduling | include/common/event_queue.h:80-99 | in any queue whose other callbacks look ahead and leave it alone, an event whose callback always reschedules it lets the loop end if and only if it does so in the future |
| EventQueueSpec.NeverEnds | include/common/event_queue.h:80-99 | an event rescheduled at or before the current cycle is due after any number of turns, whatever callbacks do that do not name it |
| EventQueueRuns.Run | include/common/event_queue.h:22-148 | after every sequence of operations, with any callbacks, the queue is sorted and free of duplicates |
| EventQueueRuns.RunForward | include/common/event_queue.h:86-112 | over every run, with any callbacks, the synced time never decreases |
| EventQueueRuns.ClockLag | include/common/event_queue.h:86-112 | over a run with k frequency changes the synced time never exceeds the exact elapsed time and lags it by less than k + 1 ns |
| EventQueueRuns.ChangeIsInstant | include/common/event_queue.h:101-112 | a frequency change takes no time, also from a clock that stood still |
| EventQueueRuns.StoppedStands | include/common/event_queue.h:88-91 | without a frequency the time stands still over every run, and every deadline maps to the current cycle |
| EventQueueRuns.NeverBehind | include/common/event_queue.h:46-49 | a deadline never maps to a past cycle, and maps to the current one if and only if it is less than a cycle ahead, past ones included |
| EventQueueRuns.FiresOnTime | include/common/event_queue.h:42-50 | however a run goes on at the same frequency, when it reaches the cycle of an event scheduled by nanoseconds, the time is at most the deadline and less than a period and 1 ns before it |
| EventQueueRuns.RetargetedFireOnTime | include/common/event_queue.h:114-124 | after a frequency change the same holds, over every run, of each pending deadline that is not past |
| EventQueueRuns.RunKeepsPace | include/common/event_queue.h:80-99 | a run without frequency changes keeps frequency and anchors, and its cycles never go back |
| EventQueueRuns.RunSpares | include/common/event_queue.h:22-148 | an event that no call names and no loop finds due stays queued over the whole run and does not fire; one without a deadline stays at its cycle, whatever the frequency does |
| EventQueueRuns.FiresWhenReached | include/common/event_queue.h:80-99 | at the end of such a run the loop fires the event if and only if its cycle is reached, with the clock up to date |
| EventQueueRuns.CycleMet | include/common/event_queue.h:22-148 | an event scheduled by cycle fires when the loop runs at that cycle or later and in no loop before it, whatever the run does to other events and to the frequency |
| EventQueueRuns.DeadlineMet | include/common/event_queue.h:42-148 | from scheduling by nanoseconds to firing, over every run with any frequency changes before its cycle is passed: the event fires in the loop that runs at its cycle and in none before, and its callback sees a time within that bound |
| EventQueueRuns.RetargetedDeadlineMet | include/common/event_queue.h:80-148 | the same from a frequency change to the firing, for every pending deadline that is not past |
| EventQueueRuns.CallbackHolds | include/common/event_queue.h:80-99 | the callback of the k-th event fired runs with the clock up to date, and what it schedules or cancels last is what the loop leaves |
| EventQueueRuns.CallbackDeadlineMet | include/common/event_queue.h:42-148 | a deadline that a callback asks for is met like any other, even if the clock was behind when the loop started |
| EventQueueRuns.FiresIfDue | include/common/event_queue.h:80-99 | an event that is queued, due and named by no callback fires, whatever callbacks do to others |
| EventQueue.ListIsPointwise | include/common/cpu_event.h:19-28 | the recursive and the pointwise description of a linked queue agree |
| EventQueue.FindPrevious | include/common/event_queue.h:33-35 | the walk stops at the last node that is not later |
| EventQueue.Link | include/common/event_queue.h:29-38 | relinking refines insertion at the slot |
| EventQueue.Unlink | include/common/event_queue.h:66-75 | relinking refines removal |
| EventQueue.RetargetList | include/common/event_queue.h:114-124 | the walk re-targets every positive deadline and nothing else |
| EventQueue.Rebuild | include/common/event_queue.h:126-145 | the insertion-sort rebuild refines inserting every entry |
| EventQueue.CpuState.ScheduleEvent | include/common/event_queue.h:22-40 | refines scheduling by cycle; the cached deadline is the head's cycle |
| EventQueue.CpuState.ScheduleEventNs | include/common/event_queue.h:42-64 | refines scheduling by nanoseconds; the cached deadline is the head's cycle |
| EventQueue.CpuState.CancelEvent | include/common/event_queue.h:66-78 | refines removal; the cached deadline is the head's cycle or INT64_MAX |
| EventQueue.CpuState.SetFrequency | include/common/event_queue.h:101-148 | refines the frequency change; zero is ignored |
| EventQueue.CpuState.ExecuteEvents | include/common/event_queue.h:80-99 | fires exactly what the specification fires and leaves its state, for any callbacks |
| JsonText.NatTextValue | lib/cJSON.c:573-576 | the decimal digits of an int denote it |
| JsonText.IntTextLength | lib/cJSON.c:590-594 | an int takes at most eleven characters, so it fits the 26-byte buffer |
| JsonParse.SkipWhitespace | lib/cJSON.c:1046-1070 | stays within the buffer, and off its end if it started off it |
| Unicode.Utf8 | lib/cJSON.c:723-770 | one to four bytes, three at most without a surrogate pair |
| JsonParse.Unit | lib/cJSON.c:829-881 | a unit of the second pass consumes at least one byte and at most one beyond the closing quote |
| JsonParse.ParseValue | lib/cJSON.c:1324-1377 | on every buffer a successful value consumes at least one byte and stays within the buffer |
| JsonParse.ParseElements | lib/cJSON.c:1489-1521 | the element loop makes progress and stays within the buffer |
| JsonParse.ParseMembers | lib/cJSON.c:1647-1702 | the member loop makes progress and stays within the buffer |
| JsonParse.Parse | lib/cJSON.c:1103-1181 | a successful parse stops within the buffer and, where a terminator is required, on a NUL |
| JsonString.UnitFits | lib/cJSON.c:829-881 | a unit of the second pass writes no more than the first pass counted for the bytes it consumes |
| JsonString.SkippedIsWeight | lib/cJSON.c:794-819 | what the first pass subtracts is exactly the escapes it saw |
| JsonString.StringFits | lib/cJSON.c:794-885 | for every input the bytes written, terminator included, fit the computed allocation |
| JsonString.PassesDisagree | lib/cJSON.c:643-646 | a literal that the two passes split at different points, because bad hex digits are swallowed |
| JsonString.StandardEscapes | lib/cJSON.c:844-879 | apart from `\u`, exactly the eight escapes of section 7 of RFC 8259 are accepted, each with its meaning |
| JsonString.HexValueIs | lib/cJSON.c:630-646 | a byte is a hex digit of a value exactly if it is that digit in lower or upper case |
| Unicode.Utf8Decodes | lib/cJSON.c:723-770 | the encoding of every scalar value is well-formed UTF-8 (section 4 of RFC 3629) and decodes to it |
| Unicode.Utf8Unique | lib/cJSON.c:723-770 | a code point has only one well-formed sequence, the one the code writes |
| JsonString.EscapesAreUtf8 | lib/cJSON.c:658-778 | every accepted escape or surrogate pair yields the well-formed UTF-8 of its scalar value |
| JsonString.CodeBack | lib/cJSON.c:658-778 | every scalar value written as escapes in either case, paired where needed, parses to its UTF-8 |
| JsonTokens.CharBack | lib/cJSON.c:829-881 | every character of a string literal by section 7 of RFC 8259, in any spelling, unescapes to what it stands for, and both passes step over exactly it |
| JsonTokens.StringBack | lib/cJSON.c:780-908 | every string literal of the grammar parses to what it stands for and stops behind its closing quote |
| JsonTokens.StrtodReads | lib/cJSON.c:355-381 | every number of section 6 of RFC 8259, with fraction, exponent and its sign and letter, is read whole as the decimal it denotes |
| JsonTokens.NumberBack | lib/cJSON.c:306-381 | a number in a buffer is read whole, as the decimal it denotes, if and only if it has at most 63 characters |
| JsonTokens.StringSpells | lib/cJSON.c:910-1030 | what the printer writes for a string is a literal that stands for it |
| JsonTokens.IntSpells | lib/cJSON.c:552-620 | what the printer writes for an int is a number that denotes it |
| JsonRoundTrip.ValueBack | lib/cJSON.c:1324-1729 | every text of a value by RFC 8259, whatever the spelling of strings and numbers and the whitespace between tokens, parses to the value; too deep nesting, and only that, is refused, for any limit |
| JsonRoundTrip.RenderSpells | lib/cJSON.c:1379-1843 | what the printers write, formatted or not, is such a text |
| JsonRoundTrip.DocumentBack | lib/cJSON.c:1072-1181 | a buffer with a text of a value, after an optional byte order mark and whitespace, parses to it if and only if it nests within the limit and, where required, only whitespace and a NUL follow |
| JsonRoundTrip.RoundTrip | lib/cJSON.c:1103-1181 | printing and parsing gives the same tree and stops at its end if and only if it nests within the limit; deeper trees are refused |
| JsonRoundTrip.RenderInjective | lib/cJSON.c:1379-1843 | trees of any depth that print alike are equal |
| JsonLayout.UnformattedIsStripped | lib/cJSON.c:1551-1843 | dropping the blanks outside string literals from the formatted text gives the unformatted one, which has none: no text with the same tokens is shorter |
| JsonLayout.FormattedIsLaidOut | lib/cJSON.c:1551-1843 | the formatted text is the unformatted one with a space between elements, a tab behind a name's colon, and each member and closing brace on a line of its own behind as many tabs as containers are open |
| JsonLayout.LiteralIsShortest | lib/cJSON.c:910-1030 | no literal of a string without control bytes is shorter than the printed one |
| JsonLayout.LiteralHasNoControls | lib/cJSON.c:910-1030 | the printed literal holds no control bytes |
| JsonLayout.ControlsInLowerCase | lib/cJSON.c:1015-1021 | control bytes without a short escape are printed with four lower-case hex digits |
| JsonLayout.IntIsDigits | lib/cJSON.c:552-620 | an int is printed as its digits, without leading zeros, fraction or exponent, behind a minus if negative |
| JsonAccepted.AcceptedIff | lib/cJSON.c:1324-1729 | on every buffer the parser gives a value and stops at a place if and only if that is a text of the value, its strings and numbers being what the token parsers take, and it nests within the limit |
| JsonAccepted.DocumentAcceptedIff | lib/cJSON.c:1103-1181 | the same for whole buffers, with mark and terminator |
| JsonAccepted.StringIff | lib/cJSON.c:780-908 | the parser takes a string if and only if it ends at the first quote that is not escaped and its characters are those of the standard, any other byte but a backslash, or `\u` with bad digits for NUL |
| JsonAccepted.NumberIsLoose | lib/cJSON.c:306-381 | a number the parser takes is one of the standard but for leading zeros and digits missing on one side of the dot |
| JsonAccepted.LooseNumberBack | lib/cJSON.c:306-381 | and every such number of at most 63 bytes is read whole, as what it denotes |
| JsonMarks.ParsedLater | lib/cJSON.c:1324-1729 | the parser makes the same of a text wherever in the buffer it starts |
| JsonMarks.MarkIsSkipped | lib/cJSON.c:1072-1101 | what follows the bytes EF BB BF is parsed as if they were not there, if it has at least two bytes |
| JsonMarks.OthersRefused | lib/cJSON.c:1072-1101 | every other buffer that starts with a byte above 0x7F is refused |
| JsonMarks.TerminatedIff | lib/cJSON.c:1051-1070 | a required terminator is found if and only if nothing but blanks follows the value and the last byte is a NUL |
| JsonMarks.ThousandLevels | lib/cJSON.h:136-137 | arrays and objects nested in any order parse up to 1000 levels and no deeper |
| JsonParser.EncodeUtf8 | lib/cJSON.c:723-772 | the loop that fills the bytes last to first writes the UTF-8 |
| JsonParser.HexDigits | lib/cJSON.c:622-656 | four digits, or 0 as soon as one is bad |
| JsonParser.DecodeUtf16 | lib/cJSON.c:660-721 | code point and length of an escape or a surrogate pair, 0 for every malformed one the code refuses |
| JsonParser.UnescapeUnit | lib/cJSON.c:829-881 | writes the unit's bytes at the output position, within the buffer |
| JsonParser.SecondPass | lib/cJSON.c:827-885 | fills a buffer of the allocated size without leaving it, terminator included |
| JsonParser.Parser.SkipSpaces | lib/cJSON.c:1046-1070 | refines the specification, stepping back from the end |
| JsonParser.Parser.NumberCharacters | lib/cJSON.c:320-353 | copies at most 63 number characters into the 64-byte buffer |
| JsonParser.Parser.Number | lib/cJSON.c:306-381 | refines the specification |
| JsonParser.Parser.Literal | lib/cJSON.c:780-908 | both passes refine the specification; on failure the offset stays within the buffer |
| JsonParser.Parser.Value | lib/cJSON.c:1324-1377 | refines the specification on every buffer; on success the node given holds a well-formed tree of fresh nodes with the value's contents, and depth is restored |
| JsonParser.Parser.List | lib/cJSON.c:1453-1549 | the same for arrays, with its steps back and early exits: nodes are linked one behind the other and the first points back to the last |
| JsonParser.Parser.Dictionary | lib/cJSON.c:1613-1729 | the same for objects, names included |
| JsonParser.Parser.Document | lib/cJSON.c:1103-1181 | refines the specification of a whole parse and returns the tree, or null if it is refused |
| JsonParser.Parser.Elements | lib/cJSON.c:1489-1521 | the element loop builds the chained row of the elements' trees, in order |
| JsonParser.Parser.Members | lib/cJSON.c:1647-1702 | the member loop builds the chained row of the members' trees, in order |
| JsonPrinter.EscapeLength | lib/cJSON.c:938-962 | the counting loop computes the exact length of the escaped text |
| JsonPrinter.Printer.Ensure | lib/cJSON.c:446-530 | succeeds if and only if the bytes and one more fit the limit; growing keeps the text |
| JsonPrinter.Printer.UpdateOffset | lib/cJSON.c:532-543 | moves the offset to the end of the text |
| JsonPrinter.Printer.Number | lib/cJSON.c:552-620 | exact success condition and text |
| JsonPrinter.Printer.Literal | lib/cJSON.c:910-1030 | exact success condition and text, the separately placed closing quote included |
| JsonPrinter.Printer.StoreEscape | lib/cJSON.c:984-1025 | one byte escaped, the terminator of `sprintf` included, within the reserved room |
| JsonPrinter.Printer.Value | lib/cJSON.c:1379-1451 | on a linked tree: prints if and only if the text and two bytes fit; then the buffer holds what was there and the text, terminated |
| JsonPrinter.Printer.List | lib/cJSON.c:1551-1611 | the same for arrays, walking the children, the offset catching up after each element |
| JsonPrinter.Printer.Dictionary | lib/cJSON.c:1731-1843 | the same for objects, names and indentation included |
| JsonPrinter.PrintPreallocated | lib/cJSON.c:1305-1322 | succeeds if and only if the buffer is at least the text plus two, hence always with five to spare, and then holds the text |
| JsonPrinter.PrintBuffered | lib/cJSON.c:1274-1303 | a growing buffer of any initial size, even none, gives the same text |
| JsonPrinter.Print | lib/cJSON.c:1196-1261 | the default printer returns exactly the text and its terminator |
| JsonList.Item.Get | lib/cJSON.c:1869-1886 | the child at an index, or null |
| JsonList.Item.Add | lib/cJSON.c:1974-2005 | appends; the links are a well-formed list, of whatever items, if and only if the item was not in it and, unless it was empty, pointed to nothing |
| JsonList.Item.Detach | lib/cJSON.c:2205-2239 | removes the item, at head, tail or alone, clears its links and leaves a well-formed list |
| JsonList.Item.DetachAt | lib/cJSON.c:2241-2249 | removes by index; no such index changes nothing |
| JsonList.Item.Insert | lib/cJSON.c:2281-2313 | inserts before an index, or appends with the condition of `Add`; the links are a well-formed list, of whatever items, if and only if the item is neither in it nor the container |
| JsonList.Item.Replace | lib/cJSON.c:2315-2362 | puts the replacement in the item's place; the links are a well-formed list, of whatever items, if and only if the replacement is neither in it nor the container, or the last of three or more is replaced by the first, which leaves that one |
| JsonList.Suffix | lib/cJSON.c:1945-1950 | links an item behind another |
| JsonTree.Link | lib/cJSON.c:1499-1510 | linking a new node behind the last keeps every subtree in the row intact and the row a chain |
| JsonTree.Close | lib/cJSON.c:1531-1536 | pointing the first child back to the last makes the row a well-formed child list |
| JsonDuplicate.Attach | lib/cJSON.c:2774-2795 | hanging a copied child behind the last keeps every copied subtree intact |
| JsonDuplicate.Duplicate | lib/cJSON.c:2728-2810 | the copy is a tree of fresh nodes with well-formed child lists and the original's contents, marked as owning them, strings up to the first NUL; shallow if not recursive |
| JsonDuplicate.CopyIsIdentity | lib/cJSON.c:2728-2810 | the contents of a tree that owns them, without NULs in its strings, are copied as they are, whatever its numbers and names |
| JsonDuplicate.CopyShowsSame | lib/cJSON.c:2728-2810 | the copy of any tree prints as the same value and borrows nothing but constant names |
| JsonCompare.IntsAreExact | lib/cJSON.c:545-550 | on ints the relative tolerance admits only equality |
| JsonCompare.ToleranceIs | lib/cJSON.c:545-550 | numbers of one sign are close if and only if they differ by at most 2^-52 of the larger; closeness is symmetric |
| JsonCompare.NumbersCompare | lib/cJSON.c:3045-3053 | two number nodes compare if and only if their values are close in that sense |
| JsonCompare.RealOfIs | lib/cJSON.c:355-381 | a decimal's value is its mantissa shifted by its exponent |
| JsonCompare.ClosenessAddsUp | lib/cJSON.c:545-550 | three numbers of which only neighbours are close |
| JsonCompare.FoldsTogether | lib/cJSON.c:132-154 | without case sensitivity keys match exactly if they agree, up to the first NUL, up to the case of ASCII letters |
| JsonCompare.FindIsEntry | lib/cJSON.c:1898-1928 | looking a name up finds the first member of that name, in either case mode |
| JsonCompare.CompareIff | lib/cJSON.c:3009-3132 | for two nodes of int trees, names repeating anywhere: comparison holds if and only if in both trees members of one name mean the same, at every depth, and the trees are equal up to member order and bytes behind a NUL |
| JsonCompare.CompareIsCanon | lib/cJSON.c:3009-3132 | on int trees whose objects name each member once, comparison is equality up to member order, in either case mode |
| JsonCompare.CopyCompares | lib/cJSON.c:3009-3132 | a tree and its copy compare equal if and only if members of one name mean the same at every depth; so always where no name repeats |
| JsonCompare.EqualContents | lib/cJSON.c:3009-3132 | two trees of the same contents on different nodes compare if and only if members of one name mean the same at every depth |
| JsonCompare.AcceptedLengths | lib/cJSON.c:3091-3127 | accepted objects of different length repeat a name |
| JsonCompare.RepeatAccepted | lib/cJSON.c:3091-3127 | and a longer object that repeats any member is accepted, exactly when the object is consistent |
| JsonCompare.Repeats | lib/cJSON.c:3091-3127 | objects that show both failures, at the root and below it |
| JsonCompare.NulHides | lib/cJSON.c:3055-3066 | a string with a NUL compares equal to, and is copied as, what is in front of it |
| JsonComparer.SameIgnoringCase | lib/cJSON.c:132-154 | the loop decides equality of the folded strings in front of the first NUL |
| JsonComparer.GetObjectItem | lib/cJSON.c:1898-1928 | the walk over the children finds the first child of the name, or null; with case sensitivity a nameless child ends it |
| JsonComparer.CompareItems | lib/cJSON.c:3008-3132 | on linked trees: a node is accepted against itself; two nodes of one tree or of two exactly if their contents compare; null never |
| JsonComparer.RelatedChildren | lib/cJSON.c:3067-3127 | comparing a node with one inside it or apart from it never meets the shortcut further down |
| JsonComparer.CompareElements | lib/cJSON.c:3067-3089 | the walk in step over two arrays decides the comparison of their elements |
| JsonComparer.CompareMembers | lib/cJSON.c:3091-3127 | the lookups of one direction decide whether every member has an equal namesake |
| JsonComparer.CompareWithCopy | lib/cJSON.c:3008-3132 | a node is accepted against itself, and against its copy if and only if members of one name mean the same at every depth |
| JsonDocuments.ContentsDetermine | lib/cJSON.c:1324-1377 | the contents of the tree built for a value determine the value |
| JsonDocuments.TextsParseAlike | lib/cJSON.c:1103-1181 | however numbers are rounded, callers see the same of the trees parsed from two texts if and only if the values agree: numbers rounded, strings and names up to the first NUL |
| JsonDocuments.SeenIff | lib/cJSON.c:355-381 | trees built for two values look the same if and only if the values agree in that sense, at every depth |
| JsonDocuments.TrailingZero | lib/cJSON.c:355-381 | 1 and 1.0, and in general a zero at the end of the digits, agree |
| JsonDocuments.BehindNul | lib/cJSON.c:827-885 | strings that differ only behind a NUL agree |
| JsonDocuments.NulLiteral | lib/cJSON.c:780-908 | the literal that makes such a string |
| JsonDocuments.TextsCompare | lib/cJSON.c:3009-3132 | comparing the trees parsed from two texts decides whether their values mean the same and are consistent |
| JsonDocuments.ShownSame | lib/cJSON.c:1379-1451 | the value a tree prints as means the same as the tree, with the same consistency |
| JsonDocuments.ReparsedCompares | lib/cJSON.c:1196-1261 | a tree compares with that of the value it prints as if and only if it is consistent |
| JsonDocuments.PrintParseCompare | lib/cJSON.c:1103-1261 | printing a linked tree and parsing the text succeeds if and only if it nests within the limit; the new tree prints as the same value and compares with the first if and only if that is consistent |
| Fcs.BitStepIs | include/common/ieee_802154.h:72-81 | the division step used as reference is the textbook shift and mask with 0x1021 |
| Fcs.CrcAdd | include/common/ieee_802154.h:74-81 | the shifts and masks are eight steps of bitwise division |
| Fcs.CrcAddReversed | include/common/ieee_802154.h:83-86 | the bit-reversed variant divides the reversed byte |
| Fcs.ReverseTwice | include/common/ieee_802154.h:64-70 | reversing a byte twice gives it back |
| Fcs.ReverseBits | include/common/ieee_802154.h:64-70 | bit k of the reversed byte is bit 7 - k of the byte |
| Fcs.StepSum | include/common/ieee_802154.h:74-81 | the byte step is linear |
| Fcs.CrcSum | include/common/ieee_802154.h:72-81 | the check sequence of a sum of frames is the sum of the check sequences |
| Fcs.DetectedIff | include/common/ieee_802154.h:72-81 | an error goes unnoticed if and only if its own remainder is zero, whatever the frame |
| Fcs.Residue | include/common/ieee_802154.h:72-81 | a frame followed by its check sequence, high byte first, leaves zero |
| Fcs.ReversedResidue | include/common/ieee_802154.h:83-86 | the same for bit-reversed input with bit-reversed check bytes |
| Fcs.DivideZero | include/common/ieee_802154.h:74-81 | division takes only zero to zero |
| Fcs.TwoAdjacentBytes | include/common/ieee_802154.h:72-81 | every change within two adjacent bytes of a frame of any length changes the check sequence |
| Fcs.BurstChanges | include/common/ieee_802154.h:72-81 | every burst of up to sixteen bits at any bit position of a frame of three bytes or more changes it |
| Fcs.OneByte | include/common/ieee_802154.h:72-81 | every change of a single byte changes it, in one-byte frames too |
| Fcs.OddCrc | include/common/ieee_802154.h:72-81 | the parity of the check sequence is the parity of the frame's bits |
| Fcs.OddErrors | include/common/ieee_802154.h:72-81 | every error that flips an odd number of bits, wherever they are, changes it |
| GilbertElliott.Calibrate | plugins/gilbert_elliott_model.h:17-27 | after clamping, 1/r is the burst length and the flows between the states balance at the drop rate |
| GilbertElliott.KnobsAreNearest | plugins/gilbert_elliott_model.h:17-27 | both knobs are moved as little as possible into their ranges, so values inside them are kept |
| GilbertDraws.GridCounts | plugins/gilbert_elliott_model.h:29-40 | over all sequences of m + 1 draws from 1/n to n/n, exactly how many leave the chain in BAD |
| GilbertDraws.GridShares | plugins/gilbert_elliott_model.h:29-40 | their share follows the chain's recursion, with the shares of draws below each probability |
| GilbertDraws.ShareOfBad | plugins/gilbert_elliott_model.h:29-40 | that share is the BAD probability after m frames to within (m + 1) / n, for every n |
| GilbertElliott.ProperIff | plugins/gilbert_elliott_model.h:26 | p is a probability if and only if the drop rate is at most b / (b + 1) |
| GilbertElliott.BalancedAt | plugins/gilbert_elliott_model.h:6-9 | the flows between the states balance at the drop rate asked for up to that bound, and at the bound beyond it |
| GilbertElliott.Deviation | plugins/gilbert_elliott_model.h:31-35 | from any start the deviation after n frames is the initial one times (1 - p - r)^n |
| GilbertElliott.StationaryIff | plugins/gilbert_elliott_model.h:6-9 | started from the drop rate the chain keeps it at every frame if and only if it is at most b / (b + 1) |
| GilbertLimits.SettlesIff | plugins/gilbert_elliott_model.h:6-9 | started from the drop rate the chain tends to the balanced share if and only if the burst length is above 1 or the drop rate at most 1/2, and otherwise to nothing |
| GilbertLimits.SettlesFromAnywhereIff | plugins/gilbert_elliott_model.h:31-35 | from every start it tends there if and only if the burst length is above 1 or the drop rate below 1/2 |
| GilbertLimits.Alternates | plugins/gilbert_elliott_model.h:31-35 | a chain that must change its state every frame swaps its two shares every frame |
| GilbertElliott.MemorylessIff | plugins/gilbert_elliott_model.h:8-9 | the chain is memoryless if and only if the burst length is 1 / (1 - drop) |
| GilbertElliott.BurstOfOne | plugins/gilbert_elliott_model.h:8-9 | a burst length of 1 is memoryless only if nothing is dropped |
| GilbertElliott.DwellIs | plugins/gilbert_elliott_model.h:7-8 | the mean BAD spell tends to the burst length, with the exact remainder |
| GilbertMedium.ShiftNotZero | plugins/gilbert_elliott_medium.c:76-81 | the generator's state never becomes zero |
| GilbertMedium.UniformRange | plugins/gilbert_elliott_medium.c:80 | a draw lies in (0, 1], and below 1 except for the state 2^32 - 1 |
| GilbertMedium.ShiftInjective | plugins/gilbert_elliott_medium.c:76-79 | different states lead to different states |
| GilbertMedium.DrawsOneIff | plugins/gilbert_elliott_medium.c:76-81 | a draw is below 1 if and only if the state before it is not 0x5E6CFCE7 |
| GilbertMedium.StaysBad | plugins/gilbert_elliott_model.h:31-35 | at burst length 1 BAD is followed by BAD exactly on a draw of 1 |
| GilbertMedium.XorShift | plugins/gilbert_elliott_medium.c:76-79 | the three shifts compose to the generator's step |
| GilbertMedium.FrameFollows | plugins/gilbert_elliott_medium.c:88-111 | one frame on any link extends that link's history by its own draws and leaves the others |
| GilbertMedium.LinksAreIndependent | plugins/gilbert_elliott_medium.c:88-111 | in every interleaved run a link's history is its chain run alone on the uniforms drawn for it |
| GilbertMedium.ChainDecides | plugins/gilbert_elliott_medium.c:88-111 | over every run each frame of a link, in order, is delivered during warm-up; afterwards each meets one state of the link's chain, run alone, and is delivered in GOOD and lost in BAD |
| GilbertMedium.OthersPass | plugins/gilbert_elliott_medium.c:88-95 | frames from or to nodes beyond the first 64 are delivered and leave no trace |
| GilbertMedium.NothingLost | plugins/gilbert_elliott_medium.c:88-111 | with a drop rate of 0 or below no frame is ever lost |
| GilbertMedium.DrawsAreStream | plugins/gilbert_elliott_medium.c:66-111 | over every run each output of the generator goes to exactly one draw, in order |
| GilbertMedium.RunNotZero | plugins/gilbert_elliott_medium.c:66-111 | over every run the generator's state stays nonzero |
| GilbertMedium.WarmupIsSilent | plugins/gilbert_elliott_medium.c:96-99 | during warm-up every frame is delivered, nothing is drawn and no chain starts |
| GilbertMedium.Medium.constructor | plugins/gilbert_elliott_medium.c:162-170 | calibrated chain, nonzero seed, no link started |
| GilbertMedium.Medium.Draw | plugins/gilbert_elliott_medium.c:76-81 | one step of the generator and its uniform |
| GilbertMedium.Medium.ReceptionProbability | plugins/gilbert_elliott_medium.c:88-111 | refines one frame of the specification on the state tables |

## Left out

- CborPython.DecodeBack: the shared cursor is threaded through as a count of used bytes; Python's recursion limit is not modelled.
- CborWriter.Writer.WriteObject: in the document model the argument counts as one complete item; copying a fragment is misuse of the call.
- EventQueue.CpuState.ExecuteEvents: callbacks are a finite list of scheduling and cancelling actions per firing, so the endless loop is shown on `EventQueueSpec.Turns` instead; callbacks that change the frequency or read other state are not modelled.
- EventQueueRuns.Run: integers are unbounded; int64 overflow is treated only in `CpuTime`.
- JsonParse.Parse: numbers are exact decimals, not doubles; `valueint` saturation, locales and the error position are not modelled.
- JsonParser.Parser.Value: a fresh node counts as null until it is filled in; freeing the nodes of a refused parse is not modelled.
- JsonTokens.StringBack: bytes that stand for themselves need not be UTF-8 or above 0x1F, as the parser does not look at them.
- JsonPrinter.Printer.Value: only int-valued numbers and non-null strings; raw items, `%1.15g` printing and allocation failure are not modelled.
- JsonPrinter.Printer.Ensure: growth copies like `realloc`; the copying path for allocators without it is not modelled.
- JsonDuplicate.Duplicate: a null item and allocation failure are not modelled.
- JsonCompare.CompareIff: only int-valued numbers, as the tolerance on others is no equivalence; `compare_double` is over exact reals.
- JsonComparer.CompareItems: raw items and null strings are not modelled.
- GilbertElliott.Calibrate: doubles are exact reals, so rounding is not modelled.
- GilbertMedium.Medium.ReceptionProbability: the frame counter does not wrap.
- GilbertMedium.Medium.constructor: environment variables and their conversion become parameters.
- `cJSON_Minify`, `cJSON_Delete`, references, item creation helpers and the by-name editing wrappers of cJSON: they would only add easy members.
- The scheduler, radio pipeline, CPU cores, peripherals, sockets, user interface and configuration translators: not part of this model.
