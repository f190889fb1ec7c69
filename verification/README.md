# Verified models of the pattern benchmark and the BPF helper macros

A Dafny project that models, and proves properties of, five parts of the repository:

- **the baseline counter** (`benchmarks/baseline.c`): counts "Alpha" in a file that is read through a
  fixed 64 KiB buffer. `Pattern.dfy` holds the theory, generic in the pattern and the buffer size;
  `Baseline.dfy` the program over an `array<byte>`, with in-place moves and a `read` that may return any
  length;
- **the data generator** (`scripts/generate_data.py`): `Generator.dfy`; `Benchmark.dfy` composes it with
  the counter;
- **the relocatable bitfield macros** (`bpf_core_read.h`): `Bitfield.dfy` for single calls, bit by bit,
  `BitfieldValue.dfy` for the same calls in arithmetic, `BitfieldRecord.dfy` for runs of writes to many fields;
- **pointer chasing** (`bpf_core_read.h`, `BPF_CORE_READ` and its variants): `CoreRead.dfy`;
- **program arguments and byte order** (`bpf_tracing.h`, `bpf_endian.h`): `ProgArgs.dfy`, `Endian.dfy`.

`Words.dfy` is shared: machine words are bit sequences, least significant bit first, with C's operators.
Its lemmas tie the operators to arithmetic and each memory layout to the number its bytes spell; the
arithmetic results on the macros are built on them.

## Main results

1. *Counting does not depend on how the file is read* — exactly when no border of the pattern (a proper
   prefix that is also a suffix) lets two overlapping occurrences fit into the buffer
   (`Pattern.SplitIndependence`). Then the total is also the true number of occurrences. Over all buffer
   sizes the condition is that the pattern has no border, which holds of "Alpha" and which the program
   never states.
2. *The baseline program is right*: on every file and every sequence of short reads it ends after at most one
   read per byte and one more, and reports a failure exactly when its last read fails. Otherwise the printed
   number is the number of places where the text "Alpha" stands, modulo 2^64, and exactly that number for files
   shorter than 5 * 2^64 bytes; the comparisons made are bounded on both sides (`Baseline.CountAlpha`).
3. *End to end*: unless a read fails, what the counter prints for generated data is what the generator
   announced plus what the rest of the device holds, modulo 2^64; while that sum is below 2^64, the two numbers agree exactly when
   the rest holds no pattern (`Benchmark.GenerateAndCount`).
4. *Bitfields form a record*: any run of writes to fields that share no bit implements the same run on a
   map from fields to values, and touches no other bit of memory, on both byte orders and for storage
   units that may overlap (`BitfieldRecord.RunRefinesRecord`, `BitfieldRecord.WriteAll`).
5. *Bitfields in arithmetic*: a read returns the number the unit's bytes spell, divided by 2^pad, modulo
   2^width, in two's complement if signed; a write takes that part out of the number and puts the new value
   modulo 2^width in its place (`BitfieldValue.ReadValue`, `BitfieldValue.WriteValue`).
6. *Exact conditions*: a read returns what was written iff the field lies inside its unit; the two readers
   agree iff the unit has 1, 2, 4 or 8 bytes or the field starts above it; the probed reader returns what its
   comment promises iff the probe succeeds and the field is all zeros; two writes commute iff their fields
   share no bit; `BPF_PROG` and `BPF_PROG2` assign the same slots iff no argument before the last takes two;
   the 16-bit swap needs its outer cast iff the value is 256 or more.

## Where code and comments differ

- The comment on `BPF_CORE_READ_BITFIELD_PROBED` (bpf_core_read.h:69-70) says the macro returns the
  result code of the helper, 0 on success and negative on error; the code returns the extracted value. The
  model follows the code. `Bitfield.DocumentedExactly` gives the exact condition under which the promise
  holds, `Bitfield.DocumentedFails` an input where it does not, and `Bitfield.FailureLooksLikeZero` what a
  caller cannot tell apart.
- The comment on `BPF_CORE_WRITE_BITFIELD` (bpf_core_read.h:119) names the macro as its own inverse; the
  inverse is the read, and that is what is proved.
- The instructions in `benchmarks/README.md` write 50 MB to a larger device and then count over the whole
  device. Below 2^64 the announced count is what is printed exactly when the rest of the device holds no
  pattern (`Benchmark.GenerateAndCount`); `Benchmark.CountsDiffer` is a device where the numbers differ.

## Model

| member | source | states |
|---|---|---|
| Pattern.SplitIndependence | benchmarks/baseline.c:40-66 | for every pattern and buffer that holds it: all ways of cutting any stream into reads give one total, iff they all give the true count, iff no border lets an overlap fit into the buffer |
| Pattern.SplitIndependenceForAllBuffers | benchmarks/baseline.c:40-66 | independence for every buffer size holds iff the pattern has no border |
| Pattern.BorderBreaksSplits | benchmarks/baseline.c:54-65 | for every border that fits: one stream and two ways to read it that count 1 and at least 2 |
| Pattern.RunCountsExactly | benchmarks/baseline.c:40-66 | over all feasible reads, the running total is the number of occurrences in the stream consumed so far |
| Pattern.WindowCount | benchmarks/baseline.c:40-65 | the starts in a window are exactly those the earlier bytes could not decide: none lost, none counted twice |
| Pattern.TailIsSuffix | benchmarks/baseline.c:49-65 | at every loop head the kept bytes are the last min(length - 1, consumed) bytes of the stream, so a read always has room |
| Pattern.ShortWindowExactly | benchmarks/baseline.c:49-52 | a window is too short to scan iff fewer bytes than the pattern has were consumed, this read included |
| Pattern.GreedyFindsAll | benchmarks/baseline.c:54-61 | jumping a whole pattern after a match misses no occurrence in a window without overlaps |
| Pattern.RunWork | benchmarks/baseline.c:54-61 | comparisons of a whole run are at most the start positions of the stream, and those are at most the comparisons plus length - 1 per match; any pattern |
| Pattern.CountRoom | benchmarks/baseline.c:34-56 | occurrences of a borderless pattern take up length times their number of bytes, which bounds the counter |
| Pattern.RunRoom | benchmarks/baseline.c:40-66 | at every loop head, for a borderless pattern: matches so far times its length are at most the bytes consumed |
| Pattern.CountConcat | benchmarks/baseline.c:63-65 | counts add up over concatenation when no suffix of the first part is a proper prefix of the pattern |
| Pattern.CountIsCardinality | benchmarks/baseline.c:55-56 | the recursive count is the size of the set of matching positions |
| Baseline.InputFile.Read | benchmarks/baseline.c:40 | any short read: the bytes land behind the kept ones, leave the stream, and nothing else in the buffer changes; 0 only at the end, negative exactly when this read fails, which is a fact of the file |
| Baseline.SameBytes | benchmarks/baseline.c:55 | true exactly when the pattern occurs at that place of the window |
| Baseline.MoveToFront | benchmarks/baseline.c:64 | the overlapping move puts the last bytes to the front and changes no byte behind them |
| Baseline.ScanWindow | benchmarks/baseline.c:46-61 | the inner loop adds the greedy scan's matches to the 64-bit count, with that scan's number of comparisons |
| Baseline.HandleWindow | benchmarks/baseline.c:41-65 | short windows are kept whole; others are scanned and their tail is moved to the front of the buffer |
| Baseline.ReadAndHandle | benchmarks/baseline.c:40-65 | one pass of the outer loop, from buffer and stream to the next loop head |
| Baseline.LoopStep | benchmarks/baseline.c:40-65 | one pass keeps the loop invariant: stream consumed plus stream left, kept tail, totals |
| Baseline.LoopHeadExact | benchmarks/baseline.c:34-56 | at every loop head the 64-bit counter is the true count of the consumed bytes while these are fewer than 2^64 pattern lengths |
| Baseline.CountPattern | benchmarks/baseline.c:29-83 | the outer loop for any pattern and buffer: it stops at the first read that fails, and reports a failure exactly then; otherwise the reads made cut the whole file, and the count is the run's total, and the true count if no overlap fits |
| Baseline.PatternIsAlpha | benchmarks/baseline.c:13-14 | the pattern's bytes are the five characters of "Alpha" |
| Baseline.CounterWidth | benchmarks/baseline.c:34 | the counter wraps at 2^64 |
| Baseline.AlphasCounted | benchmarks/baseline.c:55-56 | the count of the pattern is the number of places where the characters of "Alpha" stand |
| Baseline.PatternHasNoBorder | benchmarks/baseline.c:13 | "Alpha" has no border |
| Baseline.CountAlpha | benchmarks/baseline.c:16-83 | the program: a failure reported iff the last read fails; else the number of places of "Alpha" modulo 2^64, exact below 5 * 2^64 bytes, and two-sided bounds on comparisons; reads bounded by the file's length plus 1 |
| Generator.OutputFile.Write | scripts/generate_data.py:37-48 | by position: the written bytes where they land, every other byte and the length as before, unless the file had to grow |
| Generator.OutputFile.Open | scripts/generate_data.py:23 | opening empties a regular file and keeps a device's bytes |
| Generator.WriteEnd | scripts/generate_data.py:30-45 | the last blocks and the padding complete the closed form |
| Generator.WriteChunk | scripts/generate_data.py:46-50 | one full chunk of 256 blocks extends the closed form |
| Generator.Generate | scripts/generate_data.py:18-52 | every byte of the result by position, "Alpha" in the last 5 of each full 4096 and 'x' elsewhere; count = target / 4096; length and tail of a device untouched, a regular file as long as the target; nothing for targets of 0 or less |
| Generator.GeneratedText | scripts/generate_data.py:15-16 | the closed form's byte at every position, as a character |
| Generator.WrittenIsGenerated | scripts/generate_data.py:15-45 | blocks then padding, written one after the other, equal the closed form |
| Generator.GeneratedMatches | scripts/generate_data.py:9-16 | the pattern occurs in the output exactly at positions 4096k + 4091 of full blocks |
| Generator.GeneratedCount | scripts/generate_data.py:15-52 | the announced count is the true count, also additive over any bytes that follow |
| Generator.CountAfter | scripts/generate_data.py:15-16 | no occurrence straddles the end of a sequence that ends like generated data |
| Benchmark.GenerateAndCount | scripts/generate_data.py:5-52 | generating and then counting, unless the last read fails, prints the announced number plus the patterns in the device's rest, modulo 2^64; exact below 2^64, where they agree iff the rest holds no pattern |
| Benchmark.CountsDiffer | scripts/generate_data.py:23-52 | a device with one pattern right behind the data: the true count is one more than announced |
| Words.ValueShl | examples/c/.output/bpf/bpf_core_read.h:109 | << on unsigned words multiplies by 2^s modulo the width |
| Words.ValueShr | examples/c/.output/bpf/bpf_core_read.h:113 | >> on unsigned words divides by 2^s |
| Words.ValueNot | examples/c/.output/bpf/bpf_core_read.h:138 | ~ is 2^width - 1 less the value |
| Words.ValueWiden | examples/c/.output/bpf/bpf_core_read.h:103-106 | loading a narrower unsigned type into 64 bits keeps the number |
| Words.SignExtension | examples/c/.output/bpf/bpf_core_read.h:111 | copying the top bit upwards keeps the two's complement value |
| Words.LoadValue | examples/c/.output/bpf/bpf_core_read.h:102-106 | a load is the number its bytes spell, first byte lowest on little endian, last byte lowest on big endian |
| Words.LoadStore | examples/c/.output/bpf/bpf_core_read.h:131-146 | loading what was stored gives the word back |
| Words.StoreLoad | examples/c/.output/bpf/bpf_core_read.h:131-146 | storing what was loaded gives the bytes back |
| Bitfield.ProbeRead | examples/c/.output/bpf/bpf_core_read.h:46-62 | the helper: 0 and the bytes copied iff the source can be read, else an error and the destination zeroed; nothing else changed |
| Bitfield.ReadBitfieldProbed | examples/c/.output/bpf/bpf_core_read.h:72-82 | the probed macro on memory: if the object can be read, the shifts of the unit's bytes loaded as one number, for any size up to 8, and what the direct macro reads for 1, 2, 4 and 8; else 0 |
| Bitfield.ProbeUnit | examples/c/.output/bpf/bpf_core_read.h:46-75 | the zeroed variable after the copy to the place the byte order asks for, or still zero if the object cannot be read |
| Bitfield.ReadBitfield | examples/c/.output/bpf/bpf_core_read.h:90-115 | the direct macro on memory computes the field, and 0 for sizes other than 1, 2, 4 and 8 |
| Bitfield.WriteBitfield | examples/c/.output/bpf/bpf_core_read.h:121-147 | the write macro on memory: the field then reads as the value cut to it, no other bit changes; memory as before for sizes other than 1, 2, 4 and 8 |
| Bitfield.ReadBit | examples/c/.output/bpf/bpf_core_read.h:102-114 | a read, bit by bit: the field's bits of memory, then zeros or copies of its top bit |
| Bitfield.WriteBit | examples/c/.output/bpf/bpf_core_read.h:131-146 | a write, bit by bit: the field's bits become the value's low bits, every other bit of memory stays |
| BitfieldValue.NormalizeValue | examples/c/.output/bpf/bpf_core_read.h:109-114 | the value a field can hold is the value modulo 2^(64 - rshift), in two's complement if signed |
| Bitfield.ReadAfterWrite | examples/c/.output/bpf/bpf_core_read.h:117-147 | reading returns the value written, cut to the field and extended |
| BitfieldValue.ReadValue | examples/c/.output/bpf/bpf_core_read.h:99-114 | a read returns the number of the unit's bytes divided by 2^(rshift - lshift) modulo 2^(64 - rshift), in two's complement if signed |
| BitfieldValue.WriteValue | examples/c/.output/bpf/bpf_core_read.h:131-146 | a write leaves the unit's number with the field's part replaced by the value modulo 2^(64 - rshift) |
| BitfieldValue.WriteThenReadValue | examples/c/.output/bpf/bpf_core_read.h:117-147 | reading after a write gives the value modulo 2^(64 - rshift), in two's complement if signed |
| BitfieldValue.MaskValue | examples/c/.output/bpf/bpf_core_read.h:138 | the mask is 2^pad times (2^width - 1) |
| Bitfield.RoundTripExactly | examples/c/.output/bpf/bpf_core_read.h:138-139 | the round trip works for every value iff lshift + 8 * byte size is at least 64 |
| Bitfield.WriteBack | examples/c/.output/bpf/bpf_core_read.h:117-147 | writing back what was read changes nothing |
| Bitfield.LastWriteWins | examples/c/.output/bpf/bpf_core_read.h:121-147 | of two writes to a field the first leaves no trace |
| Bitfield.ReadersAgree | examples/c/.output/bpf/bpf_core_read.h:46-115 | for units of 1, 2, 4 or 8 bytes the two readers return the same on every memory and field, on both byte orders |
| Bitfield.ReadersAgreeExactly | examples/c/.output/bpf/bpf_core_read.h:46-115 | they agree on every memory iff the unit has one of these sizes or the field starts above the unit |
| Bitfield.ZeroFieldExactly | examples/c/.output/bpf/bpf_core_read.h:72-82 | a successful probed read returns 0 iff every bit of the field is zero |
| Bitfield.DocumentedExactly | examples/c/.output/bpf/bpf_core_read.h:69-82 | the macro returns what its comment promises iff the probe succeeds and every bit of the field is zero |
| Bitfield.DocumentedFails | examples/c/.output/bpf/bpf_core_read.h:69-82 | a byte with its lowest bit set, read as a field of one bit: success, and not 0 |
| Bitfield.FailureLooksLikeZero | examples/c/.output/bpf/bpf_core_read.h:72-82 | a failed probe and a successful one return the same iff the field is all zeros |
| BitfieldRecord.OtherFieldKept | examples/c/.output/bpf/bpf_core_read.h:138-139 | a write leaves every field it shares no bit with |
| BitfieldRecord.WritesCommuteExactly | examples/c/.output/bpf/bpf_core_read.h:121-147 | two writes can always be exchanged iff their fields share no bit |
| BitfieldRecord.RunRefinesRecord | examples/c/.output/bpf/bpf_core_read.h:121-147 | any run of writes to disjoint fields implements the same run on a map from fields to values |
| BitfieldRecord.FieldAfterRun | examples/c/.output/bpf/bpf_core_read.h:90-147 | each field reads back its last written value, cut and extended, or its old value |
| BitfieldRecord.OtherBitsAfterRun | examples/c/.output/bpf/bpf_core_read.h:138-146 | no bit outside the written fields changes over a run |
| BitfieldRecord.WriteAll | examples/c/.output/bpf/bpf_core_read.h:121-147 | a sequence of write macro calls on an object updates its record entry by entry: each field reads back its last assignment, fields never assigned read as before, and no bit outside the written fields changes |
| CoreRead.Expansion.Read | examples/c/.output/bpf/bpf_core_read.h:393-394 | one helper call stores into the temporary or the destination, and only there |
| CoreRead.Expansion.ReadPointers | examples/c/.output/bpf/bpf_core_read.h:397-410 | the peel-the-last reads leave in the temporary what the left to right chain reaches, by the same calls |
| CoreRead.Expansion.CoreRead | examples/c/.output/bpf/bpf_core_read.h:412-420 | the whole expansion stores the left to right value in the destination, by the left to right calls in order |
| CoreRead.CallsInOrder | examples/c/.output/bpf/bpf_core_read.h:495-523 | one call per accessor in order, the first from the source; only the last uses the field helper and the destination |
| CoreRead.CallsChain | examples/c/.output/bpf/bpf_core_read.h:495-523 | every call but the first starts from what the one before it stored, and the value read is what the last one stores |
| CoreRead.ChaseSnoc | examples/c/.output/bpf/bpf_core_read.h:398-408 | chasing one accessor more is one dereference of what was reached |
| CoreRead.FinalSnoc | examples/c/.output/bpf/bpf_core_read.h:414-417 | the final read dereferences what the pointers before it reach |
| ProgArgs.ArgSizesExactly | examples/c/.output/bpf/bpf_tracing.h:696-702 | an argument list compiles iff every size is 1, 2, 4, 8 or 16 |
| ProgArgs.SlotCount | examples/c/.output/bpf/bpf_tracing.h:696-702 | an argument takes the fewest 8-byte slots that hold it |
| ProgArgs.FirstSlotIsSum | examples/c/.output/bpf/bpf_tracing.h:704-740 | argument k starts after one slot for every 8 bytes begun of each argument before it; the total is that sum over all |
| ProgArgs.UnpackAt | examples/c/.output/bpf/bpf_tracing.h:719-741 | for any context: argument k is the low bytes of its slot, or two slots in order |
| ProgArgs.HoldsValue | examples/c/.output/bpf/bpf_tracing.h:719-725 | a slot holds a value iff its low bits are the number the value's bytes spell; 16 bytes as two such numbers in order |
| ProgArgs.SlotsArePrefixSums | examples/c/.output/bpf/bpf_tracing.h:704-740 | the total less the suffix count is the sum of the slots before the argument |
| ProgArgs.SlotsTile | examples/c/.output/bpf/bpf_tracing.h:696-740 | every slot below the total belongs to exactly one argument, and none above |
| ProgArgs.CastIndexAt | examples/c/.output/bpf/bpf_tracing.h:642-655 | the reversed recursion of BPF_PROG hands slot k to argument k |
| ProgArgs.MacrosAgreeExactly | examples/c/.output/bpf/bpf_tracing.h:642-740 | BPF_PROG and BPF_PROG2 use the same slots iff no argument before the last takes two |
| ProgArgs.UnionArgReads | examples/c/.output/bpf/bpf_tracing.h:719-725 | the union takes an argument out of its slots whatever the unused bits are |
| ProgArgs.UnpackReturnsArguments | examples/c/.output/bpf/bpf_tracing.h:719-791 | decoding any laid out argument list with the macro's indices returns every argument |
| ProgArgs.PackUnpack | examples/c/.output/bpf/bpf_tracing.h:757-791 | laying out and decoding is the identity |
| Endian.SwabReverses | examples/c/.output/bpf/bpf_endian.h:5-33 | for any width the or of the byte moves is byte reversal |
| Endian.SwabTwice | examples/c/.output/bpf/bpf_endian.h:5-33 | the swap is its own inverse |
| Endian.Swab32IsSwab | examples/c/.output/bpf/bpf_endian.h:19-23 | the written-out 32-bit swap is the general one |
| Endian.Swab64IsSwab | examples/c/.output/bpf/bpf_endian.h:25-33 | the written-out 64-bit swap is the general one |
| Endian.Swab16Reverses | examples/c/.output/bpf/bpf_endian.h:13-17 | under promotion to int, the 16-bit swap with its cast reverses the bytes |
| Endian.CastNeededExactly | examples/c/.output/bpf/bpf_endian.h:15-17 | without the outer cast the result is right iff the value is below 256 |
| Endian.BranchesAgree | examples/c/.output/bpf/bpf_endian.h:50-97 | the constant and the run-time branch give the same value |
| Endian.NetworkBytes | examples/c/.output/bpf/bpf_endian.h:50-97 | a converted value stored in host order has the most significant byte first, on both hosts |
| Endian.NetworkValue | examples/c/.output/bpf/bpf_endian.h:50-97 | the stored bytes spell the original value, most significant byte first |
| Endian.RoundTrip | examples/c/.output/bpf/bpf_endian.h:50-97 | to network order and back is the identity, whichever branches are taken |

## Left out

- Opening files, timing, printing and argument checks of the two programs. Which reads of a file fail, and
  whether the object of a probed read can be read, are inputs of the model; every error is one number, -1.
- The pointer `limit` of the counter is formed in C before the short-window test; the model forms it after.
- The float size argument of the generator: the model starts from the integer `target_bytes`. A full disk
  or device is not modelled.
- The helpers themselves are kernel code and not part of this model. `Bitfield.ProbeRead` takes a failed
  read to zero its destination; since the variable it fills starts at 0, leaving it alone would give the same
  result. In `CoreRead.dfy` what a helper leaves in its destination is an arbitrary function of the call.
- Relocation: byte size, shifts and signedness are parameters, with the ranges the compiler guarantees as
  preconditions. Shift counts outside 0..63 are undefined in C and excluded.
- Alignment and C's aliasing rules for the storage unit accesses.
- Macro arity: the recursions are modelled for lists of any length; the headers stop at 12 arguments and 9 or
  10 accessors.
- Types and offsets of accessors, strings read by the `_STR` variants, and the choice between kernel and user
  helpers: one dereference is an uninterpreted step with two helpers.
- Kprobe and syscall argument macros, register name tables, `bpf_helpers.h`, `btf.h`, the generated
  skeletons, and the example programs: data, declarations or one-step wrappers.
