# ReportConflictingKeys and DeterministicRandom, modelled in Dafny

This project models two pieces of FoundationDB.

**The ReportConflictingKeys workload** (`fdbserver/workloads/ReportConflictingKeys.actor.cpp`).
Each pass of its client loop does the following:
- It starts two transactions at the same read version.
- It gives the first transaction random write conflict ranges and commits it.
- It gives the second transaction random read conflict ranges and tries to commit it.
- If the second commit fails with `not_committed`, the workload reads the conflicting-keys report from the special key space. It decodes the report into key ranges and checks that each range is *sound*: it contains a recorded read range. It also checks that each range is *relevant*: it intersects a recorded write range.
- If the second commit succeeds, it checks that no recorded read range meets a recorded write range.
- Failures bump `invalidReports`. Commits, successes and conflicts bump `commits`, `xacts` and `conflicts`.

**The integer side of flow's `DeterministicRandom`** (`flow/DeterministicRandom.cpp`):
- the one-value look-ahead buffer `next` behind `gen64` and `peek`;
- the overflow-careful mapping of a draw into `[min, maxPlusOne)` for `int` and `int64_t`;
- truncation to 32 bits;
- unique ids;
- alphanumeric characters and strings;
- the chunked fill of a byte buffer in `generateRandomData`.

The model has these modules:
- `FixedWidth` (`fixed_width.dfy`): the C++ integer widths as subset types. Casts are explicit two's-complement conversions.
- `Wrappers`: `Option` and `Result`.
- `Sequences`: a generic fact about sequences that several modules use.
- `Keys`: keys as byte strings in byte-lexicographic order, and half-open `KeyRange`s with `contains` and `intersects`. These come from a header that is not part of this model, so they are defined here with their usual meaning.
- `ConflictReport`: the conflicting-keys rows, how they are decoded into ranges, and their encoding.
- `ConflictCheck`: the conflict-path and commit-path verdicts.
- `FlowRandom`: the generator. `DeterministicRandom` is a class whose fields `mtPos` (the twister's position in its output stream) and `next` the methods update in place. `generateRandomData` fills an `array<uint8>` in place.
- `ReportConflictingKeys`: the workload. `Transaction` is a class holding its conflict ranges. `KeyRangeVector` is a class for the `std::vector<KeyRange>` the workload records into. `ReportConflictingKeysWorkload` is a class holding the counters and the generator.

How the model treats the environment:
- **The Mersenne Twister** is the stream `source: nat -> uint32` of its outputs for the seed. A position, `mtPos`, stands for its internal state.
- **Which operand of `^` is drawn first**, in `gen64` and in the constructor, is not fixed by C++. The model keeps it as one constant, `highFirst`, for both, and proves what holds either way.
- **The store** is represented by its answers. One round's answers are a `RoundInput`: the read version, both commits, and the rows of the report.
- **`random01() < p`**: `random01` divides the draw by the largest 64-bit value, which is monotone in the draw. So the comparison holds exactly for the draws below some bound, and each probability is given as that bound.
- **`keyForIndex`** is a table `keys` of `nodeCount + 1` keys.

## Model

| member | source | states |
|---|---|---|
| FixedWidth.ToU32 | flow/DeterministicRandom.cpp:57 | Defines the conversion of an integer to `unsigned int`: the value modulo `2^32`, equal to the input when it already fits. |
| FixedWidth.ToU64 | flow/DeterministicRandom.cpp:77 | Defines the conversion to `uint64_t`: the value modulo `2^64`, equal to the input when it fits. |
| FixedWidth.ToI32 | flow/DeterministicRandom.cpp:58 | Defines the conversion to `int`: the low 32 bits read in two's complement, equal to the input when it fits. |
| FixedWidth.ToI64 | flow/DeterministicRandom.cpp:78 | Defines the conversion to `int64_t`: the low 64 bits read in two's complement, equal to the input when it fits. |
| FlowRandom.Join | flow/DeterministicRandom.cpp:28 | Defines `(uint64(hi) << 32) ^ lo` for a 32-bit `lo` as `hi * 2^32 + lo`. The shift leaves the low 32 bits zero, so the exclusive or places `lo` there. `JoinHalves` and `SplitJoin` state its properties. |
| FlowRandom.High32 | flow/DeterministicRandom.cpp:28 | Defines the top 32 bits of a 64-bit value. |
| FlowRandom.Low32 | flow/DeterministicRandom.cpp:86-88 | Defines the truncation of a `uint64_t` to `uint32_t` that `randomUInt32`'s `return` performs. |
| FlowRandom.CombineHalves | flow/DeterministicRandom.cpp:28 | The two halves of `(uint64(random()) << 32) ^ random()` are the two values drawn, whichever order the operands are evaluated in; the order decides only which half holds which. |
| FlowRandom.Combine | flow/DeterministicRandom.cpp:28 | Defines `(uint64(random()) << 32) ^ random()` for the two values the calls of `random()` returned. `highFirst` says whether the first value drawn lands in the high half; `CombineHalves` states its properties. |
| FlowRandom.Word | flow/DeterministicRandom.cpp:26-32 | Defines the 64-bit word `gen64` buffers in `next`: the `Combine` of the twister's outputs at positions `p` and `p + 1`. The class invariant keeps `next` equal to the word at the position two behind the twister, and `Peek` returns it. |
| FlowRandom.Draw | flow/DeterministicRandom.cpp:26-32 | Defines the value the `k`-th `gen64` call returns from a generator whose twister stands at `mtPos`. Call 0 returns the buffered word, built at `mtPos - 2`. Each later call returns the word two positions further on. `Gen64`, `RandomInt` and the loops of the workload are stated through it. |
| FlowRandom.DeterministicRandom.Valid | flow/DeterministicRandom.cpp:26-37 | Defines the generator's invariant: `next` is the word built from the last two twister values, as the constructor and every `gen64` leave it. |
| FlowRandom.JoinHalves | flow/DeterministicRandom.cpp:28 | The high and low 32 bits of a joined value are the two values it was joined from. |
| FlowRandom.SplitJoin | flow/DeterministicRandom.cpp:28 | Joining the high and low halves of any 64-bit value gives the value back. |
| FlowRandom.DeterministicRandom.constructor | flow/DeterministicRandom.cpp:34-37 | A non-zero seed is required; the buffer `next` is primed from the twister's first two values before any draw, and the twister stands after them. |
| FlowRandom.DeterministicRandom.Peek | flow/DeterministicRandom.cpp:130-132 | `peek` returns the buffered value, which is the word built from the last two values the twister produced. |
| FlowRandom.DeterministicRandom.Gen64 | flow/DeterministicRandom.cpp:26-32 | Returns the value `peek` reported just before the call, and refills `next` from two fresh twister values; the class invariant is kept. |
| FlowRandom.DeterministicRandom.Random | flow/DeterministicRandom.cpp:28 | One call of the twister (`random()`) returns the stream's value at the current position and advances the position by one, leaving `next` alone. |
| FlowRandom.RandomIntRange | flow/DeterministicRandom.cpp:48-54 | Both ways of computing `range`, the absolute difference when `maxPlusOne < 0` and the unsigned subtraction otherwise, give exactly `maxPlusOne - min`, without wrap-around. |
| FlowRandom.RandomIntOffset | flow/DeterministicRandom.cpp:57-60 | The result is `v + min` on both branches. |
| FlowRandom.RandomIntOffsetAgrees | flow/DeterministicRandom.cpp:57-60 | For a negative `min` with `-(unsigned)(min + 1) >= v`, the reconstruction `-(int)(-(unsigned)(min + 1) - v) - 1` stays within `int` and equals `v + min`; otherwise `v + min` computed in unsigned and cast back equals `v + min`. |
| FlowRandom.NegatedSuccessor32 | flow/DeterministicRandom.cpp:57 | For a negative `min`, the unsigned negation of `min + 1` is the non-negative number `-(min + 1)`. |
| FlowRandom.RandomIntOf | flow/DeterministicRandom.cpp:46-64 | The value `randomInt` derives from a draw lies in `[min, maxPlusOne)`. |
| FlowRandom.RandomIntOfOnto | flow/DeterministicRandom.cpp:46-64 | Every value of `[min, maxPlusOne)` is the result for some draw, namely the draw `k - min`. |
| FlowRandom.DeterministicRandom.RandomInt | flow/DeterministicRandom.cpp:46-64 | Consumes one draw; returns `RandomIntOf` of the value `peek` reported, which is `min + draw mod (maxPlusOne - min)` and lies in `[min, maxPlusOne)`. |
| FlowRandom.RandomInt64Range | flow/DeterministicRandom.cpp:68-74 | As for `randomInt`, over 64 bits: `range` is exactly `maxPlusOne - min` on both branches. |
| FlowRandom.RandomInt64Offset | flow/DeterministicRandom.cpp:77-80 | The result is `v + min` on both branches, over 64 bits. |
| FlowRandom.RandomInt64OffsetAgrees | flow/DeterministicRandom.cpp:77-80 | Both branches of the 64-bit reconstruction stay within `int64_t` and equal `v + min`. |
| FlowRandom.NegatedSuccessor64 | flow/DeterministicRandom.cpp:77 | For a negative `min`, the 64-bit unsigned negation of `min + 1` is `-(min + 1)`. |
| FlowRandom.RandomInt64Of | flow/DeterministicRandom.cpp:66-84 | The value `randomInt64` derives from a draw lies in `[min, maxPlusOne)`. |
| FlowRandom.RandomInt64OfOnto | flow/DeterministicRandom.cpp:66-84 | Every value of `[min, maxPlusOne)` is the result for some draw. |
| FlowRandom.DeterministicRandom.RandomInt64 | flow/DeterministicRandom.cpp:66-84 | Consumes one draw; returns `RandomInt64Of` of the value `peek` reported, in `[min, maxPlusOne)`. |
| FlowRandom.DeterministicRandom.RandomUInt32 | flow/DeterministicRandom.cpp:86-88 | Consumes one draw and returns its low 32 bits. |
| FlowRandom.DeterministicRandom.RandomUInt64 | flow/DeterministicRandom.cpp:90-92 | Consumes one draw and returns it unchanged. |
| FlowRandom.DeterministicRandom.RandomUniqueID | flow/DeterministicRandom.cpp:105-112 | Consumes two draws: the first becomes the id's first half, the second its second half. |
| FlowRandom.AlphanumTable | flow/DeterministicRandom.cpp:115 | The 62-character table holds the digits, then the upper-case letters, then the lower-case letters. The character at index `k` is the one `AlphanumAt(k)` names. |
| FlowRandom.IsAlphaNumeric | flow/DeterministicRandom.cpp:115 | Defines the characters of the table: a digit, an upper-case letter or a lower-case letter. |
| FlowRandom.AlphanumAt | flow/DeterministicRandom.cpp:115 | Defines entry `k` of the table from its three runs: digits at 0-9, upper case at 10-35, lower case at 36-61. |
| FlowRandom.AlphanumIndex | flow/DeterministicRandom.cpp:115 | Defines where an alphanumeric character sits in the table; `AlphanumIndexAt` and `AlphanumIndexInverse` prove it the inverse of `AlphanumAt`. |
| FlowRandom.AlphanumIndexAt | flow/DeterministicRandom.cpp:115 | Table position and character are inverse bijections between `0 .. 61` and `[0-9A-Za-z]`. |
| FlowRandom.AlphanumIndexInverse | flow/DeterministicRandom.cpp:115 | Every alphanumeric character appears in the table, at its index. |
| FlowRandom.AlphaNumericOf | flow/DeterministicRandom.cpp:116 | The character drawn is always one of `[0-9A-Za-z]`. |
| FlowRandom.AlphaNumericOfTable | flow/DeterministicRandom.cpp:116 | The character drawn is the table entry at `draw mod 62`. |
| FlowRandom.AlphaNumericOfOnto | flow/DeterministicRandom.cpp:114-120 | Every alphanumeric character is drawn by some draw. |
| FlowRandom.DeterministicRandom.RandomAlphaNumeric | flow/DeterministicRandom.cpp:114-120 | Consumes one draw and returns its table character, an alphanumeric. |
| FlowRandom.AlphaNumericsElements | flow/DeterministicRandom.cpp:122-128 | Character `k` of an `n`-character string is the character of draw `k`, and each one is alphanumeric. |
| FlowRandom.AlphaNumericsStep | flow/DeterministicRandom.cpp:125-126 | One more draw appends its character to the string of the draws before it. |
| FlowRandom.AlphaNumerics | flow/DeterministicRandom.cpp:122-128 | Defines the string of `n` successive `randomAlphaNumeric` draws, in order. `AlphaNumericsElements` states its characters. |
| FlowRandom.DeterministicRandom.RandomAlphaNumericString | flow/DeterministicRandom.cpp:122-128 | A negative length makes `reserve` throw before any draw: `None`, with the generator unchanged. Otherwise it returns exactly `length` characters, from `length` draws in order. |
| FlowRandom.ByteOfRoundTrip | flow/DeterministicRandom.cpp:144 | The four bytes `memcpy` copies from a 32-bit value, read back in little-endian order, give the value. |
| FlowRandom.ByteOf | flow/DeterministicRandom.cpp:144 | Defines byte `j` (0 the least significant) of a 32-bit value, which is the `j`-th byte `memcpy` copies on a little-endian target. |
| FlowRandom.ChunkBytes | flow/DeterministicRandom.cpp:144 | Defines the four bytes of a 32-bit value in memory order. |
| FlowRandom.Chunks | flow/DeterministicRandom.cpp:142 | The loop runs `ceil(length / 4)` times for a positive length, and not at all otherwise. |
| FlowRandom.RandomDataElements | flow/DeterministicRandom.cpp:141-146 | Byte `j` of the data is byte `j mod 4` of the low half of draw `j / 4`. |
| FlowRandom.RandomDataChunk | flow/DeterministicRandom.cpp:143-144 | Chunk `t` of the data is the four bytes of the value `randomUInt32` returns when the twister stands at the `t`-th iteration's position. |
| FlowRandom.RandomData | flow/DeterministicRandom.cpp:141-146 | Defines the bytes of the first `k` iterations' draws: chunk `t` is the four bytes of the low half of draw `t`. `RandomDataElements` and `RandomDataChunk` state its bytes. |
| FlowRandom.Copied | flow/DeterministicRandom.cpp:144 | Defines the buffer after `memcpy(&s[at], &val, count)`, one byte at a time. `CopiedBytes` proves it replaces exactly `s[at .. at + count)`. |
| FlowRandom.Fill | flow/DeterministicRandom.cpp:141-146 | Defines a buffer whose first `m` bytes have been overwritten, in order, by the data. `FillBytes` proves it is `data[..m] + orig[m..]`. |
| FlowRandom.Filled | flow/DeterministicRandom.cpp:141-142 | Defines how many bytes `generateRandomData` writes: `length` when it is positive, none otherwise. |
| FlowRandom.CopiedBytes | flow/DeterministicRandom.cpp:144 | `memcpy(&s[at], &val, count)` replaces exactly `s[at .. at + count)` by the first `count` bytes of `val`, and leaves everything else. |
| FlowRandom.CopyBytes | flow/DeterministicRandom.cpp:144 | The byte-at-a-time copy makes the buffer exactly `Copied` of its old contents. |
| FlowRandom.FillBytes | flow/DeterministicRandom.cpp:141-146 | A buffer filled up to `m` holds the first `m` data bytes and its old contents from `m` on. |
| FlowRandom.FillChunkStep | flow/DeterministicRandom.cpp:144 | Copying the first `n` bytes of chunk `i / 4` into a buffer filled up to `i` fills it up to `i + n`. |
| FlowRandom.GenerateRandomData | flow/DeterministicRandom.cpp:141-146 | Uses `ceil(length / 4)` draws. Bytes `[0, length)` become the data, byte `j` from draw `j / 4`, so the last chunk may be partial. Every byte from `length` on keeps its old value. A non-positive length draws nothing and writes nothing. |
| FlowRandom.FillChunk | flow/DeterministicRandom.cpp:142-144 | One iteration: one draw, and the buffer filled up to `min(i + 4, length)`. |
| FlowRandom.CopyChunk | flow/DeterministicRandom.cpp:144 | The copy of one iteration extends the filled prefix to `min(i + 4, length)`. |
| FlowRandom.ChunkCopied | flow/DeterministicRandom.cpp:143-144 | On values: copying what fits of iteration `k`'s draw at offset `4 * k` extends the filled prefix to `min(4 * k + 4, length)`. |
| FlowRandom.ChunksOf | flow/DeterministicRandom.cpp:142 | The loop that stops at the first `i = 4k >= length` made `Chunks(length)` iterations and wrote `max(length, 0)` bytes. |
| Keys.KeyLeqReflexive | fdbserver/workloads/ReportConflictingKeys.actor.cpp:190 | The byte-lexicographic order on keys is reflexive. |
| Keys.KeyLeqAntisymmetric | fdbserver/workloads/ReportConflictingKeys.actor.cpp:190 | The order is antisymmetric. |
| Keys.KeyLeqTransitive | fdbserver/workloads/ReportConflictingKeys.actor.cpp:190 | The order is transitive. |
| Keys.KeyLeqTotal | fdbserver/workloads/ReportConflictingKeys.actor.cpp:190 | The order is total. |
| Keys.KeyLeq | fdbserver/workloads/ReportConflictingKeys.actor.cpp:190 | Defines `a <= b` on keys in byte-lexicographic order: a proper prefix sorts first. `KeyLeqReflexive`, `KeyLeqAntisymmetric`, `KeyLeqTransitive` and `KeyLeqTotal` prove it a total order. |
| Keys.KeyLess | fdbserver/workloads/ReportConflictingKeys.actor.cpp:200 | Defines the strict order `a < b` that `intersects` uses. `KeyLessLeq` and `KeyLessIsNotLeq` state its properties. |
| Keys.Ordered | fdbserver/workloads/ReportConflictingKeys.actor.cpp:184 | Defines the bounds `KeyRangeRef(begin, end)` accepts: the begin is not after the end. |
| Keys.Contains | fdbserver/workloads/ReportConflictingKeys.actor.cpp:190 | Defines `r.contains(o)`: `o` begins no earlier and ends no later than `r`. `ContainsReflexive` and `ContainsTransitive` state its properties. |
| Keys.Intersects | fdbserver/workloads/ReportConflictingKeys.actor.cpp:200 | Defines `r.intersects(o)`: each range begins before the other ends. `IntersectsSymmetric` and `ContainsIntersects` state its properties. |
| Keys.KeyLessLeq | fdbserver/workloads/ReportConflictingKeys.actor.cpp:200 | A strict and a non-strict comparison chain into a strict one. |
| Keys.KeyLessIsNotLeq | fdbserver/workloads/ReportConflictingKeys.actor.cpp:200 | `a < b` holds exactly when `b <= a` does not. |
| Keys.ContainsReflexive | fdbserver/workloads/ReportConflictingKeys.actor.cpp:190 | Every range contains itself. |
| Keys.ContainsTransitive | fdbserver/workloads/ReportConflictingKeys.actor.cpp:186-190 | Containment is transitive, so a range merged from several ranges that contains a merged range contains its parts. |
| Keys.IntersectsSymmetric | fdbserver/workloads/ReportConflictingKeys.actor.cpp:196-211 | `intersects` is symmetric, so `kr.intersects(wCR)` and `wCR.intersects(rCR)` ask the same question. |
| Keys.ContainsIntersects | fdbserver/workloads/ReportConflictingKeys.actor.cpp:185-200 | A range that contains a range meeting `c` meets `c` too. |
| ConflictReport.HasPrefix | fdbserver/workloads/ReportConflictingKeys.actor.cpp:182-183 | Defines whether a key starts with a given prefix, which `removePrefix` needs. |
| ConflictReport.RemovePrefix | fdbserver/workloads/ReportConflictingKeys.actor.cpp:182-183 | Removing the conflicting-keys prefix from a key that has it leaves the rest, and putting the prefix back gives the key. |
| ConflictReport.PairWellFormed | fdbserver/workloads/ReportConflictingKeys.actor.cpp:177-184 | Defines a pair that passes all of the loop's tests. Row `2i` is marked true and row `2i + 1` false, both keys carry the prefix, and the begin is not after the end once the prefix is removed. `DecodePair` is proved to succeed exactly on these pairs. |
| ConflictReport.PairRange | fdbserver/workloads/ReportConflictingKeys.actor.cpp:182-184 | Defines the range `KeyRangeRef(startKey, endKey)` of a well-formed pair: both keys with the prefix removed. |
| ConflictReport.DecodePair | fdbserver/workloads/ReportConflictingKeys.actor.cpp:177-184 | Pair `i` decodes exactly when it is well formed: row `2i` marked true, row `2i + 1` marked false, both keys carrying the conflicting-keys prefix, and a begin not after its end. The markers are tested first, as the two `ASSERT`s do. The prefix test has no counterpart in the workload (see Left out). A well-formed pair decodes to both keys without the prefix. A pair whose begin is after its end fails with `InvertedPair`: `KeyRangeRef` throws there. |
| ConflictReport.DecodeFromSpec | fdbserver/workloads/ReportConflictingKeys.actor.cpp:176-184 | Pairs are decoded in order up to the first malformed one. Each decoded range is its pair without prefixes. There is no error exactly when every pair was decoded. |
| ConflictReport.DecodeAccepts | fdbserver/workloads/ReportConflictingKeys.actor.cpp:175-184 | A report is accepted exactly when it is non-empty, of even length, and every pair is well formed; range `i` is then `[key(2i), key(2i + 1))` without the prefix. |
| ConflictReport.AllPairsDecode | fdbserver/workloads/ReportConflictingKeys.actor.cpp:176-184 | When every remaining pair is well formed, decoding them raises no error. |
| ConflictReport.EncodeRows | fdbserver/workloads/ReportConflictingKeys.actor.cpp:177-180 | In the encoding of a list of ranges, row `2i` is range `i`'s prefixed begin marked true and row `2i + 1` its prefixed end marked false. |
| ConflictReport.Encode | fdbserver/workloads/ReportConflictingKeys.actor.cpp:175-184 | Defines the rows a list of ranges is reported as: for each range, its prefixed begin marked true, then its prefixed end marked false. `DecodeEncode` and `EncodeDecode` prove decoding its inverse. |
| ConflictReport.PrefixRoundTrip | fdbserver/workloads/ReportConflictingKeys.actor.cpp:182-183 | A prefixed key carries the prefix, and removing it gives the key back. |
| ConflictReport.DecodeEncode | fdbserver/workloads/ReportConflictingKeys.actor.cpp:175-184 | The encoding of a non-empty list of ranges decodes exactly when every range in it has its begin not after its end, and then decodes to the list itself. |
| ConflictReport.EncodeDecode | fdbserver/workloads/ReportConflictingKeys.actor.cpp:175-184 | Every accepted report is the encoding of what it decodes to. |
| ConflictReport.Limit | fdbserver/workloads/ReportConflictingKeys.actor.cpp:171-172 | `getRange` with a limit returns a prefix of the rows, no longer than the limit, and all rows when they fit. |
| ConflictReport.DecodeWithinLimit | fdbserver/workloads/ReportConflictingKeys.actor.cpp:171-172 | Read with limit `2 * n`, a report decodes to at most `n` ranges. |
| ConflictReport.DecodeFrom | fdbserver/workloads/ReportConflictingKeys.actor.cpp:176-184 | Defines the decoding loop from pair `i` on: pairs are decoded in order until one is malformed, which stops the loop with its error. `DecodeFromSpec` states what it produces. |
| ConflictReport.DecodePartial | fdbserver/workloads/ReportConflictingKeys.actor.cpp:175-184 | Defines the decoding as the workload does it: the size `ASSERT` first, then the loop. Its ranges are those of the pairs decoded before any failure; they are what the checks count. |
| ConflictReport.Decode | fdbserver/workloads/ReportConflictingKeys.actor.cpp:175-184 | Defines the decoded report, or the first reason it is refused. `DecodeAccepts`, `DecodeEncode` and `EncodeDecode` state what it accepts and that it inverts the encoding. |
| ConflictCheck.ReportPenalty | fdbserver/workloads/ReportConflictingKeys.actor.cpp:185-205 | A reported range adds 1 exactly when it is not sound, or is sound but not relevant, and 0 otherwise; never more than 1. |
| ConflictCheck.CountInvalid | fdbserver/workloads/ReportConflictingKeys.actor.cpp:176-205 | The penalties of a report add up to at most its number of ranges. |
| ConflictCheck.CountInvalidSnoc | fdbserver/workloads/ReportConflictingKeys.actor.cpp:176-205 | Checking one more range adds that range's penalty. |
| ConflictCheck.CountInvalidZero | fdbserver/workloads/ReportConflictingKeys.actor.cpp:185-205 | A report adds nothing exactly when every range in it is sound and relevant. |
| ConflictCheck.CountInvalidAll | fdbserver/workloads/ReportConflictingKeys.actor.cpp:185-205 | A report adds one per range exactly when no range in it is both sound and relevant. |
| ConflictCheck.JustifiedPasses | fdbserver/workloads/ReportConflictingKeys.actor.cpp:186-200 | A range that contains a recorded read range that some write range meets is both sound and relevant. |
| ConflictCheck.HonestReportPasses | fdbserver/workloads/ReportConflictingKeys.actor.cpp:185-205 | If every reported range spans a read range that some write range meets, as a resolver reporting an original or merged read range would, then the report adds nothing to `invalidReports`. |
| ConflictCheck.ExactReportPasses | fdbserver/workloads/ReportConflictingKeys.actor.cpp:185-205 | A report of unmerged recorded read ranges, each met by a write range, adds nothing. |
| ConflictCheck.MissedConflictIsRelevance | fdbserver/workloads/ReportConflictingKeys.actor.cpp:196-211 | The commit path's test holds exactly when some recorded read range would pass the conflict path's relevance test. |
| ConflictCheck.CountInvalidReports | fdbserver/workloads/ReportConflictingKeys.actor.cpp:175-205 | Returns why the report is refused, which is `None` exactly when decoding succeeds. Also returns the sum of the penalties of the pairs decoded before any failure, since those increments happen before a later assertion or `KeyRangeRef` throws. |
| ConflictCheck.CountedPair | fdbserver/workloads/ReportConflictingKeys.actor.cpp:176-205 | One iteration of the decoding loop: a pair that decodes moves its range from what is left to decode to what has been counted, and adds its penalty. |
| ConflictCheck.CheckNoMissedConflict | fdbserver/workloads/ReportConflictingKeys.actor.cpp:207-222 | Adds exactly 1 when some read range is met by some write range, and 0 otherwise; the `break` stops at the first. |
| ConflictCheck.Sound | fdbserver/workloads/ReportConflictingKeys.actor.cpp:185-191 | Defines the first test: the reported range contains some recorded read range. |
| ConflictCheck.Relevant | fdbserver/workloads/ReportConflictingKeys.actor.cpp:196-201 | Defines the second test: the reported range intersects some recorded write range. |
| ConflictCheck.MissedConflict | fdbserver/workloads/ReportConflictingKeys.actor.cpp:209-217 | Defines the commit path's test: some recorded read range is intersected by some recorded write range. `MissedConflictIsRelevance` relates it to `Relevant`. |
| ConflictCheck.HitByWrite | fdbserver/workloads/ReportConflictingKeys.actor.cpp:210-217 | Defines the inner `any_of` of the commit path: some recorded write range intersects the read range. |
| ConflictCheck.Justified | fdbserver/workloads/ReportConflictingKeys.actor.cpp:185-191 | Defines a range a resolver that found a real conflict would report. It contains a recorded read range that some recorded write range meets. This is the comment's claim at lines 186-189. `JustifiedPasses` and `HonestReportPasses` prove such ranges add nothing. |
| ReportConflictingKeys.Transaction.AddReadConflictRange | fdbserver/workloads/ReportConflictingKeys.actor.cpp:106 | Appends the range to the transaction's read conflict ranges. |
| ReportConflictingKeys.Transaction.AddWriteConflictRange | fdbserver/workloads/ReportConflictingKeys.actor.cpp:119 | Appends the range to the transaction's write conflict ranges. |
| ReportConflictingKeys.Transaction.Reset | fdbserver/workloads/ReportConflictingKeys.actor.cpp:231-232 | `reset` leaves the transaction with no conflict ranges. |
| ReportConflictingKeys.KeyRangeVector.PushBack | fdbserver/workloads/ReportConflictingKeys.actor.cpp:107 | `push_back` appends the range. |
| ReportConflictingKeys.KeyRangeVector.Clear | fdbserver/workloads/ReportConflictingKeys.actor.cpp:229-230 | `clear` empties the vector. |
| ReportConflictingKeys.IndexPair | fdbserver/workloads/ReportConflictingKeys.actor.cpp:102-103 | Every drawn index pair has `0 <= startIdx < nodeCount` and `startIdx <= endIdx <= nodeCount`. |
| ReportConflictingKeys.IndexPairOnto | fdbserver/workloads/ReportConflictingKeys.actor.cpp:102-103 | Every pair those bounds allow is drawn by some draws, including an empty range with `startIdx == endIdx`. |
| ReportConflictingKeys.RangeFromIndices | fdbserver/workloads/ReportConflictingKeys.actor.cpp:102-105 | The indices the two `randomInt` calls return are valid table indices, and the range built from their keys is the one the draws determine. |
| ReportConflictingKeys.ComparedAfterRange | fdbserver/workloads/ReportConflictingKeys.actor.cpp:102-108 | After a range's two draws, the next draw is the one `random01` compares. |
| ReportConflictingKeys.ReportRows | fdbserver/workloads/ReportConflictingKeys.actor.cpp:171-172 | Defines the rows `tr2.getRange(ckr, readConflictRanges.size() * 2)` returns: the store's rows cut to twice the number of recorded read ranges by `Limit`. |
| ReportConflictingKeys.CommitAttempts | fdbserver/workloads/ReportConflictingKeys.actor.cpp:147-155 | Defines how often a pass runs `++commits`: never when the read version fails, once when the first commit fails, twice otherwise. |
| ReportConflictingKeys.Successes | fdbserver/workloads/ReportConflictingKeys.actor.cpp:149-157 | Defines how often a pass runs `++xacts`: once for each commit that succeeds, the second commit being tried only after the first succeeded. |
| ReportConflictingKeys.Conflicted | fdbserver/workloads/ReportConflictingKeys.actor.cpp:158-161 | Defines the pass that runs `++conflicts`: both earlier steps succeeded and the second commit failed with `not_committed`. |
| ReportConflictingKeys.ConflictCount | fdbserver/workloads/ReportConflictingKeys.actor.cpp:161 | Defines what a pass adds to `conflicts`: 1 when it conflicted, 0 otherwise. |
| ReportConflictingKeys.RangeOf | fdbserver/workloads/ReportConflictingKeys.actor.cpp:102-105 | Defines the range drawn by the two `randomInt` calls of a round whose twister stands at `p`: the keys of the index pair the two draws give. |
| ReportConflictingKeys.ComparedOf | fdbserver/workloads/ReportConflictingKeys.actor.cpp:108 | Defines the draw the `random01() <` comparison of a round tests: the third draw of the round. |
| ReportConflictingKeys.RoundBookkeeping | fdbserver/workloads/ReportConflictingKeys.actor.cpp:147-161 | In one pass, successes plus conflicts never exceed commit attempts, and there are at most two attempts. |
| ReportConflictingKeys.TotalBookkeeping | fdbserver/workloads/ReportConflictingKeys.actor.cpp:147-161 | Over any run of passes, successes plus conflicts are at most the commit attempts, which are at most two per pass. |
| ReportConflictingKeys.TotalAttempts | fdbserver/workloads/ReportConflictingKeys.actor.cpp:131-233 | Defines the `++commits` of a run of passes: the sum of each pass's `CommitAttempts`. |
| ReportConflictingKeys.TotalSuccesses | fdbserver/workloads/ReportConflictingKeys.actor.cpp:131-233 | Defines the `++xacts` of a run of passes: the sum of each pass's `Successes`. |
| ReportConflictingKeys.TotalConflicts | fdbserver/workloads/ReportConflictingKeys.actor.cpp:131-233 | Defines the `++conflicts` of a run of passes: the number of passes that conflicted. |
| ReportConflictingKeys.TotalVerdicts | fdbserver/workloads/ReportConflictingKeys.actor.cpp:192-218 | Defines the `++invalidReports` of a run of passes: the sum of each pass's `Verdict` over the ranges that pass recorded. |
| ReportConflictingKeys.TotalsSnoc | fdbserver/workloads/ReportConflictingKeys.actor.cpp:147-218 | One more pass adds its own attempts, successes, conflict and verdict to the run's totals. |
| ReportConflictingKeys.TotalVerdictsZero | fdbserver/workloads/ReportConflictingKeys.actor.cpp:73 | `check()` passes when `invalidReports` is 0. Over a run that starts from zero, that holds exactly when every pass's verdict is 0. |
| ReportConflictingKeys.RoundEnds | fdbserver/workloads/ReportConflictingKeys.actor.cpp:175-228 | A pass that stops the client had an error reach its `catch`. A conflicted pass goes on only if its report decoded. A conflicted pass whose report fails to decode stops with the error that failure raises. |
| ReportConflictingKeys.Raised | fdbserver/workloads/ReportConflictingKeys.actor.cpp:179-184 | A failed `ASSERT` in decoding raises `internal_error`, an inverted pair raises `inverted_range`, and neither is retryable. |
| ReportConflictingKeys.StartOver | fdbserver/workloads/ReportConflictingKeys.actor.cpp:229-232 | Both range vectors end empty and both transactions end with no conflict ranges. |
| ReportConflictingKeys.EndPass | fdbserver/workloads/ReportConflictingKeys.actor.cpp:224-232 | A pass stops exactly when the error that reached the `catch` is not retryable; it then returns that error and leaves the vectors and transactions as they were. Otherwise both vectors are cleared and both transactions reset. |
| ReportConflictingKeys.ReportConflictingKeysWorkload.constructor | fdbserver/workloads/ReportConflictingKeys.actor.cpp:38-42 | Every counter starts at zero, and the workload is set up over its key table and generator. |
| ReportConflictingKeys.ReportConflictingKeysWorkload.Tabled | fdbserver/workloads/ReportConflictingKeys.actor.cpp:91-108 | Defines the workload's fixed setting: `1 <= nodeCount <= 2^31 - 2`, a `keyForIndex` table of `nodeCount + 1` keys, and the range and compared draw at each twister position being `RangeOf` and `ComparedOf` for this generator. |
| ReportConflictingKeys.ReportConflictingKeysWorkload.Valid | fdbserver/workloads/ReportConflictingKeys.actor.cpp:38-60 | Defines the workload's invariant: `Tabled`, the generator's own invariant, and `xacts + conflicts <= commits`. |
| ReportConflictingKeys.ReportConflictingKeysWorkload.Compared | fdbserver/workloads/ReportConflictingKeys.actor.cpp:108 | Defines the draw that round `t` of a loop starting at `p0` compares: `ComparedOf` six positions per round on. |
| ReportConflictingKeys.ReportConflictingKeysWorkload.DrawnRange | fdbserver/workloads/ReportConflictingKeys.actor.cpp:102-107 | Defines the range round `t` of a loop starting at `p0` draws, adds and records. |
| ReportConflictingKeys.ReportConflictingKeysWorkload.DrawnRanges | fdbserver/workloads/ReportConflictingKeys.actor.cpp:101-108 | Defines the ranges of rounds `0 .. n` of a loop, in order. `DrawnRangesElement` states its elements. |
| ReportConflictingKeys.ReportConflictingKeysWorkload.WentOn | fdbserver/workloads/ReportConflictingKeys.actor.cpp:108 | Defines reaching round `t` of the do-while: every earlier round's `random01() < prob` held. `WentOnEvery` restates it over all earlier rounds. |
| ReportConflictingKeys.ReportConflictingKeysWorkload.Rounds | fdbserver/workloads/ReportConflictingKeys.actor.cpp:101-108 | Defines a do-while that makes exactly `n` rounds: at least one, every comparison before the last held, and the last failed. `RoundsUnique` proves `n` determined by the draws. |
| ReportConflictingKeys.ReportConflictingKeysWorkload.StopsFrom | fdbserver/workloads/ReportConflictingKeys.actor.cpp:108 | Defines that a loop starting at `p0` ends: some round's comparison fails. |
| ReportConflictingKeys.ReportConflictingKeysWorkload.Terminating | fdbserver/workloads/ReportConflictingKeys.actor.cpp:101-121 | Defines that both loops end from every twister position. This is a hypothesis; see Left out. |
| ReportConflictingKeys.ReportConflictingKeysWorkload.MonotoneKeys | fdbserver/workloads/ReportConflictingKeys.actor.cpp:91-96 | Defines that `keyForIndex` respects the order of indices. This is a hypothesis; see Left out. |
| ReportConflictingKeys.ReportConflictingKeysWorkload.RandomRange | fdbserver/workloads/ReportConflictingKeys.actor.cpp:102-105 | Two `randomInt` draws, then the range between the keys of the two indices drawn. |
| ReportConflictingKeys.ReportConflictingKeysWorkload.DrawRound | fdbserver/workloads/ReportConflictingKeys.actor.cpp:101-108 | One round consumes three draws: the range, then the value `random01` compares. |
| ReportConflictingKeys.ReportConflictingKeysWorkload.DrawnRangesElement | fdbserver/workloads/ReportConflictingKeys.actor.cpp:101-108 | Range `t` of the recorded list is the range round `t` draws. |
| ReportConflictingKeys.ReportConflictingKeysWorkload.WentOnEvery | fdbserver/workloads/ReportConflictingKeys.actor.cpp:108 | The do-while reaches round `t` exactly when every earlier round's comparison held. |
| ReportConflictingKeys.ReportConflictingKeysWorkload.LastRound | fdbserver/workloads/ReportConflictingKeys.actor.cpp:101-108 | A loop that reaches round `t` and fails its comparison makes exactly `t + 1` rounds. |
| ReportConflictingKeys.ReportConflictingKeysWorkload.RoundsUnique | fdbserver/workloads/ReportConflictingKeys.actor.cpp:101-108 | The number of rounds is determined by the draws: the loop stops at the first failing comparison. |
| ReportConflictingKeys.ReportConflictingKeysWorkload.FirstRangesUnique | fdbserver/workloads/ReportConflictingKeys.actor.cpp:145-146 | The draws from a position fix the first transaction's two round counts and its recorded write ranges. |
| ReportConflictingKeys.ReportConflictingKeysWorkload.SecondRangesUnique | fdbserver/workloads/ReportConflictingKeys.actor.cpp:153-154 | The draws from a position fix the second transaction's two round counts and its recorded read ranges. |
| ReportConflictingKeys.ReportConflictingKeysWorkload.FirstRanges | fdbserver/workloads/ReportConflictingKeys.actor.cpp:145-146 | Defines the first transaction's draws from `p0`. The read loop makes `n1` rounds, then the write loop makes `n2` rounds from `p0 + 6 * n1`, and the recorded ranges are the write loop's. |
| ReportConflictingKeys.ReportConflictingKeysWorkload.SecondRanges | fdbserver/workloads/ReportConflictingKeys.actor.cpp:153-154 | Defines the second transaction's draws from `p0`. The read loop makes `m1` rounds, then the write loop makes `m2` rounds from `p0 + 6 * m1`, and the recorded ranges are the read loop's. |
| ReportConflictingKeys.ReportConflictingKeysWorkload.PassRanges | fdbserver/workloads/ReportConflictingKeys.actor.cpp:143-156 | Defines the draws of a pass as far as the store's answers let it run. The first transaction's loops run once the read version is obtained, and the second's once the first commit succeeded, right after the first's. A stage not reached draws and records nothing. |
| ReportConflictingKeys.ReportConflictingKeysWorkload.PassDrawn | fdbserver/workloads/ReportConflictingKeys.actor.cpp:131-156 | Defines a whole pass from twister position `p` to `q`: the two option draws, then the loops as `PassRanges` says. `q` is four positions beyond `p` for the option draws, plus six per round. |
| ReportConflictingKeys.ReportConflictingKeysWorkload.PassRecord | fdbserver/workloads/ReportConflictingKeys.actor.cpp:131-233 | Defines the record of the first `n` passes. Pass `t` ran `PassDrawn` on input `t`, from position `at[t]` to `at[t + 1]`. |
| ReportConflictingKeys.ReportConflictingKeysWorkload.EndsAsRecorded | fdbserver/workloads/ReportConflictingKeys.actor.cpp:224-233 | Defines a client that made `n` passes and ends as `end`. Every pass but the last went on, and `end` is how the last pass ended, or `Continued` when there was none. |
| ReportConflictingKeys.ReportConflictingKeysWorkload.Counted | fdbserver/workloads/ReportConflictingKeys.actor.cpp:131-233 | Defines each counter having grown, from its starting value, by the totals of the first `n` passes. |
| ReportConflictingKeys.ReportConflictingKeysWorkload.DrawnRangeInKeySpace | fdbserver/workloads/ReportConflictingKeys.actor.cpp:102-105 | With an order-respecting `keyForIndex`, every drawn range is well ordered and lies within the keys of indices `0 .. nodeCount`. |
| ReportConflictingKeys.ReportConflictingKeysWorkload.ReadRound | fdbserver/workloads/ReportConflictingKeys.actor.cpp:102-108 | One round appends the drawn range to the transaction and, when there is one, to the record, and goes on exactly when the compared draw is below the bound. |
| ReportConflictingKeys.ReportConflictingKeysWorkload.AddRandomReadConflictRange | fdbserver/workloads/ReportConflictingKeys.actor.cpp:98-109 | Makes at least one round and stops at the first failing comparison. It appends exactly the drawn ranges, in order, to the transaction's read ranges. When a vector is given it appends the same ranges there, leaving earlier entries unchanged. Each round uses three draws. |
| ReportConflictingKeys.ReportConflictingKeysWorkload.WriteRound | fdbserver/workloads/ReportConflictingKeys.actor.cpp:115-121 | As `ReadRound`, for write conflict ranges. |
| ReportConflictingKeys.ReportConflictingKeysWorkload.AddRandomWriteConflictRange | fdbserver/workloads/ReportConflictingKeys.actor.cpp:111-122 | As `AddRandomReadConflictRange`, for write conflict ranges. |
| ReportConflictingKeys.ReportConflictingKeysWorkload.AddFirstRanges | fdbserver/workloads/ReportConflictingKeys.actor.cpp:145-146 | Starting from a transaction and a vector with no ranges, as `reset` and `clear` leave them, and the twister at `p0`: the unrecorded read loop makes `n1` rounds, and the transaction's read ranges are exactly those `n1` drawn ranges. The write loop then makes `n2` rounds from `p0 + 6 * n1`. Its ranges are exactly the transaction's write ranges and exactly the recorded ones. The twister ends `6 * (n1 + n2)` values on. |
| ReportConflictingKeys.ReportConflictingKeysWorkload.AddSecondRanges | fdbserver/workloads/ReportConflictingKeys.actor.cpp:153-154 | Starting from an empty transaction and vector, with the twister at `p0`: the recorded read loop makes `m1` rounds. Its ranges are exactly the transaction's read ranges and exactly the recorded ones. The unrecorded write loop then makes `m2` rounds from `p0 + 6 * m1`, and the transaction's write ranges are exactly those drawn ranges. The twister ends `6 * (m1 + m2)` values on. |
| ReportConflictingKeys.ReportConflictingKeysWorkload.FirstTransaction | fdbserver/workloads/ReportConflictingKeys.actor.cpp:145-147 | The first transaction's ranges as in `AddFirstRanges`: its unrecorded read ranges are the `n1` drawn ones, and its write ranges are the recorded ones. Then one commit attempt is counted, leaving `xacts`, `conflicts` and `invalidReports` alone. |
| ReportConflictingKeys.ReportConflictingKeysWorkload.PassRangesRecorded | fdbserver/workloads/ReportConflictingKeys.actor.cpp:101-121 | Once a transaction's stage is reached, its recorded vector holds exactly as many ranges as its recording loop made rounds, and at least one. |
| ReportConflictingKeys.ReportConflictingKeysWorkload.PassRecordSnoc | fdbserver/workloads/ReportConflictingKeys.actor.cpp:131-233 | A record of the first `n` passes, extended by one pass drawn from the position where the record ends, is a record of the first `n + 1` passes. |
| ReportConflictingKeys.ReportConflictingKeysWorkload.EndsAsRecordedSnoc | fdbserver/workloads/ReportConflictingKeys.actor.cpp:224-233 | After passes that all went on, one more pass makes the client end as that pass did, and every earlier pass still went on. |
| ReportConflictingKeys.ReportConflictingKeysWorkload.PassRangesSkipped | fdbserver/workloads/ReportConflictingKeys.actor.cpp:143 | A pass whose read version failed runs no generator loop and records nothing. |
| ReportConflictingKeys.ReportConflictingKeysWorkload.PassRangesReached | fdbserver/workloads/ReportConflictingKeys.actor.cpp:143-154 | A pass that got its read version runs the first transaction's two loops, and the second transaction's two loops only if the first commit succeeded; a failed first commit records no read ranges. |
| ReportConflictingKeys.ReadVersionFailed | fdbserver/workloads/ReportConflictingKeys.actor.cpp:143 | A pass whose read version fails makes no commit attempt, counts no success or conflict, adds no verdict, and throws the read version's error. |
| ReportConflictingKeys.FirstCommitFailed | fdbserver/workloads/ReportConflictingKeys.actor.cpp:147-148 | A pass whose first commit fails makes one attempt, counts no success or conflict, adds no verdict, and throws that commit's error. |
| ReportConflictingKeys.FirstCommitSucceeded | fdbserver/workloads/ReportConflictingKeys.actor.cpp:147-157 | A pass whose first commit succeeds makes two attempts. It counts two successes when the second commit succeeds, and one otherwise. |
| ReportConflictingKeys.ClosedAsEndOf | fdbserver/workloads/ReportConflictingKeys.actor.cpp:224-232 | A pass closed as `EndPass` closes it, on the error its `catch` received, ends as `EndOf` says. |
| ReportConflictingKeys.ReportConflictingKeysWorkload.CommitSecond | fdbserver/workloads/ReportConflictingKeys.actor.cpp:152-223 | Counts the attempt, and counts a success or a `not_committed` conflict. `invalidReports` grows by the verdict: the report's penalties after a conflict, 1 for a missed conflict after a success, 0 otherwise. Returns the error that escapes. |
| ReportConflictingKeys.ReportConflictingKeysWorkload.SecondTransaction | fdbserver/workloads/ReportConflictingKeys.actor.cpp:153-223 | The second transaction's ranges as in `AddSecondRanges`: its read ranges are the recorded ones, and its unrecorded write ranges are the `m2` ranges drawn from `p0 + 6 * m1`. Then its commit and checks as in `CommitSecond`, with the recorded read ranges being the ones drawn. |
| ReportConflictingKeys.ReportConflictingKeysWorkload.AfterReadVersion | fdbserver/workloads/ReportConflictingKeys.actor.cpp:145-223 | After a read version: the first transaction's ranges as in `AddFirstRanges`, one attempt, then either the first commit's error with nothing more drawn, or a success and the second transaction from where the first stopped. Both transactions' unrecorded ranges are stated too: the first's read ranges are the `n1` ranges drawn from `p0`, and the second's write ranges are the `m2` ranges drawn after its `m1` read rounds (none when the first commit failed). |
| ReportConflictingKeys.ReportConflictingKeysWorkload.RunTransactions | fdbserver/workloads/ReportConflictingKeys.actor.cpp:143-223 | The body of the `try`: a failed read version ends it with that error, drawing nothing; otherwise as `AfterReadVersion`. The counters grow by the attempts, successes, conflict and verdict, and the error returned is the one that reaches the `catch`. All four loops' ranges are stated: the recorded ones through `PassRanges`, and the unrecorded read ranges of the first transaction and write ranges of the second as the ranges drawn at their positions. |
| ReportConflictingKeys.ReportConflictingKeysWorkload.ChooseReadYourWrites | fdbserver/workloads/ReportConflictingKeys.actor.cpp:136-139 | The two `READ_YOUR_WRITES_DISABLE` choices consume two draws. |
| ReportConflictingKeys.ReportConflictingKeysWorkload.Iteration | fdbserver/workloads/ReportConflictingKeys.actor.cpp:131-232 | `commits`, `xacts`, `conflicts` and `invalidReports` grow by the pass's attempts, successes, conflict and verdict. After the two option draws at `p`, the four generator loops run back to back: `n1` and `n2` rounds from `p`, then `m1` and `m2` from `p + 6 * (n1 + n2)`, and stages not reached draw nothing. The recorded write ranges are the ranges of the `n2` loop and the recorded read ranges those of the `m1` loop, at least one each when reached. A pass that goes on leaves both vectors and both transactions empty; one that stops leaves them as recorded and returns the error. |
| ReportConflictingKeys.ReportConflictingKeysWorkload.ClientPass | fdbserver/workloads/ReportConflictingKeys.actor.cpp:131-233 | Pass `n` of the loop, after passes that all went on and with everything empty as `clear` and `reset` left it: the record of passes grows by this pass's twister positions, rounds and recorded ranges; the client ends as this pass did; each counter total grows by this pass's attempts, successes, conflict and verdict; a pass that goes on leaves both vectors and both transactions empty for the next one. |
| ReportConflictingKeys.ReportConflictingKeysWorkload.ConflictingClient | fdbserver/workloads/ReportConflictingKeys.actor.cpp:124-233 | The client makes one pass per input until one stops it, and returns how many passes it made. Pass `t` ran on input `t` with the twister going from `at[t]` to `at[t + 1]`, drawing and recording as `Iteration` states; the first position is the twister's position at the start, and the last is its position at the end. Every pass but the last went on, and the client ends as its last pass did: `EndOf` of that pass's input and recorded read ranges. It runs out of inputs only if it went on, and it stops only with an error that is not retryable. Each of `commits`, `xacts`, `conflicts` and `invalidReports` grows by exactly the total of the passes made; for `invalidReports` that is the sum of each pass's verdict over its own recorded ranges. `xacts + conflicts <= commits` is part of the preserved invariant. |
| ReportConflictingKeys.Retryable | fdbserver/workloads/ReportConflictingKeys.actor.cpp:224-227 | Defines which errors `onError` swallows so the loop goes on: `not_committed` and other retryable errors. `internal_error` and `inverted_range` are rethrown, as `Raised` states. |
| ReportConflictingKeys.Verdict | fdbserver/workloads/ReportConflictingKeys.actor.cpp:164-223 | Defines what one pass adds to `invalidReports` over its recorded ranges. Nothing is added when the read version or the first commit failed. After a conflict, it adds the penalties of the ranges decoded before any failure. After a success, it adds 1 for a missed conflict. `CommitSecond`, `Iteration` and `TotalVerdictsZero` use it. |
| ReportConflictingKeys.Thrown | fdbserver/workloads/ReportConflictingKeys.actor.cpp:143-184 | Defines the error that reaches the pass's `catch`, in program order: the read version's, the first commit's, a second-commit error other than `not_committed`, then the error the report's decoding raises. `RoundEnds` states its properties. |
| ReportConflictingKeys.EndOf | fdbserver/workloads/ReportConflictingKeys.actor.cpp:224-228 | Defines how a pass ends: it goes on when nothing was thrown or `onError` retried the error, and it stops with a rethrown error otherwise. `Iteration` is proved to end this way. |

## Left out

- The Mersenne Twister itself (`std::mt19937`) is not modelled. Only its output stream is.
- Plumbing left out, because it is asynchronous I/O:
  - the actor plumbing (`_start`, `timeout`, `wait`);
  - the `Database` and the transactions' I/O (`getReadVersion`, `setVersion`, `commit`, `getRange`, `onError`, `setOption`);
  - workload registration.
  The store's answers are inputs instead. A pass's answers are a `RoundInput`, and `getRange` is modelled as `Limit` on the rows the store would return.
- `READ_YOUR_WRITES_DISABLE` changes only how the store merges overlapping ranges. The store's answers already stand for that, so the model keeps only the two draws.
- The option parsing in the workload's constructor and the floating-point probabilities are replaced by draw bounds (`readBound`, `writeBound`). `random01` is not modelled as floating point; the division by `2^64 - 1` is monotone, which is what makes a bound exist.
- The do-while loops of the range generators end only if some later draw fails the comparison. The probabilities computed at lines 56-57 are below 1, but a run of draws all below the bound is not excluded. `StopsFrom` and `Terminating` state this as a precondition.
- `keyForIndex` is not modelled: it formats the bits of a `double`. It is a table `keys` of `nodeCount + 1` keys, and its monotonicity is an explicit hypothesis, `MonotoneKeys`, of the one lemma that needs it.
- `nodeCount` is assumed to be in `1 .. 2^31 - 2`, so that `nodeCount + 1` does not overflow.
- Left out because they are floating point: `randomSkewedUInt32`, `random01`'s `double` result, and `getMetrics`/`PerfIntCounter`.
- Left out as logging and memory management: `randLog`, `fprintf`, `fmt::print`, `TraceEvent`, `TRACE_SAMPLE`, and `addref`/`delref`.
- Other actors sharing `deterministicRandom()` are not modelled. The draws of a pass are taken to be consecutive.
- The counters are `nat`, without the overflow of the C++ integer types.
- `DeterministicRandom.RandomInt` and `RandomInt64` require `min < maxPlusOne`, which the source `ASSERT`s. The failing `ASSERT` is not modelled.
- `GenerateRandomData`:
  - requires `length <= buffer.Length`, the caller's duty in C++;
  - assumes `memcpy` of a `uint32_t` copies its bytes least significant first, as on a little-endian target;
  - gives the loop counter `i` unbounded range. The C++ `i += 4` overflows `int` when `length > 2^31 - 4`, which is undefined behaviour and is not modelled.
- The workload's `ASSERT(conflictingKeyRangesFuture.isReady())` is taken to hold, since the special-key read is answered locally.
- Every pass starts with both transactions and both vectors empty, because the previous pass ended with `clear` and `reset` (lines 229-232). The per-pass methods require this instead of handling leftover ranges.
- When `onError` rethrows, the actor ends before the vectors are cleared. The model's `Iteration` returns `Stopped` there, and states that the vectors are left as recorded.
- The prefix `\xff\xff/transaction/conflicting_keys/` is the one the comments at lines 165 and 169 name. The values of `conflictingKeysTrue` and `conflictingKeysFalse` do not appear in the workload; they are taken to be "1" and "0". The file defining all three is not part of this model.
- The report rows are given as the rows of the range read at lines 166-168. The range bounds themselves are not modelled.
- `MissingPrefix`, the decoding failure for a key without the conflicting-keys prefix, has no counterpart in the workload, whose `removePrefix` only asserts on the key's size. The store answers the read over `ckr` at lines 166-168 only with keys inside that range, and each of them carries the prefix, so the case does not arise there. A `RoundInput` may still hold such rows; what `removePrefix` then does is defined in a header that is not part of this model.
- The ranges built at lines 106 and 119 are well ordered only if `keyForIndex` respects the order of indices (`MonotoneKeys`). A table that does not would make `KeyRangeRef` throw there, and that throw is not modelled.
- `FlowRandom.DeterministicRandom`: one constant `highFirst` decides the operand order of both `^` expressions, the one in the constructor (line 35) and the one in `gen64` (line 28). C++ does not require a compiler to order the two the same way; the model assumes it does.
