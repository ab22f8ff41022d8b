# Sync-marker search of the Avro source, and pipeline states

An Avro container file separates its blocks with a 16-byte sync marker. To start reading at an
arbitrary offset, the Avro reader advances its input past the next occurrence of that marker.
This model covers that search and the small pieces of the Dataflow SDK around it:

- **The Seeker** (`AvroReader.Seeker`). It is a resumable Knuth-Morris-Pratt matcher. `Find(buffer, length)` looks at
  `buffer[..length]` one byte at a time. On a mismatch it falls back through the marker's failure
  function instead of starting again from nothing. It reports the index of the last byte of the
  first completed match and resets. When no match completes, it returns -1 and keeps the
  matched prefix for the next call. A ghost field `consumed` holds the bytes examined since the
  last reset. The class invariant says two things: `state` is the longest prefix of the marker
  that is a suffix of `consumed`, and the marker does not occur in `consumed`.
- **The boundary scanner** (`AvroReader.AdvancePastNextSyncMarker`). It reads the stream in
  marker-sized buffers and feeds them to a Seeker. When the marker completes, it pushes the bytes
  read beyond the marker back into the stream. It returns the number of bytes consumed. The
  stream (`PushbackStreams.PushbackStream`) is a byte-array stream with a pushback buffer. It is
  modelled as the sequence of bytes still readable plus the count of pushed-back bytes.
- **The specification** both are proved against (`MarkerSpec`). It defines what a first
  occurrence is (`FirstEndsAt`), a reference search independent of any automaton (`FirstEnd`),
  and what a failure table is.
- **The test helpers** that state behaviour (`AvroSourceTest`, `FixedRecords`). These are
  `createHaystack`, the scanner scenario, every Seeker scenario of the tests with its asserted
  results, the `FixedRecord` byte packing and `createFixedRecords`. `FixedRecord.AsInt` and
  `FixedRecord.Equals` read the bytes back as the test code does, widening each byte with its
  sign. `AsIntIntended` and `EqualsIntended` mask each byte with `& 0xFF` instead. See
  "Findings".
- **`PipelineResult.State`**. It is a six-value enum. Each value carries a fixed flag saying
  whether the job is over.

`AvroSource.java`, which holds the Seeker and `advancePastNextSyncMarker`, is not part of this
model. Their behaviour is modelled as the tests in `AvroSourceTest.java` pin it down, so the rows
below for those members cite the test lines. Java `byte` values are modelled as `bv8` bit
patterns. Java `int` values in `FixedRecord` are modelled as `bv32` two's complement patterns.

## Model

| member | source | states |
|---|---|---|
| AvroReader.NextState | sdk/src/test/java/com/google/cloud/dataflow/sdk/io/AvroSourceTest.java:400-421 | One byte of matching. After a mismatch it falls back to the longest prefix of the marker that is still a suffix of the bytes seen, rather than to 0. The result is the longest prefix of the marker ending the bytes seen plus the new byte. |
| AvroReader.FailureFunction | sdk/src/test/java/com/google/cloud/dataflow/sdk/io/AvroSourceTest.java:404-415 | For every prefix of the marker, the table holds the length of that prefix's longest proper prefix that is also its suffix. |
| AvroReader.Seeker.constructor | sdk/src/test/java/com/google/cloud/dataflow/sdk/io/AvroSourceTest.java:331 | A new Seeker has matched nothing and examined nothing, and the invariant holds. |
| AvroReader.Seeker.Find | sdk/src/test/java/com/google/cloud/dataflow/sdk/io/AvroSourceTest.java:326-436 | Only `buffer[..length]` is examined. Returns -1 exactly when the marker does not occur in the bytes examined since the last reset; it then keeps them, and with them the matched prefix. Otherwise it returns the index in the buffer of the last byte of the first occurrence, so later occurrences in the same buffer are ignored, and it resets. |
| AvroReader.ChunkMatched | sdk/src/test/java/com/google/cloud/dataflow/sdk/io/AvroSourceTest.java:295-300 | A match completed in the buffer just read is the first occurrence in the whole stream. The buffer's bytes after the match, followed by the unread rest, are exactly the stream after the match. |
| AvroReader.PushBackAfterMarker | sdk/src/test/java/com/google/cloud/dataflow/sdk/io/AvroSourceTest.java:295-300 | After a match, the bytes read past the marker are pushed back. The stream then resumes right after the first occurrence of the marker. |
| AvroReader.ScanChunk | sdk/src/test/java/com/google/cloud/dataflow/sdk/io/AvroSourceTest.java:291-304 | One marker-sized read makes progress. The scan ends either at the end of the first occurrence, or with the stream exhausted and no occurrence anywhere. |
| AvroReader.AdvancePastNextSyncMarker | sdk/src/test/java/com/google/cloud/dataflow/sdk/io/AvroSourceTest.java:291-304 | Returns the offset where the first occurrence of the marker ends, or the whole length when there is none. The stream is left holding exactly the bytes after that offset, so nothing past the marker is consumed. |
| PushbackStreams.PushbackStream.constructor | sdk/src/test/java/com/google/cloud/dataflow/sdk/io/AvroSourceTest.java:295-296 | A pushback stream over the haystack, with a pushback buffer of the marker's size: every byte is readable, and nothing is pushed back yet. |
| PushbackStreams.PushbackStream.Read | sdk/src/test/java/com/google/cloud/dataflow/sdk/io/AvroSourceTest.java:291-304 | Fills the front of the buffer with as many readable bytes as fit, pushed-back bytes first. It returns that count, or -1 at the end of the stream for a non-empty buffer. The rest of the buffer is untouched. |
| PushbackStreams.PushbackStream.ReadByte | sdk/src/test/java/com/google/cloud/dataflow/sdk/io/AvroSourceTest.java:297-304 | Returns the next byte as 0..255 and drops it, or -1 when nothing is left. |
| PushbackStreams.PushbackStream.Unread | sdk/src/test/java/com/google/cloud/dataflow/sdk/io/AvroSourceTest.java:291-304 | The bytes pushed back are read next, in order, and at most the buffer's capacity may be pending. |
| MarkerSpec.FirstEnd | sdk/src/test/java/com/google/cloud/dataflow/sdk/io/AvroSourceTest.java:326-344 | Reference search: -1 exactly when the marker does not occur; otherwise the end of its first occurrence. |
| MarkerSpec.FirstEndIs | sdk/src/test/java/com/google/cloud/dataflow/sdk/io/AvroSourceTest.java:326-344 | The first occurrence the Seeker and the scanner report is the one the reference search finds. |
| MarkerSpec.FirstEndsAtUnique | sdk/src/test/java/com/google/cloud/dataflow/sdk/io/AvroSourceTest.java:326-344 | There is only one first occurrence. |
| MarkerSpec.CompletedAt | sdk/src/test/java/com/google/cloud/dataflow/sdk/io/AvroSourceTest.java:353-370 | Bytes free of the marker, completed by one more byte, place the first occurrence's end right after that byte, including across calls. |
| MarkerSpec.NoOccurrenceExtend | sdk/src/test/java/com/google/cloud/dataflow/sdk/io/AvroSourceTest.java:353-359 | A byte that does not complete the marker keeps the bytes examined free of it. |
| MarkerSpec.FallbackStep | sdk/src/test/java/com/google/cloud/dataflow/sdk/io/AvroSourceTest.java:409-421 | Falling back through the failure table skips no prefix that the next byte could extend. |
| MarkerSpec.BorderTableSnoc | sdk/src/test/java/com/google/cloud/dataflow/sdk/io/AvroSourceTest.java:409-421 | A failure table extended by the longest border of the next prefix is still a failure table. |
| AvroSourceTest.CreateHaystack | sdk/src/test/java/com/google/cloud/dataflow/sdk/io/AvroSourceTest.java:278-284 | Exactly `size` bytes. `needle[j]` is at `position + j` wherever that is inside the array, and 0 is everywhere else. |
| AvroSourceTest.FirstEndAfterZeros | sdk/src/test/java/com/google/cloud/dataflow/sdk/io/AvroSourceTest.java:291-304 | For a marker that does not start with 0, such as the test's, in a haystack the first occurrence of the marker ends right after the embedded copy. A copy cut off by the end of the array means no occurrence at all. |
| AvroSourceTest.AdvancePastNextSyncMarkerAt | sdk/src/test/java/com/google/cloud/dataflow/sdk/io/AvroSourceTest.java:291-323 | For every position and size: with room after the marker, the scanner returns `position + 16` and the next byte read is the sentinel. Otherwise it returns `size` and the next read gives -1. This covers every call the test makes. |
| AvroSourceTest.FindIn | sdk/src/test/java/com/google/cloud/dataflow/sdk/io/AvroSourceTest.java:326-436 | A `find` on a buffer whose first occurrence, counted from the last reset, is known returns that occurrence's index in the buffer, or -1. |
| AvroSourceTest.SeekerFind | sdk/src/test/java/com/google/cloud/dataflow/sdk/io/AvroSourceTest.java:326-344 | The four finds return 3, 7, 7 and 3. |
| AvroSourceTest.SeekerFindResume | sdk/src/test/java/com/google/cloud/dataflow/sdk/io/AvroSourceTest.java:346-371 | The eight finds return -1, 2, -1, 0, -1, -1, -1 and 0. |
| AvroSourceTest.SeekerUsesBufferLength | sdk/src/test/java/com/google/cloud/dataflow/sdk/io/AvroSourceTest.java:373-396 | The six finds return -1, -1, -1, -1, -1 and 0. |
| AvroSourceTest.SeekerFindPartial | sdk/src/test/java/com/google/cloud/dataflow/sdk/io/AvroSourceTest.java:399-421 | The five finds return 3, -1, 2, -1 and 0. |
| AvroSourceTest.SeekerFindAllLocations | sdk/src/test/java/com/google/cloud/dataflow/sdk/io/AvroSourceTest.java:423-436 | In every round, `find` on all ones returns -1. With a 2 at index `i`, it returns `i`. |
| FixedRecords.FixedRecord.constructor | sdk/src/test/java/com/google/cloud/dataflow/sdk/io/AvroSourceTest.java:446-458 | The record's 15 bytes are the four little-endian bytes of `i` followed by zeros. |
| FixedRecords.FixedRecord.Zero | sdk/src/test/java/com/google/cloud/dataflow/sdk/io/AvroSourceTest.java:449-451 | The no-argument record is the record made from 0. |
| FixedRecords.DecodeEncode | sdk/src/test/java/com/google/cloud/dataflow/sdk/io/AvroSourceTest.java:453-462 | Corrected: bytes masked with `& 0xFF`. Reading back gives every `int` packed by the constructor. |
| FixedRecords.EncodeDecode | sdk/src/test/java/com/google/cloud/dataflow/sdk/io/AvroSourceTest.java:453-462 | Corrected: bytes masked with `& 0xFF`. Every four bytes are the packing of the `int` read back from them. |
| FixedRecords.DecodingInjective | sdk/src/test/java/com/google/cloud/dataflow/sdk/io/AvroSourceTest.java:460-471 | Corrected: bytes masked with `& 0xFF`. Two strings of four bytes read back as the same `int` exactly when they are the same bytes. |
| FixedRecords.FixedRecord.AsInt | sdk/src/test/java/com/google/cloud/dataflow/sdk/io/AvroSourceTest.java:460-462 | `asInt()` as written, with each byte widened with its sign. When bytes 0-2 are below 0x80, the `int` read back is the one whose packing is the record's first four bytes. Otherwise the result is negative. |
| FixedRecords.FixedRecord.AsIntIntended | sdk/src/test/java/com/google/cloud/dataflow/sdk/io/AvroSourceTest.java:460-462 | Corrected: bytes masked with `& 0xFF`. The `int` read back is always the one whose packing is the record's first four bytes. |
| FixedRecords.AsWrittenReading | sdk/src/test/java/com/google/cloud/dataflow/sdk/io/AvroSourceTest.java:460-462 | The same two cases, stated for any four bytes. |
| FixedRecords.RoundTripAsWritten | sdk/src/test/java/com/google/cloud/dataflow/sdk/io/AvroSourceTest.java:453-462 | As written, `i` is read back from its record when bit 7 of each of its three low bytes is clear. Otherwise a negative `int` is read back, so a non-negative `i` is misread exactly then. |
| FixedRecords.AsWrittenCollision | sdk/src/test/java/com/google/cloud/dataflow/sdk/io/AvroSourceTest.java:453-462 | As written, the records for 200 and 456 both read back as -56. |
| FixedRecords.FixedRecord.Equals | sdk/src/test/java/com/google/cloud/dataflow/sdk/io/AvroSourceTest.java:464-471 | `equals` as written, comparing the sign-extending `asInt()`. Records with the same first four bytes are equal. When bytes 0-2 of both are below 0x80, only such records are equal. |
| FixedRecords.FixedRecord.EqualsIntended | sdk/src/test/java/com/google/cloud/dataflow/sdk/io/AvroSourceTest.java:464-471 | Corrected: compares through the masked `asInt()`. Two records are equal exactly when their first four bytes agree. |
| FixedRecords.AsWrittenEqualRecords | sdk/src/test/java/com/google/cloud/dataflow/sdk/io/AvroSourceTest.java:453-471 | As written, the records made from 200 and 456 are equal. The corrected comparison tells them apart. |
| FixedRecords.NewFixedRecord | sdk/src/test/java/com/google/cloud/dataflow/sdk/io/AvroSourceTest.java:490 | The record made from `i` holds the bytes of `i` followed by zeros. The corrected `asInt()` reads `i` back. So does the as-written one when bit 7 of each of the three low bytes of `i` is clear. |
| FixedRecords.CreateFixedRecords | sdk/src/test/java/com/google/cloud/dataflow/sdk/io/AvroSourceTest.java:487-493 | `max(count, 0)` new records. The `k`-th holds the four little-endian bytes of `k` followed by eleven zeros, as `new FixedRecord(k)` writes them. The corrected `asInt()` (bytes masked with `& 0xFF`) reads it back as `k`. |
| PipelineResult.State.IsTerminal | sdk/src/main/java/com/google/cloud/dataflow/sdk/PipelineResult.java:62-75 | Returns the flag each state is declared with. It is true exactly for the three states declared last: DONE, FAILED and CANCELLED. |
| PipelineResult.Ordinal | sdk/src/main/java/com/google/cloud/dataflow/sdk/PipelineResult.java:48-60 | Every state has its place among the six declared values. |
| PipelineResult.ExactlySixStates | sdk/src/main/java/com/google/cloud/dataflow/sdk/PipelineResult.java:48-60 | There are exactly six states, all distinct, and every state is one of them. |
| PipelineResult.TerminalStates | sdk/src/main/java/com/google/cloud/dataflow/sdk/PipelineResult.java:62-75 | A state is in the terminal set exactly when its flag is set. |
| PipelineResult.ExactlyThreeTerminal | sdk/src/main/java/com/google/cloud/dataflow/sdk/PipelineResult.java:49-60 | DONE, FAILED and CANCELLED are terminal, UNKNOWN, STOPPED and RUNNING are not, and so exactly three states are terminal. |

## Left out

- Splitting, fraction tracking, block decoding and codecs are not modelled. They live in `AvroSource.java` and in Avro libraries, which are not part of this model. The same goes for file I/O, the random record generation of the tests, and concurrency between splitting and reading.
- `GroupAlsoByWindowsDoFn.java` is not modelled. It is orchestration over trigger, timer and output classes that are not part of this model, and it reads the wall clock.
- `PipelineResult.getState` and `getAggregatorValues` are not modelled. They are interface methods without bodies, implemented by runners.
- AvroReader.Seeker.constructor: requires a non-empty marker. The code behind the Seeker is not part of this model, and every marker the tests use is non-empty.
- AvroReader.Seeker.Find: requires `length` to be at most the buffer's length. A longer `length` would index past the array in Java, and that exception is not modelled.
- AvroSourceTest.CreateHaystack: takes a natural `position` and `size`. In Java, a negative size throws `NegativeArraySizeException` and a negative position throws `ArrayIndexOutOfBoundsException`; neither is modelled.
- PushbackStreams.PushbackStream.Read: always returns every byte that fits and is left. That is how a stream over a byte array behaves, but a stream over a file may return fewer. The scanner is therefore proved only for reads that fill the buffer as far as the stream allows.
- AvroReader.AdvancePastNextSyncMarker: requires the pushback buffer to hold at least one marker's length. This is what the tests construct. Running out of pushback room, an `IOException` in Java, is therefore excluded by precondition rather than modelled as an error.
- The failure table is computed once per Seeker and kept as a value. The model does not capture its exact representation inside the unseen class.
- AvroSourceTest.AdvancePastNextSyncMarkerAt: writes the sentinel into the haystack before the stream is built over it. The test writes it afterwards, which reads the same because the stream wraps the same array.
- AvroSourceTest.AdvancePastNextSyncMarkerAt: compares the byte read as the value 0..255 (0xFF). The test compares `(byte) read()` with `(byte) 0xFF`, which is the same bit pattern.
- FixedRecords.FixedRecord.Equals: takes only another record. `equals(Object)` with `null` or an object of another class, which returns false, is not modelled.
- `FixedRecord.hashCode` and `toString` are not modelled. They go through string formatting and string hashing.
- FixedRecords.CreateFixedRecords: requires `count` to be within the Java `int` range, as the parameter type guarantees.

## Findings

| source | as written | input that shows it | evidently intended | confidence | as-written member | corrected member |
|---|---|---|---|---|---|---|
| sdk/src/test/java/com/google/cloud/dataflow/sdk/io/AvroSourceTest.java:460-462 | `asInt` widens each signed byte to an `int` before shifting, so a byte with its top bit set fills every higher bit with ones. `equals` compares through `asInt`. | `new FixedRecord(200).asInt()` and `new FixedRecord(456).asInt()` both give -56, and the two records compare equal. Among the records `createFixedRecords(count)` makes, those whose index has bit 7 set in any of bytes 0-2 are not read back as their index. The first of them is 128. | Mask each byte with `& 0xFF` before shifting, so that `asInt` inverts the constructor. | not executed | FixedRecords.AsWrittenCollision | FixedRecords.FixedRecord.AsIntIntended |
