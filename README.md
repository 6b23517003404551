# CorruptionUtils, modelled in Dafny

Elasticsearch's test framework uses `CorruptionUtils.corruptFile` to check that
the storage engine notices damaged files. The method picks one of the given
files and records the checksum stored in it. It then adds one to a single byte
at a random offset. Last, it reads back two values. The first is the running
checksum up to the footer's 8-byte checksum field. The second is the value
stored in that field. The test is skipped as a checksum collision when both
values still equal the recorded checksum. In every other case the corruption
counts as detected.

The model is split into modules, one per step:

- `Bytes`: file bytes, Java's signed view of a byte and its `(byte)` cast, and
  the big-endian `long` that `readLong` returns.
- `Outcomes`: the hard failures and the three-way outcome (`Detected`,
  `Inconclusive`, `Failed`).
- `PositionPicker`: the offset bound. It is the file size, less 4 for a `.cfs`
  file of more than 4 bytes, capped at `Integer.MAX_VALUE`.
- `ByteFlipper`: `corruptAt`, an in-place method on an `array<Byte>`, and the
  function `Flipped` that specifies it.
- `CorruptionVerifier`: the footer read-back, the verdict rule, and what a
  well-formed file and a CRC-like checksum are.
- `CorruptionUtils`: the run on the chosen file as a function (`CorruptTarget`),
  `corruptFile` as an imperative method over the candidate files
  (`CorruptFile`), and the theorems about the verdict.

The checksum library is a pair of function values (`ChecksumOracle`). The
first gives the running checksum of a prefix. The second gives the recorded
checksum of a whole file, or `None` where `CodecUtil.retrieveChecksum` would
throw. The random source is replaced by its results. `pick` is the index
`RandomPicks.randomFrom` returns. `draw` is the number `nextInt` returns, and
it is constrained to `[0, bound)` only when `nextInt` is called with a
positive bound. Checksums are Java `long`s, held as their 64-bit patterns,
since they are only compared for equality.

The two main results concern a well-formed file, one whose recorded and stored
checksums equal the checksum of its body. On such a file, a skipped run means a
real collision: the flipped byte lies before the checksum field, and the changed
body has the same checksum as the original. With a checksum that notices every
single-byte change, as CRC-32 does, such a file is therefore always `Detected`.

## Model

| member | source | states |
|---|---|---|
| `Bytes.Signed` | test/framework/src/main/java/org/elasticsearch/test/CorruptionUtils.java:109 | the Java `byte` value read from a byte is in [-128, 128) and agrees with the bit pattern modulo 256 |
| `Bytes.Unsigned` | test/framework/src/main/java/org/elasticsearch/test/CorruptionUtils.java:111 | the byte written back for a Java `byte` value is the pattern whose signed reading is that value |
| `Bytes.NarrowToByte` | test/framework/src/main/java/org/elasticsearch/test/CorruptionUtils.java:110 | the `(byte)` cast yields a value in [-128, 128) congruent to its argument modulo 256 |
| `Bytes.Increment` | test/framework/src/main/java/org/elasticsearch/test/CorruptionUtils.java:109-111 | `(byte) (oldValue + 1)`, computed in signed arithmetic, is the old byte plus one modulo 256, and never the old byte |
| `Bytes.IncrementWrapsAround` | test/framework/src/main/java/org/elasticsearch/test/CorruptionUtils.java:110 | 0xFF becomes 0x00, and the Java byte 127 becomes -128 |
| `Bytes.BigEndian` | test/framework/src/main/java/org/elasticsearch/test/CorruptionUtils.java:82 | bytes read most significant first give a number below 256 to the power of their count |
| `Bytes.ReadLongWeights` | test/framework/src/main/java/org/elasticsearch/test/CorruptionUtils.java:82 | `readLong` reads the 8 bytes most significant first: byte `i` carries the weight 256 to the power `7 - i` |
| `Bytes.BigEndianInjective` | test/framework/src/main/java/org/elasticsearch/test/CorruptionUtils.java:82 | two byte sequences of one length that read as the same number are equal |
| `Bytes.ReadLongInjective` | test/framework/src/main/java/org/elasticsearch/test/CorruptionUtils.java:82 | two 8-byte footers read as the same `long` exactly when they are equal |
| `PositionPicker.ExclusionMargin` | test/framework/src/main/java/org/elasticsearch/test/CorruptionUtils.java:65-71 | the margin is 4 exactly when the name ends with `.cfs` and the size exceeds 4, and 0 otherwise |
| `PositionPicker.MaxPosition` | test/framework/src/main/java/org/elasticsearch/test/CorruptionUtils.java:63-71 | the bound is the size less 4 exactly for a `.cfs` file of more than 4 bytes, the size otherwise; it is positive exactly when the file is not empty |
| `PositionPicker.DrawBound` | test/framework/src/main/java/org/elasticsearch/test/CorruptionUtils.java:72 | the bound passed to `nextInt` is at most `Integer.MAX_VALUE` and at most the adjusted bound, equals one of them, and is positive exactly when the file is not empty |
| `PositionPicker.PickPosition` | test/framework/src/main/java/org/elasticsearch/test/CorruptionUtils.java:63-72 | an empty file makes `nextInt` fail; otherwise the position lies in the file and below `Integer.MAX_VALUE`, and for a `.cfs` file of more than 4 bytes it lies outside the last 4 bytes |
| `PositionPicker.CompoundFileOfFiftyBytes` | test/framework/src/main/java/org/elasticsearch/test/CorruptionUtils.java:63-72 | a `.cfs` file of 50 bytes has bound 46, so the position lies in [0, 46) |
| `ByteFlipper.Flipped` | test/framework/src/main/java/org/elasticsearch/test/CorruptionUtils.java:102-115 | after the flip the length is the same, the byte at the position is the old one plus one modulo 256, and a byte differs exactly at the position |
| `ByteFlipper.CorruptAt` | test/framework/src/main/java/org/elasticsearch/test/CorruptionUtils.java:100-118 | a negative position or one at or past the end fails and writes nothing; otherwise the array becomes `Flipped` of its old contents and the record holds the position and the old and new byte |
| `CorruptionVerifier.ReadFooter` | test/framework/src/main/java/org/elasticsearch/test/CorruptionUtils.java:78-83 | the footer can be read back exactly when the file holds at least 8 bytes; otherwise the seek fails |
| `CorruptionVerifier.Verdict` | test/framework/src/main/java/org/elasticsearch/test/CorruptionUtils.java:93-95 | the verdict is never a failure; it is `Inconclusive` exactly when both values read back equal the checksum from before, and `Detected` otherwise |
| `CorruptionVerifier.ReadingAfterOneByteChange` | test/framework/src/main/java/org/elasticsearch/test/CorruptionUtils.java:78-83 | a one-byte change before the checksum field keeps the stored value and changes the streamed body at that place; a change inside the field keeps the running checksum and changes the stored value |
| `CorruptionUtils.CorruptTarget` | test/framework/src/main/java/org/elasticsearch/test/CorruptionUtils.java:57-95 | once the recorded checksum is read and the file is not empty, the file always becomes `Flipped` at the drawn position, that byte being the old one plus one modulo 256; otherwise it is left as it was; a verdict is only reached after the byte changed; the only failures are an unreadable recorded checksum (exactly when `retrieveChecksum` fails), an empty file, and a file of 1 to 7 bytes whose footer cannot be read back; the last 4 bytes of a `.cfs` file never change |
| `CorruptionUtils.InconclusiveMeansCollision` | test/framework/src/main/java/org/elasticsearch/test/CorruptionUtils.java:76-95 | on a well-formed file a skipped run means the flip lies before the checksum field and the changed body has the same checksum as the original body |
| `CorruptionUtils.CollisionMeansInconclusive` | test/framework/src/main/java/org/elasticsearch/test/CorruptionUtils.java:76-95 | on a well-formed file, a flip before the checksum field whose changed body keeps its checksum is skipped; with `InconclusiveMeansCollision`, a skip happens exactly on such a collision |
| `CorruptionUtils.AlwaysDetectedBySingleByteChecksum` | test/framework/src/main/java/org/elasticsearch/test/CorruptionUtils.java:76-95 | with a checksum that notices every single-byte change, a well-formed file is always `Detected` |
| `CorruptionUtils.CorruptFile` | test/framework/src/main/java/org/elasticsearch/test/CorruptionUtils.java:53-98 | an empty list fails with nothing touched; a chosen path that is not a regular file fails with nothing touched; otherwise the chosen file ends as `CorruptTarget` says; every other file keeps its bytes |

## Left out

- Lucene's `FSDirectory`, `IndexInput`, `ChecksumIndexInput` and `CodecUtil` are foreign code. They are replaced by `ChecksumOracle`, two function values that the model does not look inside. The footer magic, the algorithm id and the zero high half of the CRC, which `retrieveChecksum` validates, are inside that oracle.
- The check that a freshly opened checksum input starts at offset 0 is left out. It tests the library, and the model's read-back always starts there.
- `dir.fileLength` is only used in the log message, so it is left out.
- `FileChannel` opening, closing and I/O errors are left out. The file is an in-memory array that cannot fail to read or write. The failures the code itself causes are kept: a negative position, a position past the end, a seek before the start of the file, and `nextInt` with a bound of 0.
- `Files.isRegularFile` becomes a boolean attribute of each candidate file.
- `Random`, `RandomPicks.randomFrom` and `Random.nextInt` are replaced by their results. The model says nothing about uniformity or reproducibility from a seed. The functions are deterministic in the values they are given.
- Logging and the diagnostic message on lines 86-92 and 116-117 have no effect on behaviour, so they are left out. `CorruptionRecord` keeps the logged values.
- The assertion on line 96 that the path is not null always holds, so it is left out.
- JUnit's `assumeTrue` and `assertTrue` become the `Inconclusive` outcome and the `Failed` outcome.
- Two entries of the candidate list that name the same file share one array. The "every other file keeps its bytes" clause of `CorruptFile` is therefore stated per array, not per list index.
