# BTableWriter in Dafny

A model of `io.framed.BTableWriter`, the writer for the BTable binary format.
A write takes a label string and a sequence of rows of boxed numbers. It
sends the following to a file channel:

- A header: the format version, the label length, and the label's UTF-16
  code units.
- For each row, one sparse frame: the count of non-zero values, then an
  (index, value) pair for each non-zero value, in row order.

Every integer is a big-endian 32-bit `int`, every value a big-endian IEEE-754
`double`, and every code unit a big-endian 16-bit `char`, as `java.nio.ByteBuffer`
puts them.

The project has six modules:

- `Results` holds the `Option`, `Result` and `Outcome` wrappers.
- `JavaBytes` holds Java's integral and floating-point values as bytes.
  Doubles are raw 64-bit patterns, and `0.0` means either signed zero.
  Integers are written out in big-endian form with round-trip lemmas.
- `Nio` holds a heap `ByteBuffer`: a class over an array, with a position
  and a limit. Its puts either advance the position or overflow and change
  nothing. `Nio` also holds a `Channel`: a class that records what it was
  sent and accepts any number of the remaining bytes per write.
  `Nio.Drain` is the `while (buf.hasRemaining()) chan.write(buf)` loop,
  proved to deliver exactly the flipped contents however the channel splits
  them.
- `BTable` is the byte layout as functions: conversion of boxed values,
  materialisation of the non-zero entries, the row frame, the header, and
  the bytes a whole write sends. Lemmas state their properties.
- `BTableWriter` holds the writer's own methods, with their loops. Each is
  proved against the `BTable` functions. `ChanWriteRow` and `WriteAsWritten`
  keep the source's `4 + 8 * size` row buffer. `ChanWriteRowSized` and
  `Write` use `4 + 12 * size` bytes instead (see "## Findings").
- `BTableDecode` is a reader written only to state what the bytes mean. The
  header decodes to version 0 and the label. Every frame decodes to its
  row's pairs, and scattering those pairs rebuilds the row, with -0.0 read
  back as +0.0.

## Model

| member | source | states |
|---|---|---|
| BTable.ToDouble | src/java/io/framed/BTableWriter.java:15-25 | a `Double` converts to itself, a `Long` to its widening; any other class fails with `IllegalArgumentException` naming it, and `null` fails with `NullPointerException` |
| BTable.ToDoublesSpec | src/java/io/framed/BTableWriter.java:27-33 | conversion of a row succeeds iff every element converts; on success the doubles keep the row's length and order; on failure the error is that of the first element that does not convert |
| BTable.ToDoublesFailurePersists | src/java/io/framed/BTableWriter.java:29-31 | once a prefix of the row fails to convert, the whole row fails with the same error |
| BTableWriter.Iter2Doubles | src/java/io/framed/BTableWriter.java:27-33 | the loop returns exactly the conversion of the row, stopping at the first failing element |
| BTableWriter.NumValues | src/java/io/framed/BTableWriter.java:35-41 | the loop counts exactly the values that compare unequal to 0.0 |
| BTable.CountNonZeroExtremes | src/java/io/framed/BTableWriter.java:35-41 | the count is 0 iff every value is a zero, and the row length iff none is |
| BTable.CountNonZeroPrefix | src/java/io/framed/BTableWriter.java:35-41 | a prefix of a row never has more non-zero values than the row |
| BTable.MaterializeSpec | src/java/io/framed/BTableWriter.java:53-60 | as many pairs as `numValues` counts; indices strictly ascending and inside the row; each pair holds the value at its index, which is non-zero; every non-zero position has a pair |
| BTable.RowFrameLength | src/java/io/framed/BTableWriter.java:51-58 | a frame is 4 bytes plus 12 per non-zero value |
| BTable.AsWrittenCapacityFits | src/java/io/framed/BTableWriter.java:49-58 | the buffer of `4 + 8 * size` bytes holds the frame iff 12 times the non-zero count is at most 8 times the row length |
| BTable.DenseRowOverflows | src/java/io/framed/BTableWriter.java:43-49 | every non-empty row without zeros needs more than the `4 + 8 * size` bytes allocated for it |
| BTable.OneValueRowOverflows | src/java/io/framed/BTableWriter.java:49-57 | the row `[1.0]` needs a 16-byte frame and gets a 12-byte buffer |
| BTable.RowCapacityFits | src/java/io/framed/BTableWriter.java:43-45 | a buffer sized for a dense row, `4 + 12 * size` bytes, always holds the frame |
| BTable.RowsOutputAllValid | src/java/io/framed/BTableWriter.java:83-85 | with the row buffer sized for dense rows: when every row converts, the frames of all rows are sent in row order and the write completes |
| BTable.RowsOutputFailurePersists | src/java/io/framed/BTableWriter.java:83-85 | with the row buffer sized for dense rows: after a row has failed, later rows add no bytes and do not change the error |
| BTable.RowsOutputFirstFailure | src/java/io/framed/BTableWriter.java:83-85 | with the row buffer sized for dense rows: the first row that fails to convert ends the write with its error, after exactly the frames of the rows before it |
| BTable.RowsOutputAsWrittenAllFit | src/java/io/framed/BTableWriter.java:83-85 | as written: when every row converts and its frame fits the `4 + 8 * size` bytes allocated, the frames of all rows are sent in row order and the write completes |
| BTable.RowsOutputAsWrittenFailurePersists | src/java/io/framed/BTableWriter.java:83-85 | as written: after a row has failed to convert or overflowed, later rows add no bytes and do not change the exception |
| BTable.RowsOutputAsWrittenFirstFailure | src/java/io/framed/BTableWriter.java:83-85 | as written: the first row that fails to convert, or converts but overflows its buffer, ends the write with that exception (`BufferOverflowException` for an overflow), after exactly the frames of the rows before it |
| BTable.RowsOutputAsWrittenIsPrefix | src/java/io/framed/BTableWriter.java:49 | the bytes the write sends as written are a prefix of those it sends with the corrected buffer, and the same bytes whenever the write as written completes |
| BTable.OneValueWriteOverflows | src/java/io/framed/BTableWriter.java:83-85 | writing the one row `[1.0]` sends no frame and ends in `BufferOverflowException` as written, and sends the row's frame and completes with the corrected buffer |
| BTableWriter.PutEntry | src/java/io/framed/BTableWriter.java:56-57 | putting a pair succeeds iff 12 bytes remain, and then appends the pair's index and value bytes |
| BTableWriter.PutValue | src/java/io/framed/BTableWriter.java:54-59 | one loop turn extends the bytes put to those of one more value of the row; if it overflows, the whole frame cannot fit the buffer |
| BTableWriter.PutRow | src/java/io/framed/BTableWriter.java:49-60 | the put phase succeeds iff the frame fits the capacity, and then the buffer holds exactly the row's frame |
| BTableWriter.FrameRow | src/java/io/framed/BTableWriter.java:49-63 | the channel receives exactly the row's frame when it fits, and nothing when a put overflows |
| BTableWriter.ChanWriteRow | src/java/io/framed/BTableWriter.java:46-64 | as written: a conversion failure sends nothing and reports its exception; otherwise the frame is sent iff 12 times the non-zero count is at most 8 times the row length, else `BufferOverflowException` with nothing sent |
| BTableWriter.ChanWriteRowSized | src/java/io/framed/BTableWriter.java:46-64 | with the buffer sized for dense rows: a row that converts always has its whole frame sent; a row that does not sends nothing and reports the first failing element's exception |
| BTableWriter.WriteHeader | src/java/io/framed/BTableWriter.java:71-80 | the header buffer is filled exactly: version, label length and code units, and the channel receives exactly those bytes |
| BTableWriter.Write | src/java/io/framed/BTableWriter.java:66-89 | with the row buffer sized for dense rows: the channel receives the header, then each row's frame in iteration order up to the first row that fails to convert; the outcome is that row's exception, or success |
| BTableWriter.WriteAsWritten | src/java/io/framed/BTableWriter.java:66-89 | as written: the channel receives the header, then each row's frame in iteration order up to the first row that fails to convert or overflows its `4 + 8 * size` buffer; the outcome is that row's exception, or success |
| Nio.ByteBuffer.Allocate | src/java/io/framed/BTableWriter.java:49-50 | a fresh zero-filled buffer of the given capacity, position 0, limit at capacity |
| Nio.ByteBuffer.Clear | src/java/io/framed/BTableWriter.java:50 | position back to 0 and limit at the capacity, so nothing is stored and every byte is open to puts |
| Nio.ByteBuffer.HasRemaining | src/java/io/framed/BTableWriter.java:63 | true exactly when some bytes remain between the position and the limit |
| Nio.ByteBuffer.Flip | src/java/io/framed/BTableWriter.java:62 | the bytes put so far become exactly the remaining bytes |
| Nio.ByteBuffer.Put | src/java/io/framed/BTableWriter.java:51-57 | a relative put succeeds iff its bytes fit before the limit, and then appends them; otherwise the buffer is unchanged |
| Nio.ByteBuffer.PutInt | src/java/io/framed/BTableWriter.java:56 | appends the 4 big-endian two's-complement bytes of an `int`, or overflows leaving the buffer unchanged |
| Nio.ByteBuffer.PutDouble | src/java/io/framed/BTableWriter.java:57 | appends the 8 big-endian bytes of a double's bit pattern, or overflows leaving the buffer unchanged |
| Nio.ByteBuffer.PutChar | src/java/io/framed/BTableWriter.java:77 | appends the 2 big-endian bytes of a UTF-16 code unit, or overflows leaving the buffer unchanged |
| Nio.Channel.Write | src/java/io/framed/BTableWriter.java:63 | the channel takes a prefix of the remaining bytes, non-empty when any remain, and the position moves past it |
| Nio.Drain | src/java/io/framed/BTableWriter.java:63 | however the channel splits its writes, it receives exactly the remaining bytes and the buffer ends drained |
| Nio.FlipAndDrain | src/java/io/framed/BTableWriter.java:79-80 | the channel receives exactly the bytes that were put |
| JavaBytes.BigEndian | src/java/io/framed/BTableWriter.java:56-57 | the big-endian bytes of a value have the requested width and read back as the value |
| JavaBytes.IntBytesIsBigEndian | src/java/io/framed/BTableWriter.java:56 | the 4 bytes of an `int` are the big-endian form of its two's-complement value |
| JavaBytes.IntRoundTrip | src/java/io/framed/BTableWriter.java:51 | reading back the 4 bytes of an `int` gives the `int` |
| JavaBytes.NaNIsNonZero | src/java/io/framed/BTableWriter.java:38 | a NaN compares unequal to 0.0, so it is counted and written |
| BTableDecode.HeaderRoundTrip | src/java/io/framed/BTableWriter.java:71-78 | the header decodes to version 0 and exactly the label's code units, leaving the following bytes untouched |
| BTableDecode.FrameRoundTrip | src/java/io/framed/BTableWriter.java:49-60 | a row frame decodes to the row's pairs; the count agrees with the pairs that follow |
| BTableDecode.FramesRoundTrip | src/java/io/framed/BTableWriter.java:83-85 | back-to-back frames decode to one pair list per row, in row order |
| BTableDecode.StreamRoundTrip | src/java/io/framed/BTableWriter.java:66-89 | a complete write decodes to version 0, the label, and each row's pairs in row order |
| BTableDecode.ScatterMaterialize | src/java/io/framed/BTableWriter.java:53-60 | scattering a row's pairs into a zero-filled row of its length gives every non-zero value at its index and +0.0 elsewhere |
| BTableDecode.RowRoundTrip | src/java/io/framed/BTableWriter.java:46-60 | encoding a row and decoding its frame at the row's width restores the row, with -0.0 read back as +0.0 |

## Left out

- Opening the destination is not modelled. The source opens it with `new RandomAccessFile(dest, "rw")`, which keeps an existing longer file's tail. The model's channel starts empty.
- Closing the channel and returning `dest` are not modelled.
- `IOException` from the channel is not modelled. `Nio.Channel.Write` always takes at least one byte when any remain, so the drain loop always ends.
- The source declares `VERSION` as a mutable `public static` field. The model reads it as the constant 0.
- `Long.doubleValue()` is a parameter of the model (`widen`). Its rounding to the nearest double is not modelled.
- Doubles are bit patterns. Only equality with 0.0 is interpreted: both signed zeros compare equal, and NaN does not.
- A `String` is a sequence of UTF-16 code units. `header.length()` counts code units.
- The `Iterable` arguments are finite sequences. Iterators with side effects and concurrent modification are not modelled.
- Null arguments are not modelled: a `null` `header` (a `NullPointerException` at line 72, before anything is sent), a `null` `rows` (one at line 83, after the header is sent), and a `null` row (one at line 29, ending the write after the frames of the rows before it). Null elements of a row are modelled.
- `ByteBuffer` is modelled only through what the writer uses: `allocate`, `clear`, the relative puts, `flip` and `hasRemaining`. Byte order is always big-endian; `order` and `mark` are not modelled.
- BTableWriter.ChanWriteRow: requires `4 + 8 * size` to fit in an `int`. Beyond that the size wraps around: `allocate` throws only when the wrapped value is negative, and otherwise the buffer has the wrapped size (for `size = 2^29` it has 4 bytes, which holds an all-zero row and overflows at any non-zero value). None of this is modelled.
- BTableWriter.WriteAsWritten: requires the same bound for every row, and `8 + 2 * length` to fit in an `int`.
- BTableWriter.ChanWriteRowSized: requires `4 + 12 * size` to fit in an `int`.
- BTableWriter.WriteHeader: requires `8 + 2 * length` to fit in an `int`.
- BTableWriter.Write: requires the bounds of `ChanWriteRowSized` and `WriteHeader`. It frames rows with the corrected buffer size (`ChanWriteRowSized`), so it never ends in `BufferOverflowException`. The source's write as written, with that exception, is `BTableWriter.WriteAsWritten`.
- BTable.RowsOutputAllValid: with the corrected buffer; the source's write as written is stated by `BTable.RowsOutputAsWrittenAllFit`.
- BTable.RowsOutputFirstFailure: with the corrected buffer, where only conversion ends the write; the source's write as written is stated by `BTable.RowsOutputAsWrittenFirstFailure`.
- The reader (`BTableDecode`) is not part of this source. It exists only to state round-trip properties of the writer's bytes.

## Findings

| source | as written | input that shows it | evidently intended | confidence | as-written member | corrected member |
|---|---|---|---|---|---|---|
| src/java/io/framed/BTableWriter.java:49 | the row buffer has `4 + 8 * size` bytes, but each non-zero value takes 12 (a 4-byte index and an 8-byte double) | the one-value row `[1.0]`: its frame needs 16 bytes and the buffer has 12, so `putDouble` throws `BufferOverflowException` and the row is never written and the write ends there (BTable.OneValueRowOverflows, BTable.OneValueWriteOverflows); every non-empty row without zeros fails the same way (BTable.DenseRowOverflows) | `4 + 12 * size` bytes, the worst case of a dense row that the comment at lines 43-45 describes | high, not executed | BTableWriter.WriteAsWritten | BTableWriter.Write |
