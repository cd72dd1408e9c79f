/**
 * `io.framed.BTableWriter`: converts boxed row values to doubles, frames each
 * row sparsely into a `ByteBuffer`, and drains the buffers into a channel
 * after a header that carries the version and the column label.
 */
module BTableWriter {
  import opened Results
  import opened JavaBytes
  import opened Nio
  import opened BTable

  /** `iter2Doubles`: appends each converted element in order; the first failure propagates. */
  method Iter2Doubles(row: seq<Boxed>, widen: Widening) returns (res: Result<seq<DoubleBits>, WriteError>)
    ensures res == ToDoubles(row, widen)
  {
    var ds: seq<DoubleBits> := [];
    for i := 0 to |row|
      invariant ToDoubles(row[..i], widen) == Success(ds)
    {
      assert row[..i + 1][..i] == row[..i];
      var d := ToDouble(row[i], widen);
      if d.Failure? {
        ToDoublesFailurePersists(row, i + 1, widen);
        return Failure(d.error);
      }
      ds := ds + [d.value];
    }
    assert row[..|row|] == row;
    res := Success(ds);
  }

  /** `numValues`: counts the entries that compare unequal to 0.0. */
  method NumValues(ds: seq<DoubleBits>) returns (count: int)
    ensures count == CountNonZero(ds)
  {
    count := 0;
    for i := 0 to |ds|
      invariant count == CountNonZero(ds[..i])
    {
      assert ds[..i + 1][..i] == ds[..i];
      if !IsZero(ds[i]) {
        count := count + 1;
      }
    }
    assert ds[..|ds|] == ds;
  }

  /** `buf.putInt(idx); buf.putDouble(d);` for one materialised entry. */
  method PutEntry(buf: ByteBuffer, e: Entry) returns (ok: bool)
    requires buf.Valid() && IsInt(e.index)
    modifies buf, buf.hb
    ensures buf.Valid() && buf.limit == old(buf.limit)
    ensures ok <==> 12 <= old(buf.limit) - old(buf.position)
    ensures ok ==> buf.position == old(buf.position) + 12 && buf.Written() == old(buf.Written()) + EntryBytes(e)
  {
    ok := buf.PutInt(e.index);
    if ok {
      ok := buf.PutDouble(e.bits);
    }
  }

  /**
   * One turn of the put loop of `chanWriteRow`: a non-zero value puts its
   * index/value pair, a zero puts nothing; a pair that finds no room means the
   * whole frame does not fit the buffer.
   */
  method PutValue(buf: ByteBuffer, ds: seq<DoubleBits>, idx: nat, ghost count: int) returns (ok: bool)
    requires buf.Valid() && idx < |ds| <= INT_MAX
    requires buf.Written() == IntBytes(count) + EntriesBytes(Materialize(ds[..idx]))
    modifies buf, buf.hb
    ensures buf.Valid() && buf.limit == old(buf.limit)
    ensures ok ==> buf.Written() == IntBytes(count) + EntriesBytes(Materialize(ds[..idx + 1]))
    ensures !ok ==> |RowFrame(ds)| > buf.limit
  {
    PutPrefixStep(ds, idx, count, buf.Written());
    ok := true;
    if !IsZero(ds[idx]) {
      ok := PutEntry(buf, Entry(idx, ds[idx]));
    }
  }

  /**
   * The put phase of `chanWriteRow` once the values are doubles: allocate
   * `capacity` bytes, put the count, then a pair per non-zero value in row
   * order. A put that finds no room throws `BufferOverflowException` (`ok` false).
   */
  method PutRow(ds: seq<DoubleBits>, capacity: nat) returns (buf: ByteBuffer, ok: bool)
    requires 4 <= capacity && |ds| <= INT_MAX
    ensures fresh(buf) && fresh(buf.hb) && buf.Valid() && buf.limit == capacity
    ensures ok <==> |RowFrame(ds)| <= capacity
    ensures ok ==> buf.Written() == RowFrame(ds)
  {
    buf := new ByteBuffer.Allocate(capacity);
    buf.Clear();
    var count := NumValues(ds);
    ok := buf.PutInt(count);
    assert ds[..0] == [];
    var idx := 0;
    while idx < |ds|
      invariant 0 <= idx <= |ds|
      invariant fresh(buf.hb) && buf.Valid() && buf.limit == capacity
      invariant buf.Written() == IntBytes(count) + EntriesBytes(Materialize(ds[..idx]))
      invariant ok
    {
      ok := PutValue(buf, ds, idx, count);
      if !ok {
        return;
      }
      idx := idx + 1;
    }
    assert ds[..idx] == ds;
  }

  /**
   * `chanWriteRow` once the values are doubles, for a row buffer of `capacity`
   * bytes: the put phase, then flip and drain. An overflow ends the row before
   * anything reaches the channel.
   */
  method FrameRow(chan: Channel, ds: seq<DoubleBits>, capacity: nat) returns (ok: bool)
    requires 4 <= capacity && |ds| <= INT_MAX
    modifies chan
    ensures ok <==> |RowFrame(ds)| <= capacity
    ensures chan.sent == if ok then old(chan.sent) + RowFrame(ds) else old(chan.sent)
  {
    var buf;
    buf, ok := PutRow(ds, capacity);
    if ok {
      FlipAndDrain(buf, chan);
    }
  }

  /**
   * `chanWriteRow` as written: the buffer has `4 + 8 * size` bytes, so a row
   * whose frame needs more (12 * non-zero count > 8 * size) overflows.
   */
  method ChanWriteRow(chan: Channel, row: seq<Boxed>, widen: Widening) returns (res: Outcome<WriteError>)
    requires AsWrittenRowCapacity(|row|) <= INT_MAX
    modifies chan
    ensures ToDoubles(row, widen).Failure? ==>
              res == Fail(ToDoubles(row, widen).error) && chan.sent == old(chan.sent)
    ensures ToDoubles(row, widen).Success? ==>
              var ds := ToDoubles(row, widen).value;
              if 12 * CountNonZero(ds) <= 8 * |ds|
              then res == Pass && chan.sent == old(chan.sent) + RowFrame(ds)
              else res == Fail(BufferOverflow) && chan.sent == old(chan.sent)
  {
    var rowVals := Iter2Doubles(row, widen);
    if rowVals.Failure? {
      return Fail(rowVals.error);
    }
    ToDoublesSpec(row, widen);
    AsWrittenCapacityFits(rowVals.value);
    var ok := FrameRow(chan, rowVals.value, AsWrittenRowCapacity(|rowVals.value|));
    res := if ok then Pass else Fail(BufferOverflow);
  }

  /** `chanWriteRow` with the row buffer sized for a dense row, `4 + 12 * size` bytes: it never overflows. */
  method ChanWriteRowSized(chan: Channel, row: seq<Boxed>, widen: Widening) returns (res: Outcome<WriteError>)
    requires RowCapacity(|row|) <= INT_MAX
    modifies chan
    ensures ToDoubles(row, widen).Failure? ==>
              res == Fail(ToDoubles(row, widen).error) && chan.sent == old(chan.sent)
    ensures ToDoubles(row, widen).Success? ==>
              res == Pass && chan.sent == old(chan.sent) + RowFrame(ToDoubles(row, widen).value)
  {
    var rowVals := Iter2Doubles(row, widen);
    if rowVals.Failure? {
      return Fail(rowVals.error);
    }
    ToDoublesSpec(row, widen);
    RowCapacityFits(rowVals.value);
    var ok := FrameRow(chan, rowVals.value, RowCapacity(|rowVals.value|));
    res := Pass;
  }

  /** The header part of `write`: version, label length and label units fill their buffer exactly, which is then drained. */
  method WriteHeader(chan: Channel, header: seq<CodeUnit>)
    requires 8 + 2 * |header| <= INT_MAX
    modifies chan
    ensures chan.sent == old(chan.sent) + HeaderBytes(header)
  {
    var buf := new ByteBuffer.Allocate(8 + 2 * |header|);
    buf.Clear();
    var version := VERSION;
    var ok := buf.PutInt(version);
    assert ok;
    ok := buf.PutInt(|header|);
    assert ok;
    for i := 0 to |header|
      invariant buf.Valid() && buf.limit == 8 + 2 * |header|
      invariant chan.sent == old(chan.sent)
      invariant buf.Written() == IntBytes(version) + IntBytes(|header|) + UnitsBytes(header[..i])
    {
      ok := buf.PutChar(header[i]);
      assert ok;
      UnitsBytesSnoc(header[..i], header[i]);
      ConcatAssoc(IntBytes(version) + IntBytes(|header|), UnitsBytes(header[..i]), CharBytes(header[i]));
      assert header[..i + 1] == header[..i] + [header[i]];
    }
    assert header[..|header|] == header;
    assert buf.Written() == HeaderBytes(header);
    assert buf.position == buf.limit;
    FlipAndDrain(buf, chan);
  }

  /**
   * `write`: opens a channel, sends the header, then one frame per row in
   * iteration order; the first row that fails to convert ends the write with
   * its exception, after the frames of the rows before it. Rows use the
   * corrected buffer size.
   */
  method Write(header: seq<CodeUnit>, rows: seq<seq<Boxed>>, widen: Widening)
    returns (chan: Channel, res: Outcome<WriteError>)
    requires 8 + 2 * |header| <= INT_MAX
    requires forall i | 0 <= i < |rows| :: RowCapacity(|rows[i]|) <= INT_MAX
    ensures fresh(chan)
    ensures chan.sent == HeaderBytes(header) + RowsOutput(rows, widen).0
    ensures res == RowsOutput(rows, widen).1
  {
    chan := new Channel.Open();
    WriteHeader(chan, header);
    res := Pass;
    for i := 0 to |rows|
      invariant chan.sent == HeaderBytes(header) + RowsOutput(rows[..i], widen).0
      invariant res == Pass && RowsOutput(rows[..i], widen).1 == Pass
    {
      ghost var before := RowsOutput(rows[..i], widen).0;
      RowsOutputStep(rows, i, widen);
      res := ChanWriteRowSized(chan, rows[i], widen);
      if res.Fail? {
        RowsOutputFailurePersists(rows, i + 1, widen);
        return;
      }
      ConcatAssoc(HeaderBytes(header), before, RowFrame(ToDoubles(rows[i], widen).value));
    }
    assert rows[..|rows|] == rows;
  }

  /**
   * `write` as written: the header, then `chanWriteRow` with its `4 + 8 * size`
   * row buffer for each row in iteration order; the first row that fails to
   * convert or overflows its buffer ends the write with that exception.
   */
  method WriteAsWritten(header: seq<CodeUnit>, rows: seq<seq<Boxed>>, widen: Widening)
    returns (chan: Channel, res: Outcome<WriteError>)
    requires 8 + 2 * |header| <= INT_MAX
    requires forall i | 0 <= i < |rows| :: AsWrittenRowCapacity(|rows[i]|) <= INT_MAX
    ensures fresh(chan)
    ensures chan.sent == HeaderBytes(header) + RowsOutputAsWritten(rows, widen).0
    ensures res == RowsOutputAsWritten(rows, widen).1
  {
    chan := new Channel.Open();
    WriteHeader(chan, header);
    res := Pass;
    for i := 0 to |rows|
      invariant chan.sent == HeaderBytes(header) + RowsOutputAsWritten(rows[..i], widen).0
      invariant res == Pass && RowsOutputAsWritten(rows[..i], widen).1 == Pass
    {
      ghost var before := RowsOutputAsWritten(rows[..i], widen).0;
      ghost var (frame, outcome) := RowAsWritten(rows[i], widen);
      RowsOutputAsWrittenStep(rows, i, widen);
      res := ChanWriteRow(chan, rows[i], widen);
      assert res == outcome && chan.sent == HeaderBytes(header) + before + frame by {
        assert HeaderBytes(header) + before + [] == HeaderBytes(header) + before;
      }
      ConcatAssoc(HeaderBytes(header), before, frame);
      if res.Fail? {
        RowsOutputAsWrittenFailurePersists(rows, i + 1, widen);
        return;
      }
    }
    assert rows[..|rows|] == rows;
  }
}
