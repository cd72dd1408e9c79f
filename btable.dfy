/**
 * The BTable byte layout that `io.framed.BTableWriter` produces, as functions:
 * conversion of boxed inputs, the sparse row frame, the header, and the whole
 * stream a write sends. The decoders are specification aids for round-trip
 * lemmas; the writer has no reader.
 */
module BTable {
  import opened Results
  import opened JavaBytes

  /** `BTableWriter.VERSION`. */
  const VERSION: int := 0

  /** A row element as the writer receives it: an arbitrary Java `Object`. */
  datatype Boxed =
    | BoxedDouble(bits: DoubleBits)
    | BoxedLong(value: Long)
    | Other(className: string)
    | Null

  /** The exceptions a write can raise (I/O failures are not modelled). */
  datatype WriteError =
    | IllegalArgument(className: string)
    | NullPointer
    | BufferOverflow

  /** `Long.doubleValue()`, left uninterpreted. */
  type Widening = Long -> DoubleBits

  /** One materialised row entry: a column index and its non-zero value. */
  datatype Entry = Entry(index: nat, bits: DoubleBits)

  /** Regrouping a concatenation, stated once so that proofs need not rediscover it. */
  lemma ConcatAssoc<T>(a: seq<T>, b: seq<T>, c: seq<T>)
    ensures (a + b) + c == a + (b + c)
  {
  }

  /** A non-empty sequence is its prefix followed by its last element. */
  lemma SnocLast<T>(s: seq<T>)
    requires s != []
    ensures s[..|s| - 1] + [s[|s| - 1]] == s
  {
  }

  // ---------------------------------------------------------------- conversion

  /**
   * `toDouble`: a `Double` as is, a `Long` widened; any other class is an
   * `IllegalArgumentException` naming it, and `null` fails on `o.getClass()`.
   */
  function ToDouble(o: Boxed, widen: Widening): (r: Result<DoubleBits, WriteError>)
    ensures r.Success? <==> o.BoxedDouble? || o.BoxedLong?
    ensures o.BoxedDouble? ==> r == Success(o.bits)
    ensures o.BoxedLong? ==> r == Success(widen(o.value))
    ensures o.Other? ==> r == Failure(IllegalArgument(o.className))
    ensures o.Null? ==> r == Failure(NullPointer)
  {
    match o
    case BoxedDouble(bits) => Success(bits)
    case BoxedLong(value) => Success(widen(value))
    case Other(name) => Failure(IllegalArgument(name))
    case Null => Failure(NullPointer)
  }

  /** `iter2Doubles`: converts element by element; the first failure aborts. */
  function ToDoubles(row: seq<Boxed>, widen: Widening): Result<seq<DoubleBits>, WriteError>
  {
    if row == [] then Success([])
    else
      match ToDoubles(row[..|row| - 1], widen)
      case Failure(e) => Failure(e)
      case Success(ds) =>
        match ToDouble(row[|row| - 1], widen)
        case Failure(e) => Failure(e)
        case Success(d) => Success(ds + [d])
  }

  /** Conversion succeeds iff every element converts, keeps length and order, and otherwise reports the first failing element. */
  lemma {:induction false} ToDoublesSpec(row: seq<Boxed>, widen: Widening)
    ensures ToDoubles(row, widen).Success? <==> forall i | 0 <= i < |row| :: ToDouble(row[i], widen).Success?
    ensures ToDoubles(row, widen).Success? ==>
              |ToDoubles(row, widen).value| == |row| &&
              forall i | 0 <= i < |row| :: ToDouble(row[i], widen) == Success(ToDoubles(row, widen).value[i])
    ensures ToDoubles(row, widen).Failure? ==>
              exists i | 0 <= i < |row| ::
                ToDouble(row[i], widen) == Failure(ToDoubles(row, widen).error) &&
                forall j | 0 <= j < i :: ToDouble(row[j], widen).Success?
  {
    if row != [] {
      var init := row[..|row| - 1];
      ToDoublesSpec(init, widen);
      assert forall i | 0 <= i < |init| :: init[i] == row[i];
      if ToDoubles(init, widen).Failure? {
        var i :| 0 <= i < |init| && ToDouble(init[i], widen) == Failure(ToDoubles(init, widen).error) &&
                 forall j | 0 <= j < i :: ToDouble(init[j], widen).Success?;
        assert ToDouble(row[i], widen) == Failure(ToDoubles(row, widen).error);
      } else if ToDouble(row[|row| - 1], widen).Failure? {
        assert ToDouble(row[|row| - 1], widen) == Failure(ToDoubles(row, widen).error);
      }
    }
  }

  /** Once a prefix fails, the whole conversion fails with the same error. */
  lemma {:induction false} ToDoublesFailurePersists(row: seq<Boxed>, i: nat, widen: Widening)
    requires i <= |row| && ToDoubles(row[..i], widen).Failure?
    ensures ToDoubles(row, widen) == ToDoubles(row[..i], widen)
    decreases |row| - i
  {
    if i < |row| {
      assert row[..i + 1][..i] == row[..i];
      ToDoublesFailurePersists(row, i + 1, widen);
    } else {
      assert row[..i] == row;
    }
  }

  // ----------------------------------------------------------------- the rows

  /** `numValues`: how many entries compare unequal to 0.0. */
  function CountNonZero(ds: seq<DoubleBits>): (c: nat)
    ensures c <= |ds|
  {
    if ds == [] then 0
    else CountNonZero(ds[..|ds| - 1]) + (if IsZero(ds[|ds| - 1]) then 0 else 1)
  }

  /** The count is zero exactly for all-zero rows and the full length exactly for dense rows. */
  lemma {:induction false} CountNonZeroExtremes(ds: seq<DoubleBits>)
    ensures CountNonZero(ds) == 0 <==> forall i | 0 <= i < |ds| :: IsZero(ds[i])
    ensures CountNonZero(ds) == |ds| <==> forall i | 0 <= i < |ds| :: !IsZero(ds[i])
  {
    if ds != [] {
      var init := ds[..|ds| - 1];
      CountNonZeroExtremes(init);
      assert forall i | 0 <= i < |init| :: init[i] == ds[i];
    }
  }

  /** A prefix never has more non-zero entries than the row. */
  lemma {:induction false} CountNonZeroPrefix(ds: seq<DoubleBits>, i: nat)
    requires i <= |ds|
    ensures CountNonZero(ds[..i]) <= CountNonZero(ds)
    decreases |ds| - i
  {
    if i < |ds| {
      assert ds[..i + 1][..i] == ds[..i];
      CountNonZeroPrefix(ds, i + 1);
    } else {
      assert ds[..i] == ds;
    }
  }

  /** The materialised form: the (index, value) pairs of the non-zero entries, in row order. */
  function Materialize(ds: seq<DoubleBits>): seq<Entry>
  {
    if ds == [] then []
    else
      var last := |ds| - 1;
      if IsZero(ds[last]) then Materialize(ds[..last])
      else Materialize(ds[..last]) + [Entry(last, ds[last])]
  }

  /** Extending the row by one value adds one pair exactly when that value is non-zero. */
  lemma MaterializeStep(ds: seq<DoubleBits>, i: nat)
    requires i < |ds|
    ensures Materialize(ds[..i + 1]) ==
              if IsZero(ds[i]) then Materialize(ds[..i]) else Materialize(ds[..i]) + [Entry(i, ds[i])]
    ensures CountNonZero(ds[..i + 1]) == CountNonZero(ds[..i]) + if IsZero(ds[i]) then 0 else 1
  {
    assert ds[..i + 1][..i] == ds[..i];
  }

  /**
   * As many pairs as `numValues` counts; indices strictly ascending and inside the
   * row; each pair carries the value at its index; every non-zero position appears.
   */
  lemma {:induction false} MaterializeSpec(ds: seq<DoubleBits>)
    ensures |Materialize(ds)| == CountNonZero(ds)
    ensures forall j, k | 0 <= j < k < |Materialize(ds)| :: Materialize(ds)[j].index < Materialize(ds)[k].index
    ensures forall j | 0 <= j < |Materialize(ds)| ::
              Materialize(ds)[j].index < |ds| &&
              Materialize(ds)[j].bits == ds[Materialize(ds)[j].index] &&
              !IsZero(Materialize(ds)[j].bits)
    ensures forall i | 0 <= i < |ds| && !IsZero(ds[i]) ::
              exists j | 0 <= j < |Materialize(ds)| :: Materialize(ds)[j].index == i
  {
    if ds != [] {
      var last := |ds| - 1;
      var init := ds[..last];
      MaterializeSpec(init);
      assert forall i | 0 <= i < |init| :: init[i] == ds[i];
      var m := Materialize(init);
      if !IsZero(ds[last]) {
        var es := Materialize(ds);
        assert es == m + [Entry(last, ds[last])];
        forall i | 0 <= i < |ds| && !IsZero(ds[i])
          ensures exists j | 0 <= j < |es| :: es[j].index == i
        {
          if i == last {
            assert es[|m|].index == i;
          } else {
            var j :| 0 <= j < |m| && m[j].index == i;
            assert es[j].index == i;
          }
        }
      }
    }
  }

  function EntryBytes(e: Entry): (r: seq<byte>)
    ensures |r| == 12
  {
    IntBytes(e.index) + DoubleBytes(e.bits)
  }

  function EntriesBytes(es: seq<Entry>): (r: seq<byte>)
    ensures |r| == 12 * |es|
  {
    if es == [] then [] else EntryBytes(es[0]) + EntriesBytes(es[1..])
  }

  lemma {:induction false} EntriesBytesSnoc(es: seq<Entry>, e: Entry)
    ensures EntriesBytes(es + [e]) == EntriesBytes(es) + EntryBytes(e)
  {
    if es != [] {
      assert (es + [e])[1..] == es[1..] + [e];
      EntriesBytesSnoc(es[1..], e);
      ConcatAssoc(EntryBytes(es[0]), EntriesBytes(es[1..]), EntryBytes(e));
    }
  }

  /** One row frame: the non-zero count, then a big-endian (index, value) pair per non-zero entry. */
  function RowFrame(ds: seq<DoubleBits>): seq<byte>
  {
    IntBytes(CountNonZero(ds)) + EntriesBytes(Materialize(ds))
  }

  /** A frame is 4 bytes of count and 12 bytes per non-zero entry. */
  lemma {:induction false} RowFrameLength(ds: seq<DoubleBits>)
    ensures |RowFrame(ds)| == 4 + 12 * CountNonZero(ds)
  {
    MaterializeSpec(ds);
  }

  /** A frame is at least as long as the count plus the pairs of any prefix of the row. */
  lemma {:induction false} RowFrameGrows(ds: seq<DoubleBits>, i: nat)
    requires i <= |ds|
    ensures |RowFrame(ds)| >= 4 + 12 * |Materialize(ds[..i])|
  {
    MaterializeSpec(ds[..i]);
    CountNonZeroPrefix(ds, i);
    RowFrameLength(ds);
  }

  /**
   * The put loop's step: the bytes put for the first `i` values, extended by the
   * pair of a non-zero value at `i` (and by nothing for a zero), are the bytes
   * for the first `i + 1` values; a pair that does not fit means the frame does not.
   */
  lemma PutPrefixStep(ds: seq<DoubleBits>, i: nat, count: int, w: seq<byte>)
    requires i < |ds|
    requires w == IntBytes(count) + EntriesBytes(Materialize(ds[..i]))
    ensures IsZero(ds[i]) ==> w == IntBytes(count) + EntriesBytes(Materialize(ds[..i + 1]))
    ensures !IsZero(ds[i]) ==>
              w + EntryBytes(Entry(i, ds[i])) == IntBytes(count) + EntriesBytes(Materialize(ds[..i + 1]))
    ensures !IsZero(ds[i]) ==> |RowFrame(ds)| >= |w| + 12
  {
    MaterializeStep(ds, i);
    if !IsZero(ds[i]) {
      var m, e := Materialize(ds[..i]), Entry(i, ds[i]);
      EntriesBytesSnoc(m, e);
      ConcatAssoc(IntBytes(count), EntriesBytes(m), EntryBytes(e));
      RowFrameGrows(ds, i + 1);
    }
  }

  // ----------------------------------------------------------- buffer sizing

  /** The row buffer as allocated: `4 + 8 * rowVals.size()` bytes. */
  function AsWrittenRowCapacity(n: nat): nat
  {
    4 + 8 * n
  }

  /** Room for a dense row: four bytes of count and twelve per entry. */
  function RowCapacity(n: nat): nat
  {
    4 + 12 * n
  }

  /** The allocated buffer holds the frame exactly when 12 * (non-zero count) <= 8 * (row length). */
  lemma {:induction false} AsWrittenCapacityFits(ds: seq<DoubleBits>)
    ensures |RowFrame(ds)| <= AsWrittenRowCapacity(|ds|) <==> 12 * CountNonZero(ds) <= 8 * |ds|
  {
    RowFrameLength(ds);
  }

  /** Every non-empty dense row overflows the buffer as allocated. */
  lemma {:induction false} DenseRowOverflows(ds: seq<DoubleBits>)
    requires |ds| > 0 && forall i | 0 <= i < |ds| :: !IsZero(ds[i])
    ensures |RowFrame(ds)| > AsWrittenRowCapacity(|ds|)
  {
    RowFrameLength(ds);
    CountNonZeroExtremes(ds);
  }

  /** The single-value row [1.0] needs 16 bytes; 12 are allocated. */
  lemma {:induction false} OneValueRowOverflows()
    ensures |RowFrame([0x3FF0_0000_0000_0000])| == 16 > AsWrittenRowCapacity(1)
  {
    RowFrameLength([0x3FF0_0000_0000_0000]);
  }

  /** Sizing for the worst case of a dense row always leaves room for the frame. */
  lemma {:induction false} RowCapacityFits(ds: seq<DoubleBits>)
    ensures |RowFrame(ds)| <= RowCapacity(|ds|)
  {
    RowFrameLength(ds);
  }

  // ------------------------------------------------------------ header, stream

  function UnitsBytes(units: seq<CodeUnit>): (r: seq<byte>)
    ensures |r| == 2 * |units|
  {
    if units == [] then [] else CharBytes(units[0]) + UnitsBytes(units[1..])
  }

  lemma {:induction false} UnitsBytesSnoc(units: seq<CodeUnit>, c: CodeUnit)
    ensures UnitsBytes(units + [c]) == UnitsBytes(units) + CharBytes(c)
  {
    if units != [] {
      assert (units + [c])[1..] == units[1..] + [c];
      UnitsBytesSnoc(units[1..], c);
      ConcatAssoc(CharBytes(units[0]), UnitsBytes(units[1..]), CharBytes(c));
    }
  }

  /** The header: `VERSION`, the label length, then each code unit of the label. */
  function HeaderBytes(units: seq<CodeUnit>): (r: seq<byte>)
    ensures |r| == 8 + 2 * |units|
  {
    IntBytes(VERSION) + IntBytes(|units|) + UnitsBytes(units)
  }

  /** The frames of several rows back to back, in row order. */
  function Frames(rows: seq<seq<DoubleBits>>): seq<byte>
  {
    if rows == [] then [] else RowFrame(rows[0]) + Frames(rows[1..])
  }

  lemma {:induction false} FramesSnoc(rows: seq<seq<DoubleBits>>, ds: seq<DoubleBits>)
    ensures Frames(rows + [ds]) == Frames(rows) + RowFrame(ds)
  {
    if rows != [] {
      assert (rows + [ds])[1..] == rows[1..] + [ds];
      FramesSnoc(rows[1..], ds);
      ConcatAssoc(RowFrame(rows[0]), Frames(rows[1..]), RowFrame(ds));
    }
  }

  /** One more row of the loop in `write`, once the rows before it have all been sent. */
  lemma RowsOutputStep(rows: seq<seq<Boxed>>, i: nat, widen: Widening)
    requires i < |rows| && RowsOutput(rows[..i], widen).1 == Pass
    ensures RowsOutput(rows[..i + 1], widen) ==
              match ToDoubles(rows[i], widen)
              case Failure(e) => (RowsOutput(rows[..i], widen).0, Fail(e))
              case Success(ds) => (RowsOutput(rows[..i], widen).0 + RowFrame(ds), Pass)
  {
    assert rows[..i + 1][..i] == rows[..i];
  }

  /**
   * What the row loop of `write` sends with the row buffer sized for dense rows,
   * and how it ends: each row converted and framed in order, stopping at the
   * first row whose conversion fails (with that sizing no row overflows).
   */
  function RowsOutput(rows: seq<seq<Boxed>>, widen: Widening): (seq<byte>, Outcome<WriteError>)
  {
    if rows == [] then ([], Pass)
    else
      var (before, outcome) := RowsOutput(rows[..|rows| - 1], widen);
      if outcome.Fail? then (before, outcome)
      else
        match ToDoubles(rows[|rows| - 1], widen)
        case Failure(e) => (before, Fail(e))
        case Success(ds) => (before + RowFrame(ds), Pass)
  }

  /** With the corrected row buffer: when every row converts, the rows' frames are sent in order and the write completes. */
  lemma {:induction false} RowsOutputAllValid(rows: seq<seq<Boxed>>, dss: seq<seq<DoubleBits>>, widen: Widening)
    requires |dss| == |rows|
    requires forall i | 0 <= i < |rows| :: ToDoubles(rows[i], widen) == Success(dss[i])
    ensures RowsOutput(rows, widen) == (Frames(dss), Pass)
  {
    if rows != [] {
      var n := |rows| - 1;
      assert forall i | 0 <= i < n :: rows[..n][i] == rows[i];
      RowsOutputAllValid(rows[..n], dss[..n], widen);
      FramesSnoc(dss[..n], dss[n]);
      SnocLast(dss);
    }
  }

  /** Once a prefix of the rows has failed, later rows change neither the bytes nor the error. */
  lemma {:induction false} RowsOutputFailurePersists(rows: seq<seq<Boxed>>, i: nat, widen: Widening)
    requires i <= |rows| && RowsOutput(rows[..i], widen).1.Fail?
    ensures RowsOutput(rows, widen) == RowsOutput(rows[..i], widen)
    decreases |rows| - i
  {
    if i < |rows| {
      assert rows[..i + 1][..i] == rows[..i];
      RowsOutputFailurePersists(rows, i + 1, widen);
    } else {
      assert rows[..i] == rows;
    }
  }

  /** With the corrected row buffer: the first row that fails to convert ends the output after the frames of the rows before it. */
  lemma {:induction false} RowsOutputFirstFailure(rows: seq<seq<Boxed>>, dss: seq<seq<DoubleBits>>, widen: Widening)
    requires |dss| < |rows|
    requires forall i | 0 <= i < |dss| :: ToDoubles(rows[i], widen) == Success(dss[i])
    requires ToDoubles(rows[|dss|], widen).Failure?
    ensures RowsOutput(rows, widen) == (Frames(dss), Fail(ToDoubles(rows[|dss|], widen).error))
  {
    var k := |dss|;
    assert forall i | 0 <= i < k :: rows[..k][i] == rows[i];
    RowsOutputAllValid(rows[..k], dss, widen);
    assert rows[..k + 1][..k] == rows[..k];
    RowsOutputFailurePersists(rows, k + 1, widen);
  }

  // ------------------------------------------------ the row loop as written

  /**
   * `chanWriteRow` as written, for one row: a conversion failure sends nothing;
   * a row that converts has its frame sent when it fits the `4 + 8 * size`
   * bytes allocated, and otherwise `putDouble` overflows before anything is sent.
   */
  function RowAsWritten(row: seq<Boxed>, widen: Widening): (seq<byte>, Outcome<WriteError>)
  {
    match ToDoubles(row, widen)
    case Failure(e) => ([], Fail(e))
    case Success(ds) =>
      if 12 * CountNonZero(ds) <= 8 * |ds| then (RowFrame(ds), Pass) else ([], Fail(BufferOverflow))
  }

  /**
   * What the row loop of `write` sends as written, and how it ends: rows in
   * order, stopping at the first row that fails to convert or overflows its buffer.
   */
  function RowsOutputAsWritten(rows: seq<seq<Boxed>>, widen: Widening): (seq<byte>, Outcome<WriteError>)
  {
    if rows == [] then ([], Pass)
    else
      var (before, outcome) := RowsOutputAsWritten(rows[..|rows| - 1], widen);
      if outcome.Fail? then (before, outcome)
      else
        var (frame, last) := RowAsWritten(rows[|rows| - 1], widen);
        (before + frame, last)
  }

  /** One more row of the as-written loop, once the rows before it have all been sent. */
  lemma RowsOutputAsWrittenStep(rows: seq<seq<Boxed>>, i: nat, widen: Widening)
    requires i < |rows| && RowsOutputAsWritten(rows[..i], widen).1 == Pass
    ensures RowsOutputAsWritten(rows[..i + 1], widen) ==
              (RowsOutputAsWritten(rows[..i], widen).0 + RowAsWritten(rows[i], widen).0, RowAsWritten(rows[i], widen).1)
  {
    assert rows[..i + 1][..i] == rows[..i];
  }

  /** As written: once a prefix of the rows has failed, later rows change neither the bytes nor the error. */
  lemma {:induction false} RowsOutputAsWrittenFailurePersists(rows: seq<seq<Boxed>>, i: nat, widen: Widening)
    requires i <= |rows| && RowsOutputAsWritten(rows[..i], widen).1.Fail?
    ensures RowsOutputAsWritten(rows, widen) == RowsOutputAsWritten(rows[..i], widen)
    decreases |rows| - i
  {
    if i < |rows| {
      assert rows[..i + 1][..i] == rows[..i];
      RowsOutputAsWrittenFailurePersists(rows, i + 1, widen);
    } else {
      assert rows[..i] == rows;
    }
  }

  /** As written: when every row converts and fits its buffer, the rows' frames are sent in order and the write completes. */
  lemma {:induction false} RowsOutputAsWrittenAllFit(rows: seq<seq<Boxed>>, dss: seq<seq<DoubleBits>>, widen: Widening)
    requires |dss| == |rows|
    requires forall i | 0 <= i < |rows| ::
               ToDoubles(rows[i], widen) == Success(dss[i]) && 12 * CountNonZero(dss[i]) <= 8 * |dss[i]|
    ensures RowsOutputAsWritten(rows, widen) == (Frames(dss), Pass)
  {
    if rows != [] {
      var n := |rows| - 1;
      RowsOutputAsWrittenAllFit(rows[..n], dss[..n], widen);
      RowAsWrittenFits(rows[n], dss[n], widen);
      FramesSnoc(dss[..n], dss[n]);
      SnocLast(dss);
    }
  }

  lemma RowAsWrittenFits(row: seq<Boxed>, ds: seq<DoubleBits>, widen: Widening)
    requires ToDoubles(row, widen) == Success(ds) && 12 * CountNonZero(ds) <= 8 * |ds|
    ensures RowAsWritten(row, widen) == (RowFrame(ds), Pass)
  {
  }

  /**
   * As written: the first row that fails to convert, or converts but overflows,
   * ends the write with that exception, after exactly the frames of the rows before it.
   */
  lemma {:induction false} RowsOutputAsWrittenFirstFailure(rows: seq<seq<Boxed>>, dss: seq<seq<DoubleBits>>, widen: Widening)
    requires |dss| < |rows|
    requires forall i | 0 <= i < |dss| ::
               ToDoubles(rows[i], widen) == Success(dss[i]) && 12 * CountNonZero(dss[i]) <= 8 * |dss[i]|
    requires ToDoubles(rows[|dss|], widen).Success? ==>
               12 * CountNonZero(ToDoubles(rows[|dss|], widen).value) > 8 * |ToDoubles(rows[|dss|], widen).value|
    ensures RowsOutputAsWritten(rows, widen) ==
              (Frames(dss),
               Fail(if ToDoubles(rows[|dss|], widen).Failure? then ToDoubles(rows[|dss|], widen).error else BufferOverflow))
  {
    var k := |dss|;
    assert forall i | 0 <= i < k :: rows[..k][i] == rows[i];
    RowsOutputAsWrittenAllFit(rows[..k], dss, widen);
    RowsOutputAsWrittenStep(rows, k, widen);
    assert RowAsWritten(rows[k], widen).0 == [];
    assert Frames(dss) + [] == Frames(dss);
    RowsOutputAsWrittenFailurePersists(rows, k + 1, widen);
  }

  /**
   * The as-written write sends a prefix of what the corrected one sends, and
   * when it completes it has sent exactly the same bytes.
   */
  lemma {:induction false} RowsOutputAsWrittenIsPrefix(rows: seq<seq<Boxed>>, widen: Widening)
    ensures RowsOutputAsWritten(rows, widen).0 <= RowsOutput(rows, widen).0
    ensures RowsOutputAsWritten(rows, widen).1 == Pass ==> RowsOutputAsWritten(rows, widen) == RowsOutput(rows, widen)
  {
    if rows != [] {
      var init := rows[..|rows| - 1];
      RowsOutputAsWrittenIsPrefix(init, widen);
      var (a, c) := (RowsOutputAsWritten(init, widen), RowsOutput(init, widen));
      if a.1.Pass? {
        assert a.0 + [] == a.0;
      }
    }
  }

  /**
   * Writing the one row `[1.0]`: as written nothing reaches the channel after
   * the header and the write throws `BufferOverflowException`; with the
   * corrected buffer the row's 16-byte frame is sent.
   */
  lemma {:induction false} OneValueWriteOverflows(widen: Widening)
    ensures RowsOutputAsWritten([[BoxedDouble(0x3FF0_0000_0000_0000)]], widen) == ([], Fail(BufferOverflow))
    ensures RowsOutput([[BoxedDouble(0x3FF0_0000_0000_0000)]], widen) ==
              (RowFrame([0x3FF0_0000_0000_0000]), Pass)
  {
    var row := [BoxedDouble(0x3FF0_0000_0000_0000)];
    var ds: seq<DoubleBits> := [0x3FF0_0000_0000_0000];
    assert row[..|row| - 1] == [];
    assert ToDouble(row[0], widen) == Success(ds[0]);
    assert [] + [ds[0]] == ds;
    assert ToDoubles(row, widen) == Success(ds);
    RowFrameLength(ds);
    OneValueRowOverflows();
    assert RowAsWritten(row, widen) == ([], Fail(BufferOverflow));
    var rows := [row];
    assert rows[..|rows| - 1] == [];
    assert RowsOutputAsWritten(rows[..|rows| - 1], widen) == ([], Pass);
    assert RowsOutput(rows[..|rows| - 1], widen) == ([], Pass);
    assert [] + RowFrame(ds) == RowFrame(ds);
    assert RowsOutputAsWritten(rows, widen) == ([] + [], Fail(BufferOverflow));
    assert RowsOutputAsWritten(rows, widen).0 == [];
    assert rows == [[BoxedDouble(0x3FF0_0000_0000_0000)]];
  }
}
