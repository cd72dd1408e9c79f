/**
 * A reader for the BTable layout, written only to state what the writer's
 * bytes mean: header and frames decode back to the label and the
 * materialised rows, and scattering a frame restores the row.
 */
module BTableDecode {
  import opened Results
  import opened JavaBytes
  import opened BTable

  function ReadInt(s: seq<byte>): Option<(int, seq<byte>)>
  {
    if |s| < 4 then None else Some((IntOf(s[..4]), s[4..]))
  }

  function ReadDouble(s: seq<byte>): Option<(DoubleBits, seq<byte>)>
  {
    if |s| < 8 then None else Some((FromBigEndian(s[..8]) as DoubleBits, s[8..]))
  }

  function ReadUnits(s: seq<byte>, n: nat): Option<(seq<CodeUnit>, seq<byte>)>
  {
    if n == 0 then Some(([], s))
    else if |s| < 2 then None
    else
      match ReadUnits(s[2..], n - 1)
      case None => None
      case Some((units, rest)) => Some(([FromBigEndian(s[..2]) as CodeUnit] + units, rest))
  }

  /** Version, label, and the bytes after the header. */
  function DecodeHeader(s: seq<byte>): Option<(int, seq<CodeUnit>, seq<byte>)>
  {
    match ReadInt(s)
    case None => None
    case Some((version, s1)) =>
      match ReadInt(s1)
      case None => None
      case Some((n, s2)) =>
        if n < 0 then None
        else
          match ReadUnits(s2, n)
          case None => None
          case Some((units, rest)) => Some((version, units, rest))
  }

  function ReadEntries(s: seq<byte>, k: nat): (r: Option<(seq<Entry>, seq<byte>)>)
    ensures r.Some? ==> |r.value.1| <= |s|
  {
    if k == 0 then Some(([], s))
    else
      match ReadInt(s)
      case None => None
      case Some((index, s1)) =>
        match ReadDouble(s1)
        case None => None
        case Some((bits, s2)) =>
          if index < 0 then None
          else
            match ReadEntries(s2, k - 1)
            case None => None
            case Some((es, rest)) => Some(([Entry(index, bits)] + es, rest))
  }

  /** One frame: its count, then that many (index, value) pairs. */
  function DecodeFrame(s: seq<byte>): (r: Option<(seq<Entry>, seq<byte>)>)
    ensures r.Some? ==> |r.value.1| < |s|
  {
    match ReadInt(s)
    case None => None
    case Some((count, s1)) => if count < 0 then None else ReadEntries(s1, count)
  }

  /** Frames until the end of the stream. */
  function DecodeFrames(s: seq<byte>): Option<seq<seq<Entry>>>
    decreases |s|
  {
    if s == [] then Some([])
    else
      match DecodeFrame(s)
      case None => None
      case Some((es, rest)) =>
        match DecodeFrames(rest)
        case None => None
        case Some(frames) => Some([es] + frames)
  }

  function DecodeStream(s: seq<byte>): Option<(int, seq<CodeUnit>, seq<seq<Entry>>)>
  {
    match DecodeHeader(s)
    case None => None
    case Some((version, units, rest)) =>
      match DecodeFrames(rest)
      case None => None
      case Some(frames) => Some((version, units, frames))
  }

  /** A zero-filled row of `n` values with each entry's value put at its index; an index outside the row rejects it. */
  function Scatter(es: seq<Entry>, n: nat): (r: Option<seq<DoubleBits>>)
    ensures r.Some? ==> |r.value| == n
  {
    if es == [] then Some(seq(n, _ => POSITIVE_ZERO))
    else
      match Scatter(es[..|es| - 1], n)
      case None => None
      case Some(row) =>
        var e := es[|es| - 1];
        if e.index < n then Some(row[e.index := e.bits]) else None
  }

  /** The row with -0.0 replaced by +0.0 (a suppressed entry reads back as +0.0). */
  function Canonical(ds: seq<DoubleBits>): (r: seq<DoubleBits>)
    ensures |r| == |ds|
    ensures (forall i | 0 <= i < |ds| :: ds[i] != NEGATIVE_ZERO) ==> r == ds
  {
    seq(|ds|, i requires 0 <= i < |ds| => if IsZero(ds[i]) then POSITIVE_ZERO else ds[i])
  }

  // ------------------------------------------------------------ round trips

  lemma {:induction false} ReadIntOf(v: int, rest: seq<byte>)
    requires IsInt(v)
    ensures ReadInt(IntBytes(v) + rest) == Some((v, rest))
  {
    var s := IntBytes(v) + rest;
    assert s[..4] == IntBytes(v) && s[4..] == rest;
    IntRoundTrip(v);
  }

  lemma {:induction false} ReadDoubleOf(d: DoubleBits, rest: seq<byte>)
    ensures ReadDouble(DoubleBytes(d) + rest) == Some((d, rest))
  {
    var s := DoubleBytes(d) + rest;
    assert s[..8] == DoubleBytes(d) && s[8..] == rest;
  }

  lemma {:induction false} ReadUnitsOf(units: seq<CodeUnit>, rest: seq<byte>)
    ensures ReadUnits(UnitsBytes(units) + rest, |units|) == Some((units, rest))
  {
    if units != [] {
      var s := UnitsBytes(units) + rest;
      assert s[..2] == CharBytes(units[0]);
      assert s[2..] == UnitsBytes(units[1..]) + rest;
      assert FromBigEndian(s[..2]) as CodeUnit == units[0];
      ReadUnitsOf(units[1..], rest);
      assert ReadUnits(s[2..], |units| - 1) == Some((units[1..], rest));
      assert [units[0]] + units[1..] == units;
    } else {
      assert UnitsBytes(units) + rest == rest;
    }
  }

  /** The header decodes to version 0 and exactly the label's code units, leaving what follows untouched. */
  lemma {:induction false} HeaderRoundTrip(units: seq<CodeUnit>, rest: seq<byte>)
    requires IsInt(|units|)
    ensures DecodeHeader(HeaderBytes(units) + rest) == Some((VERSION, units, rest))
  {
    var s := HeaderBytes(units) + rest;
    assert s == IntBytes(VERSION) + (IntBytes(|units|) + (UnitsBytes(units) + rest));
    ReadIntOf(VERSION, IntBytes(|units|) + (UnitsBytes(units) + rest));
    ReadIntOf(|units|, UnitsBytes(units) + rest);
    ReadUnitsOf(units, rest);
  }

  lemma {:induction false} ReadEntriesOf(es: seq<Entry>, rest: seq<byte>)
    requires forall j | 0 <= j < |es| :: IsInt(es[j].index)
    ensures ReadEntries(EntriesBytes(es) + rest, |es|) == Some((es, rest))
  {
    if es != [] {
      var e := es[0];
      var tail := EntriesBytes(es[1..]) + rest;
      assert EntriesBytes(es) + rest == IntBytes(e.index) + (DoubleBytes(e.bits) + tail);
      ReadIntOf(e.index, DoubleBytes(e.bits) + tail);
      ReadDoubleOf(e.bits, tail);
      ReadEntriesOf(es[1..], rest);
      assert ReadEntries(tail, |es| - 1) == Some((es[1..], rest));
      assert [e] + es[1..] == es;
    } else {
      assert EntriesBytes(es) + rest == rest;
    }
  }

  lemma {:induction false} MaterializeIndicesFit(ds: seq<DoubleBits>)
    requires |ds| <= INT_MAX
    ensures |Materialize(ds)| == CountNonZero(ds)
    ensures forall j | 0 <= j < |Materialize(ds)| :: IsInt(Materialize(ds)[j].index)
  {
    MaterializeSpec(ds);
  }

  lemma {:induction false} DecodeFrameOf(es: seq<Entry>, rest: seq<byte>)
    requires IsInt(|es|)
    requires forall j | 0 <= j < |es| :: IsInt(es[j].index)
    ensures DecodeFrame(IntBytes(|es|) + (EntriesBytes(es) + rest)) == Some((es, rest))
  {
    var s1 := EntriesBytes(es) + rest;
    ReadIntOf(|es|, s1);
    ReadEntriesOf(es, rest);
    assert ReadEntries(s1, |es|) == Some((es, rest));
  }

  /** A row frame decodes to the row's materialised pairs, its count agreeing with the pairs that follow. */
  lemma {:induction false} FrameRoundTrip(ds: seq<DoubleBits>, rest: seq<byte>)
    requires |ds| <= INT_MAX
    ensures DecodeFrame(RowFrame(ds) + rest) == Some((Materialize(ds), rest))
  {
    MaterializeIndicesFit(ds);
    var es := Materialize(ds);
    DecodeFrameOf(es, rest);
    assert RowFrame(ds) + rest == IntBytes(|es|) + (EntriesBytes(es) + rest);
  }

  lemma {:induction false} FramesRoundTrip(rows: seq<seq<DoubleBits>>)
    requires forall i | 0 <= i < |rows| :: |rows[i]| <= INT_MAX
    ensures DecodeFrames(Frames(rows)).Some?
    ensures |DecodeFrames(Frames(rows)).value| == |rows|
    ensures forall i | 0 <= i < |rows| :: DecodeFrames(Frames(rows)).value[i] == Materialize(rows[i])
  {
    if rows != [] {
      FrameRoundTrip(rows[0], Frames(rows[1..]));
      FramesRoundTrip(rows[1..]);
      RowFrameLength(rows[0]);
      assert Frames(rows) != [];
    }
  }

  /** The whole stream decodes to version 0, the label, and each row's materialised pairs in row order. */
  lemma {:induction false} StreamRoundTrip(units: seq<CodeUnit>, rows: seq<seq<DoubleBits>>)
    requires IsInt(|units|)
    requires forall i | 0 <= i < |rows| :: |rows[i]| <= INT_MAX
    ensures DecodeStream(HeaderBytes(units) + Frames(rows)).Some?
    ensures DecodeStream(HeaderBytes(units) + Frames(rows)).value.0 == VERSION
    ensures DecodeStream(HeaderBytes(units) + Frames(rows)).value.1 == units
    ensures |DecodeStream(HeaderBytes(units) + Frames(rows)).value.2| == |rows|
    ensures forall i | 0 <= i < |rows| :: DecodeStream(HeaderBytes(units) + Frames(rows)).value.2[i] == Materialize(rows[i])
  {
    HeaderRoundTrip(units, Frames(rows));
    FramesRoundTrip(rows);
  }

  lemma {:induction false} ScatterMaterializePadded(ds: seq<DoubleBits>, m: nat)
    requires |ds| <= m
    ensures Scatter(Materialize(ds), m) == Some(Canonical(ds) + seq(m - |ds|, _ => POSITIVE_ZERO))
  {
    if ds == [] {
      assert Canonical(ds) + seq(m, _ => POSITIVE_ZERO) == seq(m, _ => POSITIVE_ZERO);
    } else {
      var last := |ds| - 1;
      var init := ds[..last];
      ScatterMaterializePadded(init, m);
      var before := Canonical(init) + seq(m - last, _ => POSITIVE_ZERO);
      var after := Canonical(ds) + seq(m - |ds|, _ => POSITIVE_ZERO);
      if IsZero(ds[last]) {
        assert before == after;
      } else {
        var es := Materialize(ds);
        assert es[..|es| - 1] == Materialize(init);
        assert before[last := ds[last]] == after;
      }
    }
  }

  /**
   * Scattering a row's frame into a zero-filled row of its length gives back
   * every non-zero value at its index and +0.0 everywhere else.
   */
  lemma {:induction false} ScatterMaterialize(ds: seq<DoubleBits>)
    ensures Scatter(Materialize(ds), |ds|) == Some(Canonical(ds))
  {
    ScatterMaterializePadded(ds, |ds|);
    assert Canonical(ds) + [] == Canonical(ds);
  }

  /** Encoding a row and decoding its frame at the row's width restores the row, -0.0 becoming +0.0. */
  lemma {:induction false} RowRoundTrip(ds: seq<DoubleBits>, rest: seq<byte>)
    requires |ds| <= INT_MAX
    ensures DecodeFrame(RowFrame(ds) + rest).Some?
    ensures Scatter(DecodeFrame(RowFrame(ds) + rest).value.0, |ds|) == Some(Canonical(ds))
  {
    FrameRoundTrip(ds, rest);
    ScatterMaterialize(ds);
  }
}
