/**
 * Choosing the interval of steepest change for one well.
 *
 * The table's rows for one well inside an inclusive time window are cut into consecutive
 * chunks of `span` rows; each full chunk gets a least-squares line of reads against time,
 * the first short chunk ends the fitting, and the chunk whose slope is steepest in absolute
 * value is the answer. Slopes are reported in milli-absorbance per minute.
 */
module SlopeSelector {
  import opened Wrappers
  import opened KineticTable
  import opened Regression

  /** One fitted chunk: its first and last time, slope in mAbs/min, R² and intercept. */
  datatype SlopeRow = SlopeRow(start: real, end: real, slope: real, r2: Option<real>, yInt: real)

  /** A span of 0 rows cannot step through the rows. */
  datatype SelectError = ZeroSpan

  /** Seconds per minute times milli-units per unit. */
  const SlopeScale: real := 60.0 * 1000.0

  function Abs(x: real): real
  {
    if x < 0.0 then -x else x
  }

  function Min(a: int, b: int): int
  {
    if a <= b then a else b
  }

  /** The row belongs to the well and its time lies in [start, end]. */
  predicate InWindow(r: Reading, well: string, start: real, end: real)
  {
    r.wellName == well && start <= r.timeS <= end
  }

  /** The rows of one well inside the time window, in table order. */
  function Window(table: seq<Reading>, well: string, start: real, end: real): (w: seq<Reading>)
    ensures |w| <= |table|
    ensures forall r :: r in w <==> r in table && InWindow(r, well, start, end)
  {
    if table == [] then []
    else (if InWindow(table[0], well, start, end) then [table[0]] else [])
         + Window(table[1..], well, start, end)
  }

  /** Consecutive chunks of `span` rows from the start; only the last one can be shorter. */
  function Chunks(s: seq<Reading>, span: nat): seq<seq<Reading>>
    requires span > 0
    decreases |s|
  {
    if s == [] then []
    else if |s| <= span then [s]
    else [s[..span]] + Chunks(s[span..], span)
  }

  function Times(rows: seq<Reading>): (xs: seq<real>)
    ensures |xs| == |rows|
  {
    seq(|rows|, i requires 0 <= i < |rows| => rows[i].timeS)
  }

  function Reads(rows: seq<Reading>): (ys: seq<real>)
    ensures |ys| == |rows|
  {
    seq(|rows|, i requires 0 <= i < |rows| => rows[i].read)
  }

  /** The line through one chunk, reads against time, with the slope scaled to mAbs/min. */
  function ChunkFit(chunk: seq<Reading>): SlopeRow
    requires chunk != []
  {
    var f := Fit(Times(chunk), Reads(chunk));
    SlopeRow(chunk[0].timeS, chunk[|chunk| - 1].timeS, f.slope * SlopeScale, f.r2, f.intercept)
  }

  /** Chunk k of a window that holds at least k + 1 full chunks. */
  function FullChunk(w: seq<Reading>, span: nat, k: nat): (c: seq<Reading>)
    requires span > 0 && k < |w| / span
    ensures |c| == span
  {
    ChunkBound(k, span, |w|);
    w[k * span .. k * span + span]
  }

  /** The fits of the |w| / span full chunks of the window, in order. */
  function FittedChunks(w: seq<Reading>, span: nat): (rows: seq<SlopeRow>)
    requires span > 0
    ensures |rows| == |w| / span
  {
    seq(|w| / span, k requires 0 <= k < |w| / span => ChunkFit(FullChunk(w, span, k)))
  }

  /** The row of greatest absolute slope; on a tie, the earliest such row. */
  function Best(rows: seq<SlopeRow>): (r: Option<SlopeRow>)
    ensures r.None? <==> rows == []
    ensures r.Some? ==> r.value in rows
    ensures r.Some? ==> forall x :: x in rows ==> Abs(x.slope) <= Abs(r.value.slope)
  {
    if rows == [] then None
    else
      match Best(rows[1..])
      case None => Some(rows[0])
      case Some(b) => if Abs(b.slope) > Abs(rows[0].slope) then Some(b) else Some(rows[0])
  }

  /**
   * Filters the table, fits the chunks until the first short one and picks the steepest.
   * A span of 0 is an error; a negative span steps through no chunk and selects nothing.
   */
  method GetBestSlope(table: seq<Reading>, well: string, start: real, end: real, span: int)
    returns (r: Result<Option<SlopeRow>, SelectError>)
    ensures r.Err? <==> span == 0
    ensures span < 0 ==> r == Ok(None)
    ensures span > 0 ==> r == Ok(Best(FittedChunks(Window(table, well, start, end), span)))
  {
    hide ChunkFit;
    if span == 0 {
      return Err(ZeroSpan);
    }
    if span < 0 {
      return Ok(None);
    }
    var subset := Window(table, well, start, end);
    var chunks := Chunks(subset, span);
    ChunkCount(subset, span);
    var data: seq<SlopeRow> := [];
    var i := 0;
    while i < |chunks|
      invariant 0 <= i <= |chunks|
      invariant |data| == i && i * span <= |subset|
      invariant forall j :: 0 <= j < i ==> j < |subset| / span && data[j] == ChunkFit(FullChunk(subset, span, j))
    {
      var chunk := chunks[i];
      ChunkStep(subset, span, i);
      if |chunk| != span {
        break;
      }
      data := data + [ChunkFit(chunk)];
      i := i + 1;
    }
    if i == |chunks| {
      ChunksEnd(subset, span, i);
    }
    FittedChunksFromParts(subset, span, data);
    return Ok(Best(data));
  }

  /**
   * Chunk i, reached after i full chunks, is the next full chunk when it has span rows, and
   * otherwise the window holds exactly i full chunks.
   */
  lemma ChunkStep(s: seq<Reading>, span: nat, i: nat)
    requires span > 0 && i < |Chunks(s, span)| && i * span <= |s|
    ensures |Chunks(s, span)[i]| == span ==>
      i < |s| / span && (i + 1) * span <= |s| && Chunks(s, span)[i] == FullChunk(s, span, i)
    ensures |Chunks(s, span)[i]| != span ==> |s| / span == i
  {
    ChunkAt(s, span, i);
    if |Chunks(s, span)[i]| == span {
      assert i * span + span <= |s|;
      DivExact(i + 1, span, i * span + span);
      DivMonotone(i * span + span, |s|, span);
    } else {
      DivExact(i, span, |s|);
    }
  }

  /** Once every chunk was full, the window holds exactly that many full chunks. */
  lemma ChunksEnd(s: seq<Reading>, span: nat, i: nat)
    requires span > 0 && i == |Chunks(s, span)| && i * span <= |s|
    ensures |s| / span == i
  {
    ChunkCount(s, span);
    var n := |s| + span - 1;
    assert n / span * span + n % span == n;
    MulLe(i, n / span, span);
    DivExact(i, span, |s|);
  }

  /** A sequence holding the fit of every full chunk, in order, is FittedChunks. */
  lemma FittedChunksFromParts(w: seq<Reading>, span: nat, data: seq<SlopeRow>)
    requires span > 0 && |data| == |w| / span
    requires forall j :: 0 <= j < |data| ==> data[j] == ChunkFit(FullChunk(w, span, j))
    ensures data == FittedChunks(w, span)
  {
    hide ChunkFit;
  }

  // ---------------------------------------------------------------------------------------
  // Arithmetic of the chunk positions

  /** Multiplying by a natural number keeps the order. */
  lemma MulLe(a: int, b: int, c: nat)
    requires a <= b
    ensures a * c <= b * c
  {
  }

  /** A full chunk k of n rows ends within the rows. */
  lemma ChunkBound(k: nat, span: nat, n: nat)
    requires span > 0 && k < n / span
    ensures k * span + span <= n
  {
    var q := n / span;
    assert q * span + n % span == n;
    MulLe(k + 1, q, span);
  }

  /** n / span is i when i * span <= n < (i + 1) * span. */
  lemma DivExact(i: nat, span: nat, n: nat)
    requires span > 0 && i * span <= n < i * span + span
    ensures n / span == i
  {
    var q := n / span;
    assert q * span + n % span == n;
    if q < i {
      MulLe(q + 1, i, span);
      assert false;
    }
    if q > i {
      MulLe(i + 1, q, span);
      assert false;
    }
  }

  lemma DivMonotone(a: nat, b: nat, span: nat)
    requires span > 0 && a <= b
    ensures a / span <= b / span
  {
    var qa, qb := a / span, b / span;
    assert qa * span + a % span == a;
    assert qb * span + b % span == b;
    if qa > qb {
      MulLe(qb + 1, qa, span);
      assert false;
    }
  }

  // ---------------------------------------------------------------------------------------
  // The window

  /** Filtering keeps table order: the window of a concatenation is the concatenated windows. */
  lemma {:induction false} WindowConcat(a: seq<Reading>, b: seq<Reading>, well: string, start: real, end: real)
    ensures Window(a + b, well, start, end) == Window(a, well, start, end) + Window(b, well, start, end)
  {
    if a == [] {
      assert a + b == b;
    } else {
      var head := if InWindow(a[0], well, start, end) then [a[0]] else [];
      assert (a + b)[0] == a[0];
      assert (a + b)[1..] == a[1..] + b;
      WindowConcat(a[1..], b, well, start, end);
      assert Window(a + b, well, start, end) == head + Window(a[1..] + b, well, start, end);
      assert Window(a, well, start, end) == head + Window(a[1..], well, start, end);
    }
  }

  // ---------------------------------------------------------------------------------------
  // The chunks

  /** There are ceil(n / span) chunks of n rows. */
  lemma {:induction false} ChunkCount(s: seq<Reading>, span: nat)
    requires span > 0
    ensures |Chunks(s, span)| == (|s| + span - 1) / span
    decreases |s|
  {
    if s == [] {
    } else if |s| <= span {
      DivExact(1, span, |s| + span - 1);
    } else {
      ChunkCount(s[span..], span);
      var n := |s| - span;
      var q := (n + span - 1) / span;
      assert n + span - 1 == q * span + (n + span - 1) % span;
      DivExact(q + 1, span, |s| + span - 1);
    }
  }

  /** Chunk k covers rows k * span up to (k + 1) * span, or to the end when that comes first. */
  lemma {:induction false} ChunkAt(s: seq<Reading>, span: nat, k: nat)
    requires span > 0 && k < |Chunks(s, span)|
    ensures k * span < |s|
    ensures Chunks(s, span)[k] == s[k * span .. Min(k * span + span, |s|)]
    decreases |s|
  {
    if k > 0 {
      assert |s| > span;
      ChunkAt(s[span..], span, k - 1);
      assert (k - 1) * span + span == k * span;
      assert s[span..][(k - 1) * span .. Min((k - 1) * span + span, |s| - span)]
          == s[k * span .. Min(k * span + span, |s|)];
    }
  }

  // ---------------------------------------------------------------------------------------
  // The selection

  /** On equal absolute slopes the earliest row is chosen; every earlier row is less steep. */
  lemma {:induction false} BestIsEarliest(rows: seq<SlopeRow>)
    requires rows != []
    ensures exists k :: (0 <= k < |rows| && Best(rows) == Some(rows[k])
      && forall j :: 0 <= j < k ==> Abs(rows[j].slope) < Abs(rows[k].slope))
  {
    if |rows| > 1 {
      var tail := rows[1..];
      BestIsEarliest(tail);
      var k :| 0 <= k < |tail| && Best(tail) == Some(tail[k])
        && forall j :: 0 <= j < k ==> Abs(tail[j].slope) < Abs(tail[k].slope);
      if Abs(tail[k].slope) > Abs(rows[0].slope) {
        assert Best(rows) == Some(rows[k + 1]);
        forall j | 0 <= j < k + 1
          ensures Abs(rows[j].slope) < Abs(rows[k + 1].slope)
        {
          if j > 0 {
            assert rows[j] == tail[j - 1];
          }
        }
      } else {
        assert Best(rows) == Some(rows[0]);
      }
    } else {
      assert Best(rows) == Some(rows[0]);
    }
  }

  /**
   * Whatever order a descending sort by absolute slope leaves equal rows in, its first row is
   * as steep as the row Best picks: taking the head of the sorted rows agrees with Best up to
   * the choice among ties.
   */
  lemma SortedHeadIsBest(rows: seq<SlopeRow>, sorted: seq<SlopeRow>)
    requires multiset(sorted) == multiset(rows) && sorted != []
    requires forall i, j :: 0 <= i < j < |sorted| ==> Abs(sorted[i].slope) >= Abs(sorted[j].slope)
    ensures sorted[0] in rows && Best(rows).Some?
    ensures Abs(sorted[0].slope) == Abs(Best(rows).value.slope)
  {
    assert sorted[0] in multiset(rows);
    assert |rows| == |multiset(rows)| == |multiset(sorted)| == |sorted|;
    var b := Best(rows).value;
    assert b in multiset(sorted);
    var k :| 0 <= k < |sorted| && sorted[k] == b;
    if k > 0 {
      assert Abs(sorted[0].slope) >= Abs(sorted[k].slope);
    }
  }

  /** Of fitted chunks with slopes 1, -5 and 3 mAbs/min, the one with slope -5 is selected. */
  lemma KnownSlopesExample()
    ensures var rows := [SlopeRow(0.0, 9.0, 1.0, Some(1.0), 0.1),
                         SlopeRow(10.0, 19.0, -5.0, Some(1.0), 0.2),
                         SlopeRow(20.0, 29.0, 3.0, Some(1.0), 0.1)];
      Best(rows) == Some(rows[1])
  {
  }

  // ---------------------------------------------------------------------------------------
  // Properties of the whole selection

  /** Nothing is selected exactly when the window holds fewer rows than one span. */
  lemma NoneIffShortWindow(w: seq<Reading>, span: nat)
    requires span > 0
    ensures Best(FittedChunks(w, span)).None? <==> |w| < span
  {
    hide ChunkFit;
    if |w| < span {
      DivExact(0, span, |w|);
    } else {
      DivMonotone(span, |w|, span);
      DivExact(1, span, span);
    }
  }

  /** The last |w| % span rows are never fitted. */
  lemma RemainderNeverFitted(w: seq<Reading>, span: nat)
    requires span > 0
    ensures FittedChunks(w, span) == FittedChunks(w[..|w| - |w| % span], span)
  {
    hide ChunkFit;
    var n := |w|;
    var cut := w[..n - n % span];
    assert n == (n / span) * span + n % span;
    DivExact(n / span, span, n - n % span);
    forall k | 0 <= k < n / span
      ensures FullChunk(w, span, k) == FullChunk(cut, span, k)
    {
      ChunkBound(k, span, n - n % span);
    }
  }

  /** The selected row is the fit of one full chunk of the window and is the steepest of them. */
  lemma SelectedIsSteepest(w: seq<Reading>, span: nat)
    requires span > 0 && Best(FittedChunks(w, span)).Some?
    ensures var rows, b := FittedChunks(w, span), Best(FittedChunks(w, span)).value;
      (exists k :: 0 <= k < |w| / span && b == ChunkFit(FullChunk(w, span, k)))
      && forall k :: 0 <= k < |w| / span ==> Abs(ChunkFit(FullChunk(w, span, k)).slope) <= Abs(b.slope)
  {
    hide ChunkFit;
    var rows, b := FittedChunks(w, span), Best(FittedChunks(w, span)).value;
    var k :| 0 <= k < |rows| && rows[k] == b;
    forall k | 0 <= k < |w| / span
      ensures Abs(ChunkFit(FullChunk(w, span, k)).slope) <= Abs(b.slope)
    {
      assert rows[k] in rows;
    }
  }

  /** The selected interval starts and ends inside the requested time window. */
  lemma SelectedInWindow(table: seq<Reading>, well: string, start: real, end: real, span: nat)
    requires span > 0
    requires Best(FittedChunks(Window(table, well, start, end), span)).Some?
    ensures var b := Best(FittedChunks(Window(table, well, start, end), span)).value;
      start <= b.start <= end && start <= b.end <= end
  {
    hide ChunkFit;
    var w := Window(table, well, start, end);
    var rows := FittedChunks(w, span);
    var k :| 0 <= k < |rows| && rows[k] == Best(rows).value;
    FullChunkWithin(w, span, k, well, start, end);
  }

  /** The fit of a full chunk of rows that all lie in the window starts and ends in it. */
  lemma FullChunkWithin(w: seq<Reading>, span: nat, k: nat, well: string, start: real, end: real)
    requires span > 0 && k < |w| / span
    requires forall r :: r in w ==> InWindow(r, well, start, end)
    ensures var row := ChunkFit(FullChunk(w, span, k));
      start <= row.start <= end && start <= row.end <= end
  {
    hide ChunkFit;
    var c := FullChunk(w, span, k);
    ChunkBound(k, span, |w|);
    assert c[0] in w && c[|c| - 1] in w;
    ChunkFitEnds(c);
  }

  /** A chunk's fit spans from its first time to its last. */
  lemma ChunkFitEnds(c: seq<Reading>)
    requires c != []
    ensures ChunkFit(c).start == c[0].timeS && ChunkFit(c).end == c[|c| - 1].timeS
  {
  }

  // ---------------------------------------------------------------------------------------
  // Properties of one chunk's fit

  /** The chunk's line is a least-squares line once its slope is taken back to abs/s. */
  lemma ChunkFitLeastSquares(chunk: seq<Reading>, b: real, c: real)
    requires chunk != []
    ensures var row := ChunkFit(chunk);
      SumRes(Times(chunk), Reads(chunk), row.slope / SlopeScale, row.yInt)
      <= SumRes(Times(chunk), Reads(chunk), b, c)
  {
    FitIsLeastSquares(Times(chunk), Reads(chunk), b, c);
  }

  lemma ChunkFitR2InUnitInterval(chunk: seq<Reading>)
    requires chunk != []
    ensures var row := ChunkFit(chunk); row.r2.Some? ==> 0.0 <= row.r2.value <= 1.0
  {
    FitR2InUnitInterval(Times(chunk), Reads(chunk));
  }

  /**
   * Reads on the exact line a * t + b0 over at least two distinct times give the slope a in
   * mAbs/min, the intercept b0 and, unless the line is flat, an R² of 1.
   */
  lemma ChunkFitOnLine(chunk: seq<Reading>, a: real, b0: real, i: nat, j: nat)
    requires chunk != [] && OnLine(Times(chunk), Reads(chunk), a, b0)
    requires i < |chunk| && j < |chunk| && chunk[i].timeS != chunk[j].timeS
    ensures var row := ChunkFit(chunk);
      row.slope == a * SlopeScale && row.yInt == b0
      && row.r2 == (if a != 0.0 then Some(1.0) else None)
  {
    DistinctValuesSpread(Times(chunk), i, j);
    FitOnLine(Times(chunk), Reads(chunk), a, b0);
  }

  /** A rise of 0.001 absorbance per second is reported as 60 mAbs/min. */
  lemma UnitConversionExample()
    ensures var chunk := [Reading(0.10, "A1", "1", 0.0, 25.0), Reading(0.16, "A1", "1", 60.0, 25.0)];
      ChunkFit(chunk).slope == 60.0
  {
    var chunk := [Reading(0.10, "A1", "1", 0.0, 25.0), Reading(0.16, "A1", "1", 60.0, 25.0)];
    assert OnLine(Times(chunk), Reads(chunk), 0.001, 0.10);
    ChunkFitOnLine(chunk, 0.001, 0.10, 0, 1);
  }
}
