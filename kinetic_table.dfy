/**
 * Building the kinetic-read table from a plate-reader export.
 *
 * The export has already been lexed: the model's input holds the shared temperature
 * tokens and, for each well element, its `name` and `wellid` attributes and its
 * `rawdata` and `timedata` token sequences, each of which may be absent. The table
 * has one row per read of each well, wells in document order, and the temperature
 * at a read's index is shared by every well.
 */
module KineticTable {
  import opened Wrappers

  /** One row of the table: a read of one well at one time point. */
  datatype Reading = Reading(read: real, wellName: string, wellId: string, timeS: real, temp: real)

  /** A `well` element of the export; None marks an attribute or child that is missing. */
  datatype WellNode = WellNode(
    name: Option<string>,
    wellId: Option<string>,
    rawData: Option<seq<real>>,
    timeData: Option<seq<real>>)

  /** The export: the `temperaturedata` tokens, if present, and every `well` element. */
  datatype ExportDoc = ExportDoc(temperatureData: Option<seq<real>>, wells: seq<WellNode>)

  /** Why no table was built; `well` is the position of the offending well element. */
  datatype ParseError =
    | MissingTemperatureData
    | MissingAttribute(well: nat, attribute: string)
    | MissingElement(well: nat, element: string)
    | LengthMismatch(well: nat, column: string, rows: nat, values: nat)
    | NoWells

  /** All the frames, one after another. */
  function Flatten<T>(frames: seq<seq<T>>): seq<T>
  {
    if frames == [] then [] else Flatten(frames[..|frames| - 1]) + frames[|frames| - 1]
  }

  /** The reads a well contributes: the length of its raw data, 0 when there is none. */
  function RowCount(w: WellNode): nat
  {
    if w.rawData.Some? then |w.rawData.value| else 0
  }

  /** The number of rows the wells contribute together. */
  function TotalRows(wells: seq<WellNode>): nat
  {
    if wells == [] then 0 else TotalRows(wells[..|wells| - 1]) + RowCount(wells[|wells| - 1])
  }

  /** Where the rows of well j start in the table. */
  function Offset(wells: seq<WellNode>, j: nat): nat
    requires j <= |wells|
  {
    TotalRows(wells[..j])
  }

  /** The well has everything its frame needs, and its columns line up with the temperatures. */
  predicate WellComplete(w: WellNode, temps: seq<real>)
  {
    w.name.Some? && w.wellId.Some? && w.rawData.Some? && w.timeData.Some?
    && |w.timeData.value| == |w.rawData.value| && |temps| == |w.rawData.value|
  }

  /**
   * The frame of one well, the well at position `index`. The checks come in the order the
   * frame is built: the two attributes, the two child elements, then the time column and the
   * temperature column, each of which must have one value per read.
   */
  function WellFrame(w: WellNode, index: nat, temps: seq<real>): (r: Result<seq<Reading>, ParseError>)
    ensures r.Ok? <==> WellComplete(w, temps)
    ensures r.Ok? ==> |r.value| == RowCount(w)
  {
    if w.name.None? then Err(MissingAttribute(index, "name"))
    else if w.wellId.None? then Err(MissingAttribute(index, "wellid"))
    else if w.rawData.None? then Err(MissingElement(index, "rawdata"))
    else if w.timeData.None? then Err(MissingElement(index, "timedata"))
    else
      var raw, time := w.rawData.value, w.timeData.value;
      if |time| != |raw| then Err(LengthMismatch(index, "time_s", |raw|, |time|))
      else if |temps| != |raw| then Err(LengthMismatch(index, "temp", |raw|, |temps|))
      else Ok(seq(|raw|, i requires 0 <= i < |raw| =>
                Reading(raw[i], w.name.value, w.wellId.value, time[i], temps[i])))
  }

  /** The frames of the wells, concatenated in well order; the first failing well's error. */
  function Frames(temps: seq<real>, wells: seq<WellNode>): Result<seq<Reading>, ParseError>
  {
    if wells == [] then Ok([])
    else
      match Frames(temps, wells[..|wells| - 1])
      case Err(e) => Err(e)
      case Ok(rows) =>
        match WellFrame(wells[|wells| - 1], |wells| - 1, temps)
        case Err(e) => Err(e)
        case Ok(frame) => Ok(rows + frame)
  }

  /** The table of an export, or the error that stops it. */
  function Parse(doc: ExportDoc): Result<seq<Reading>, ParseError>
  {
    if doc.temperatureData.None? then Err(MissingTemperatureData)
    else
      match Frames(doc.temperatureData.value, doc.wells)
      case Err(e) => Err(e)
      case Ok(rows) => if doc.wells == [] then Err(NoWells) else Ok(rows)
  }

  /**
   * Builds the table well by well, appending each well's frame to a list of frames and
   * concatenating the list at the end, as the parser does.
   */
  method ParseXml(doc: ExportDoc) returns (r: Result<seq<Reading>, ParseError>)
    ensures r == Parse(doc)
  {
    if doc.temperatureData.None? {
      return Err(MissingTemperatureData);
    }
    var temps := doc.temperatureData.value;
    var frames: seq<seq<Reading>> := [];
    var i := 0;
    while i < |doc.wells|
      invariant 0 <= i <= |doc.wells|
      invariant |frames| == i
      invariant Frames(temps, doc.wells[..i]) == Ok(Flatten(frames))
    {
      var w := doc.wells[i];
      assert doc.wells[..i + 1][..i] == doc.wells[..i];
      if w.name.None? {
        FramesStopAt(temps, doc.wells, i);
        return Err(MissingAttribute(i, "name"));
      }
      if w.wellId.None? {
        FramesStopAt(temps, doc.wells, i);
        return Err(MissingAttribute(i, "wellid"));
      }
      if w.rawData.None? {
        FramesStopAt(temps, doc.wells, i);
        return Err(MissingElement(i, "rawdata"));
      }
      if w.timeData.None? {
        FramesStopAt(temps, doc.wells, i);
        return Err(MissingElement(i, "timedata"));
      }
      var raw, time := w.rawData.value, w.timeData.value;
      if |time| != |raw| {
        FramesStopAt(temps, doc.wells, i);
        return Err(LengthMismatch(i, "time_s", |raw|, |time|));
      }
      if |temps| != |raw| {
        FramesStopAt(temps, doc.wells, i);
        return Err(LengthMismatch(i, "temp", |raw|, |temps|));
      }
      var frame := seq(|raw|, k requires 0 <= k < |raw| =>
                     Reading(raw[k], w.name.value, w.wellId.value, time[k], temps[k]));
      assert (frames + [frame])[..i] == frames;
      frames := frames + [frame];
      i := i + 1;
    }
    assert doc.wells[..i] == doc.wells;
    if frames == [] {
      return Err(NoWells);
    }
    return Ok(Flatten(frames));
  }

  // ---------------------------------------------------------------------------------------
  // Properties of the frames

  /** Once well i fails after complete wells, the frames of all the wells fail with its error. */
  lemma {:induction false} FramesStopAt(temps: seq<real>, wells: seq<WellNode>, i: nat)
    requires i < |wells| && Frames(temps, wells[..i]).Ok? && WellFrame(wells[i], i, temps).Err?
    ensures Frames(temps, wells) == Err(WellFrame(wells[i], i, temps).error)
  {
    var init := wells[..|wells| - 1];
    if i < |wells| - 1 {
      assert init[..i] == wells[..i] && init[i] == wells[i];
      FramesStopAt(temps, init, i);
    } else {
      assert init == wells[..i];
    }
  }

  /** The wells build a table exactly when every one of them is complete. */
  lemma {:induction false} FramesOkIff(temps: seq<real>, wells: seq<WellNode>)
    ensures Frames(temps, wells).Ok? <==> forall j :: 0 <= j < |wells| ==> WellComplete(wells[j], temps)
  {
    if wells != [] {
      var init := wells[..|wells| - 1];
      FramesOkIff(temps, init);
      assert forall j :: 0 <= j < |init| ==> init[j] == wells[j];
    }
  }

  /**
   * A failure is the error of the first incomplete well: every earlier well was complete
   * and no later well is looked at.
   */
  lemma {:induction false} FramesFirstError(temps: seq<real>, wells: seq<WellNode>)
    requires Frames(temps, wells).Err?
    ensures exists j :: (0 <= j < |wells|
      && WellFrame(wells[j], j, temps) == Err(Frames(temps, wells).error)
      && forall k :: 0 <= k < j ==> WellComplete(wells[k], temps))
  {
    var init := wells[..|wells| - 1];
    assert forall k :: 0 <= k < |init| ==> init[k] == wells[k];
    if Frames(temps, init).Err? {
      FramesFirstError(temps, init);
      var j :| 0 <= j < |init|
        && WellFrame(init[j], j, temps) == Err(Frames(temps, init).error)
        && forall k :: 0 <= k < j ==> WellComplete(init[k], temps);
      assert WellFrame(wells[j], j, temps) == Err(Frames(temps, wells).error);
    } else {
      FramesOkIff(temps, init);
      var j := |wells| - 1;
      assert WellFrame(wells[j], j, temps) == Err(Frames(temps, wells).error);
    }
  }

  /** The table has one row per read of every well. */
  lemma {:induction false} FramesCount(temps: seq<real>, wells: seq<WellNode>)
    requires Frames(temps, wells).Ok?
    ensures |Frames(temps, wells).value| == TotalRows(wells)
  {
    if wells != [] {
      FramesCount(temps, wells[..|wells| - 1]);
    }
  }

  /** The rows of the earlier wells fit before the start of a later well's rows. */
  lemma {:induction false} OffsetMonotone(wells: seq<WellNode>, j: nat, k: nat)
    requires j <= k <= |wells|
    ensures Offset(wells, j) + (if j < k then RowCount(wells[j]) else 0) <= Offset(wells, k)
  {
    if j < k {
      var pre := wells[..k];
      assert pre[..|pre| - 1] == wells[..k - 1];
      assert wells[..k - 1][..j] == wells[..j];
      if j < k - 1 {
        OffsetMonotone(wells[..k - 1], j, k - 1);
        assert wells[..k - 1][j] == wells[j];
        assert wells[..k - 1][..k - 1] == wells[..k - 1];
      } else {
        assert wells[..k - 1] == wells[..j];
      }
    }
  }

  /**
   * Read i of well j sits at Offset(wells, j) + i and carries that well's read, name, id and
   * time at index i, and the shared temperature at index i.
   */
  lemma {:induction false} FramesRowAt(temps: seq<real>, wells: seq<WellNode>, j: nat, i: nat)
    requires Frames(temps, wells).Ok? && j < |wells| && i < RowCount(wells[j])
    ensures var w, rows := wells[j], Frames(temps, wells).value;
      WellComplete(w, temps)
      && Offset(wells, j) + i < |rows|
      && rows[Offset(wells, j) + i]
         == Reading(w.rawData.value[i], w.name.value, w.wellId.value, w.timeData.value[i], temps[i])
  {
    FramesOkIff(temps, wells);
    FramesCount(temps, wells);
    OffsetMonotone(wells, j, |wells|);
    assert wells[..|wells|] == wells;
    var init := wells[..|wells| - 1];
    var last := |wells| - 1;
    assert Frames(temps, wells).value
        == Frames(temps, init).value + WellFrame(wells[last], last, temps).value;
    FramesCount(temps, init);
    if j < last {
      assert init[j] == wells[j];
      assert init[..j] == wells[..j];
      FramesRowAt(temps, init, j, i);
    } else {
      assert init == wells[..j];
    }
  }

  /** A row index lies in the block of at most one well. */
  lemma BlocksDisjoint(wells: seq<WellNode>, j: nat, k: nat, p: int)
    requires j < |wells| && k < |wells|
    requires Offset(wells, j) <= p < Offset(wells, j) + RowCount(wells[j])
    requires Offset(wells, k) <= p < Offset(wells, k) + RowCount(wells[k])
    ensures j == k
  {
    if j < k {
      OffsetMonotone(wells, j, k);
      assert false;
    } else if k < j {
      OffsetMonotone(wells, k, j);
      assert false;
    }
  }

  /** Every row of the table is a read of exactly one well: the wells' blocks partition it. */
  lemma {:induction false} FramesRowOrigin(temps: seq<real>, wells: seq<WellNode>, p: nat)
    requires Frames(temps, wells).Ok? && p < |Frames(temps, wells).value|
    ensures exists j ::
              0 <= j < |wells| && Offset(wells, j) <= p < Offset(wells, j) + RowCount(wells[j])
              && forall k :: 0 <= k < |wells| && Offset(wells, k) <= p < Offset(wells, k) + RowCount(wells[k]) ==> k == j
  {
    var init := wells[..|wells| - 1];
    var last := |wells| - 1;
    FramesCount(temps, init);
    FramesCount(temps, wells);
    var j: nat;
    if p < |Frames(temps, init).value| {
      FramesRowOrigin(temps, init, p);
      j :| 0 <= j < |init| && Offset(init, j) <= p < Offset(init, j) + RowCount(init[j]);
      assert init[j] == wells[j] && init[..j] == wells[..j];
    } else {
      j := last;
      assert init == wells[..last];
    }
    forall k | 0 <= k < |wells| && Offset(wells, k) <= p < Offset(wells, k) + RowCount(wells[k])
      ensures k == j
    {
      BlocksDisjoint(wells, j, k, p);
    }
  }

  // ---------------------------------------------------------------------------------------
  // Properties of the parse

  /** An export parses exactly when it has temperatures and at least one well, all complete. */
  lemma ParseOkIff(doc: ExportDoc)
    ensures Parse(doc).Ok? <==>
      doc.temperatureData.Some? && doc.wells != []
      && forall j :: 0 <= j < |doc.wells| ==> WellComplete(doc.wells[j], doc.temperatureData.value)
  {
    if doc.temperatureData.Some? {
      FramesOkIff(doc.temperatureData.value, doc.wells);
    }
  }

  /** A well whose time or temperature column does not line up with its reads stops the parse. */
  lemma LengthMismatchFails(doc: ExportDoc, j: nat)
    requires j < |doc.wells| && doc.temperatureData.Some?
    requires var w := doc.wells[j];
      w.rawData.Some? && w.timeData.Some?
      && (|w.timeData.value| != |w.rawData.value|
          || |doc.temperatureData.value| != |w.rawData.value|)
    ensures Parse(doc).Err?
  {
    ParseOkIff(doc);
  }

  /** The table has exactly as many rows as the wells have reads. */
  lemma ParseRowCount(doc: ExportDoc)
    requires Parse(doc).Ok?
    ensures |Parse(doc).value| == TotalRows(doc.wells)
  {
    FramesCount(doc.temperatureData.value, doc.wells);
  }

  /**
   * Row Offset(wells, j) + i of the table is read i of well j, labelled with that well's name
   * and id unchanged and stamped with the shared temperature at index i.
   */
  lemma ParseRowAt(doc: ExportDoc, j: nat, i: nat)
    requires Parse(doc).Ok? && j < |doc.wells| && i < RowCount(doc.wells[j])
    ensures doc.temperatureData.Some?
    ensures var w, rows, temps := doc.wells[j], Parse(doc).value, doc.temperatureData.value;
      WellComplete(w, temps)
      && Offset(doc.wells, j) + i < |rows|
      && rows[Offset(doc.wells, j) + i]
         == Reading(w.rawData.value[i], w.name.value, w.wellId.value, w.timeData.value[i], temps[i])
  {
    ParseOkIff(doc);
    FramesRowAt(doc.temperatureData.value, doc.wells, j, i);
  }

  /** Reads at the same index of two wells carry the same temperature. */
  lemma SharedTemperature(doc: ExportDoc, j: nat, k: nat, i: nat)
    requires Parse(doc).Ok? && j < |doc.wells| && k < |doc.wells|
    requires i < RowCount(doc.wells[j]) && i < RowCount(doc.wells[k])
    ensures var rows := Parse(doc).value;
      doc.temperatureData.Some? && i < |doc.temperatureData.value|
      && Offset(doc.wells, j) + i < |rows| && Offset(doc.wells, k) + i < |rows|
      && rows[Offset(doc.wells, j) + i].temp == rows[Offset(doc.wells, k) + i].temp
         == doc.temperatureData.value[i]
  {
    ParseRowAt(doc, j, i);
    ParseRowAt(doc, k, i);
  }
}
