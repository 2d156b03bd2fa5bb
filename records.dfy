/** The record loader: each CSV row after the units row becomes an observation
    record, or is skipped with the reason the extraction failed. */
module Records {
  import opened Wrappers
  import opened DateTimes
  import opened DateParsing

  /** A CSV row as `csv.DictReader` yields it: column name to cell text. */
  type Row = map<string, string>

  /** `float()` on a cell: the converted value, or None where it raises. */
  type FloatParser = string -> Option<real>

  /** One observation of a storm: the seven columns the loader keeps,
      the timestamp parsed and the coordinates converted. */
  datatype Record = Record(
    sid: string,
    isoTime: ValidDateTime,
    lat: real,
    lon: real,
    stat: string,
    wind: string,
    slp: string)

  /** Why a row was skipped: a column the row lacks (`KeyError`), a timestamp in
      none of the known formats, or a coordinate `float()` refuses. */
  datatype SkipReason =
    | MissingColumn(column: string)
    | BadTime(error: DateError)
    | BadNumber(column: string, text: string)

  /** `float(row[column])`: a missing column, then an unconvertible cell. */
  function Coordinate(row: Row, column: string, toFloat: FloatParser): (r: Result<real, SkipReason>)
    ensures r.Failure? <==> column !in row || toFloat(row[column]).None?
    ensures r.Success? ==> r.value == toFloat(row[column]).value
  {
    if column !in row then Failure(MissingColumn(column))
    else match toFloat(row[column])
      case None => Failure(BadNumber(column, row[column]))
      case Some(x) => Success(x)
  }

  /** `row[column]` copied as it is. */
  function Cell(row: Row, column: string): (r: Result<string, SkipReason>)
    ensures r.Failure? <==> column !in row
    ensures r.Success? ==> r.value == row[column]
  {
    if column in row then Success(row[column]) else Failure(MissingColumn(column))
  }

  /** The timestamp of a row, parsed by `parse_date`. */
  function Timestamp(row: Row): (r: Result<ValidDateTime, SkipReason>)
    ensures r.Failure? <==> "ISO_TIME" !in row || ParsedDate(row["ISO_TIME"]).Failure?
    ensures r.Success? ==> r.value == ParsedDate(row["ISO_TIME"]).value
  {
    if "ISO_TIME" !in row then Failure(MissingColumn("ISO_TIME"))
    else match ParsedDate(row["ISO_TIME"])
      case Failure(e) => Failure(BadTime(e))
      case Success(t) => ParsedDateValid(row["ISO_TIME"]); Success(t)
  }

  /** The dictionary literal of the loop body, its entries evaluated in the
      order they are written: the first failing entry decides the reason. */
  function ExtractRow(row: Row, toFloat: FloatParser): Result<Record, SkipReason> {
    match Cell(row, "SID")
    case Failure(e) => Failure(e)
    case Success(sid) =>
      match Timestamp(row)
      case Failure(e) => Failure(e)
      case Success(t) =>
        match Coordinate(row, "LAT", toFloat)
        case Failure(e) => Failure(e)
        case Success(lat) =>
          match Coordinate(row, "LON", toFloat)
          case Failure(e) => Failure(e)
          case Success(lon) =>
            match Cell(row, "USA_STATUS")
            case Failure(e) => Failure(e)
            case Success(stat) =>
              match Cell(row, "USA_WIND")
              case Failure(e) => Failure(e)
              case Success(wind) =>
                match Cell(row, "USA_PRES")
                case Failure(e) => Failure(e)
                case Success(slp) => Success(Record(sid, t, lat, lon, stat, wind, slp))
  }

  /** What a row needs to be kept. */
  predicate Loadable(row: Row, toFloat: FloatParser) {
    && "SID" in row && "ISO_TIME" in row && "LAT" in row && "LON" in row
    && "USA_STATUS" in row && "USA_WIND" in row && "USA_PRES" in row
    && ParsedDate(row["ISO_TIME"]).Success?
    && toFloat(row["LAT"]).Some? && toFloat(row["LON"]).Some?
  }

  /** A row is kept exactly when it has the seven columns, its timestamp parses
      and both coordinates convert; the kept record holds the parsed time, the
      converted coordinates and the other four cells verbatim. */
  lemma ExtractRowKeeps(row: Row, toFloat: FloatParser)
    ensures ExtractRow(row, toFloat).Success? <==> Loadable(row, toFloat)
    ensures Loadable(row, toFloat) ==> ExtractRow(row, toFloat).value == Record(
      row["SID"], ParsedDate(row["ISO_TIME"]).value,
      toFloat(row["LAT"]).value, toFloat(row["LON"]).value,
      row["USA_STATUS"], row["USA_WIND"], row["USA_PRES"])
  {
  }

  /** A row whose timestamp is in no known format is skipped for that reason
      unless it already lacks the identifier column. */
  lemma ExtractRowBadTime(row: Row, toFloat: FloatParser)
    requires "SID" in row && "ISO_TIME" in row && ParsedDate(row["ISO_TIME"]).Failure?
    ensures ExtractRow(row, toFloat) == Failure(BadTime(NoKnownFormat(row["ISO_TIME"])))
  {
    ParsedDateFailsIff(row["ISO_TIME"]);
  }

  // ---------------------------------------------------------------------------
  // The loop over the data rows

  /** The records made from `rows`, in order. */
  function Kept(rows: seq<Row>, toFloat: FloatParser): seq<Record> {
    if rows == [] then []
    else
      var x := ExtractRow(rows[|rows| - 1], toFloat);
      Kept(rows[..|rows| - 1], toFloat) + (if x.Success? then [x.value] else [])
  }

  /** The reasons the other rows of `rows` were skipped, in order. */
  function Skips(rows: seq<Row>, toFloat: FloatParser): seq<SkipReason> {
    if rows == [] then []
    else
      var x := ExtractRow(rows[|rows| - 1], toFloat);
      Skips(rows[..|rows| - 1], toFloat) + (if x.Failure? then [x.error] else [])
  }

  /** The kept records and skip notices of a load. */
  datatype Loaded = Loaded(records: seq<Record>, skipped: seq<SkipReason>)

  /** `next(reader)` on a file with no row after the header raises `StopIteration`. */
  datatype LoadError = NoUnitsRow

  /** The row-by-row extraction with `rows.append` and the skip notice; the
      first row (the units row) is discarded unread. */
  method LoadRecords(rows: seq<Row>, toFloat: FloatParser) returns (r: Result<Loaded, LoadError>)
    ensures r.Failure? <==> rows == []
    ensures r.Success? ==> r.value == Loaded(Kept(rows[1..], toFloat), Skips(rows[1..], toFloat))
  {
    if rows == [] {
      return Failure(NoUnitsRow);
    }
    var records: seq<Record> := [];
    var skipped: seq<SkipReason> := [];
    for i := 1 to |rows|
      invariant records == Kept(rows[1..i], toFloat)
      invariant skipped == Skips(rows[1..i], toFloat)
    {
      assert rows[1..i + 1][..i - 1] == rows[1..i];
      var x := ExtractRow(rows[i], toFloat);
      match x
      case Success(rec) =>
        records := records + [rec];
      case Failure(e) =>
        skipped := skipped + [e];
    }
    assert rows[1..|rows|] == rows[1..];
    return Success(Loaded(records, skipped));
  }

  // ---------------------------------------------------------------------------
  // Properties of the loader

  lemma {:induction false} KeptAppend(a: seq<Row>, b: seq<Row>, toFloat: FloatParser)
    ensures Kept(a + b, toFloat) == Kept(a, toFloat) + Kept(b, toFloat)
    decreases |b|
  {
    if b == [] {
      assert a + b == a;
    } else {
      var c, row := b[..|b| - 1], b[|b| - 1];
      var x := ExtractRow(row, toFloat);
      var mine := if x.Success? then [x.value] else [];
      assert (a + b)[..|a + b| - 1] == a + c && (a + b)[|a + b| - 1] == row;
      assert Kept(a + b, toFloat) == Kept(a + c, toFloat) + mine;
      KeptAppend(a, c, toFloat);
      assert Kept(b, toFloat) == Kept(c, toFloat) + mine;
    }
  }

  lemma {:induction false} SkipsAppend(a: seq<Row>, b: seq<Row>, toFloat: FloatParser)
    ensures Skips(a + b, toFloat) == Skips(a, toFloat) + Skips(b, toFloat)
    decreases |b|
  {
    if b == [] {
      assert a + b == a;
    } else {
      var c, row := b[..|b| - 1], b[|b| - 1];
      var x := ExtractRow(row, toFloat);
      var mine := if x.Failure? then [x.error] else [];
      assert (a + b)[..|a + b| - 1] == a + c && (a + b)[|a + b| - 1] == row;
      assert Skips(a + b, toFloat) == Skips(a + c, toFloat) + mine;
      SkipsAppend(a, c, toFloat);
      assert Skips(b, toFloat) == Skips(c, toFloat) + mine;
    }
  }

  lemma KeptSingle(row: Row, toFloat: FloatParser)
    ensures Kept([row], toFloat) == if ExtractRow(row, toFloat).Success? then [ExtractRow(row, toFloat).value] else []
    ensures Skips([row], toFloat) == if ExtractRow(row, toFloat).Failure? then [ExtractRow(row, toFloat).error] else []
  {
    assert [row][..0] == [];
  }

  /** Every row is accounted for, as a record or as a skip notice. */
  lemma {:induction false} KeptCount(rows: seq<Row>, toFloat: FloatParser)
    ensures |Kept(rows, toFloat)| + |Skips(rows, toFloat)| == |rows|
  {
    if rows != [] {
      KeptCount(rows[..|rows| - 1], toFloat);
    }
  }

  /** A failing row is dropped without changing what comes of the others. */
  lemma KeptDropsFailure(a: seq<Row>, row: Row, b: seq<Row>, toFloat: FloatParser)
    requires ExtractRow(row, toFloat).Failure?
    ensures Kept(a + [row] + b, toFloat) == Kept(a + b, toFloat)
  {
    KeptAppend(a + [row], b, toFloat);
    KeptAppend(a, [row], toFloat);
    KeptAppend(a, b, toFloat);
    KeptSingle(row, toFloat);
  }

  /** A kept row contributes its own record, between those of the rows around it. */
  lemma KeptKeepsSuccess(a: seq<Row>, row: Row, b: seq<Row>, toFloat: FloatParser)
    requires ExtractRow(row, toFloat).Success?
    ensures Kept(a + [row] + b, toFloat) == Kept(a, toFloat) + [ExtractRow(row, toFloat).value] + Kept(b, toFloat)
  {
    KeptAppend(a + [row], b, toFloat);
    KeptAppend(a, [row], toFloat);
    KeptSingle(row, toFloat);
  }

  /** The positions of the elements of `s` that satisfy `keep`, in increasing order. */
  function Positions<T>(keep: T -> bool, s: seq<T>): (ps: seq<nat>)
    ensures forall j :: 0 <= j < |ps| ==> ps[j] < |s| && keep(s[ps[j]])
    ensures forall j, l :: 0 <= j < l < |ps| ==> ps[j] < ps[l]
    ensures forall i :: 0 <= i < |s| && keep(s[i]) ==> i in ps
  {
    if s == [] then []
    else
      var n := |s| - 1;
      var front := s[..n];
      var ps := Positions(keep, front);
      assert forall j :: 0 <= j < |ps| ==> s[ps[j]] == front[ps[j]];
      assert forall i :: 0 <= i < n ==> s[i] == front[i];
      if keep(s[n]) then ps + [n] else ps
  }

  /** The positions of the rows that are kept, in increasing order. */
  function KeptPositions(rows: seq<Row>, toFloat: FloatParser): (ps: seq<nat>)
    ensures forall j :: 0 <= j < |ps| ==> ps[j] < |rows| && ExtractRow(rows[ps[j]], toFloat).Success?
    ensures forall j, l :: 0 <= j < l < |ps| ==> ps[j] < ps[l]
    ensures forall i :: 0 <= i < |rows| && ExtractRow(rows[i], toFloat).Success? ==> i in ps
  {
    Positions(row => ExtractRow(row, toFloat).Success?, rows)
  }

  /** The loader's output is exactly the records of the kept rows, in input order. */
  lemma {:induction false} KeptInOrder(rows: seq<Row>, toFloat: FloatParser)
    ensures |Kept(rows, toFloat)| == |KeptPositions(rows, toFloat)|
    ensures forall j :: 0 <= j < |Kept(rows, toFloat)| ==>
      Kept(rows, toFloat)[j] == ExtractRow(rows[KeptPositions(rows, toFloat)[j]], toFloat).value
  {
    if rows != [] {
      var n := |rows| - 1;
      KeptInOrder(rows[..n], toFloat);
    }
  }
}
