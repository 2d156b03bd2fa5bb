/** The whole clean-up pass: load, keep the synoptic hours, number the storms,
    sort, check the time steps. The output table is what `to_csv` would write. */
module Pipeline {
  import opened Wrappers
  import opened DateTimes
  import opened Records
  import opened SynopticFilter
  import opened StormIds
  import opened Sorting
  import opened Validation

  /** What the run leaves: the final table, the skip notices and the warnings. */
  datatype Output = Output(tracks: seq<Track>, skipped: seq<SkipReason>, warnings: seq<Warning>)

  /** The two ways the run dies: `next(reader)` on a file with nothing after the
      header, and `df['ISO_TIME']` on the column-less frame that an empty list of
      records makes (a `KeyError`). By then the loader has printed a skip
      notice for every row, and `NoRecords` carries them. */
  datatype FatalError = NoDataRows | NoRecords(skipped: seq<SkipReason>)

  function Cleaned(rows: seq<Row>, toFloat: FloatParser): Result<Output, FatalError> {
    if rows == [] then Failure(NoDataRows)
    else
      var records := Kept(rows[1..], toFloat);
      if records == [] then Failure(NoRecords(Skips(rows[1..], toFloat)))
      else
        var tracks := SortTracks(AssignStormIds(Synoptic(records)));
        Success(Output(tracks, Skips(rows[1..], toFloat), Warnings(Keys(tracks))))
  }

  /** The script from the loader (line 37) to the warning loop (line 74). */
  method CleanTracks(rows: seq<Row>, toFloat: FloatParser) returns (r: Result<Output, FatalError>)
    ensures r == Cleaned(rows, toFloat)
  {
    var loaded := LoadRecords(rows, toFloat);
    if loaded.Failure? {
      return Failure(NoDataRows);
    }
    var records := loaded.value.records;
    if records == [] {
      return Failure(NoRecords(loaded.value.skipped));
    }
    var filtered := Synoptic(records);
    var numbered := AssignStormIds(filtered);
    var tracks := SortTracks(numbered);
    var warnings := Validate(Keys(tracks));
    return Success(Output(tracks, loaded.value.skipped, warnings));
  }

  // ---------------------------------------------------------------------------
  // End-to-end properties

  /** The run fails exactly when the file has no units row or no row loads;
      in the second case every later row has printed its skip notice, in order. */
  lemma CleanedFails(rows: seq<Row>, toFloat: FloatParser)
    ensures Cleaned(rows, toFloat) == Failure(NoDataRows) <==> rows == []
    ensures Cleaned(rows, toFloat).Failure? && Cleaned(rows, toFloat).error.NoRecords?
        <==> rows != [] && Kept(rows[1..], toFloat) == []
    ensures Cleaned(rows, toFloat).Failure? && Cleaned(rows, toFloat).error.NoRecords?
        ==> (Cleaned(rows, toFloat).error.skipped == Skips(rows[1..], toFloat)
             && |Cleaned(rows, toFloat).error.skipped| == |rows| - 1)
  {
    if rows != [] {
      KeptCount(rows[1..], toFloat);
    }
  }

  /** The filtered records of a successful run. */
  function Filtered(rows: seq<Row>, toFloat: FloatParser): seq<Record>
    requires rows != []
  {
    Synoptic(Kept(rows[1..], toFloat))
  }

  lemma TracksAreNumbered(rs: seq<Record>, t: Track)
    requires t in SortTracks(AssignStormIds(rs))
    ensures t.rec in rs && t.stormId == StormNumber(Sids(rs), t.rec.sid)
  {
    assert t in multiset(AssignStormIds(rs));
    var k := IndexOf(AssignStormIds(rs), t);
  }

  /** Every row of the final table is a loaded record at a synoptic hour, its
      storm number lies in 1..k for the k distinct storms, and rows share a
      storm number exactly when they share an identifier. */
  lemma CleanedTracks(rows: seq<Row>, toFloat: FloatParser, s: Track, t: Track)
    requires Cleaned(rows, toFloat).Success?
    requires s in Cleaned(rows, toFloat).value.tracks && t in Cleaned(rows, toFloat).value.tracks
    ensures t.rec in Kept(rows[1..], toFloat) && AtSynopticHour(t.rec)
    ensures 1 <= t.stormId <= |Sids(Filtered(rows, toFloat))|
    ensures s.stormId == t.stormId <==> s.rec.sid == t.rec.sid
  {
    var rs := Filtered(rows, toFloat);
    TracksAreNumbered(rs, s);
    TracksAreNumbered(rs, t);
    var p :| 0 <= p < |rs| && rs[p] == s.rec;
    var q :| 0 <= q < |rs| && rs[q] == t.rec;
    AssignedIds(rs, p, q);
  }

  /** The final table holds every loaded record at a synoptic hour as often as
      it was loaded, and nothing else. */
  lemma CleanedKeepsAll(rows: seq<Row>, toFloat: FloatParser)
    requires Cleaned(rows, toFloat).Success?
    ensures multiset(Map(RecordOf, Cleaned(rows, toFloat).value.tracks)) == multiset(Filtered(rows, toFloat))
  {
    var rs := Filtered(rows, toFloat);
    var numbered := AssignStormIds(rs);
    MapMultiset(RecordOf, SortTracks(numbered), numbered);
    assert Map(RecordOf, numbered) == rs;
  }

  function RecordOf(t: Track): Record {
    t.rec
  }

  /** Every storm number 1..k appears in the final table. */
  lemma CleanedIdsDense(rows: seq<Row>, toFloat: FloatParser, n: nat)
    requires Cleaned(rows, toFloat).Success? && 1 <= n <= |Sids(Filtered(rows, toFloat))|
    ensures exists t :: t in Cleaned(rows, toFloat).value.tracks && t.stormId == n
  {
    var rs := Filtered(rows, toFloat);
    var numbered := AssignStormIds(rs);
    AssignedIdsDense(rs, n);
    var k :| 0 <= k < |rs| && numbered[k].stormId == n;
    assert numbered[k] in multiset(SortTracks(numbered));
  }

  /** The final table is in (storm number, timestamp) order, so each warning
      is about two adjacent rows of one storm: it names the later row's index
      and the difference between their instants, which is not six hours; and
      every such pair of adjacent rows has its warning. */
  lemma CleanedWarnings(rows: seq<Row>, toFloat: FloatParser, w: Warning)
    requires Cleaned(rows, toFloat).Success?
    ensures var ks := Keys(Cleaned(rows, toFloat).value.tracks);
      w in Cleaned(rows, toFloat).value.warnings <==>
        && 0 < w.index < |ks|
        && ks[w.index - 1].stormId == ks[w.index].stormId
        && ks[w.index].time - ks[w.index - 1].time != SixHours
        && w == Warning(ks[w.index].stormId, w.index, ks[w.index].time - ks[w.index - 1].time)
  {
    var out := Cleaned(rows, toFloat).value;
    assert out.warnings == Warnings(Keys(out.tracks)) && Sorted(out.tracks);
    SortedWarnings(Keys(out.tracks), w);
  }

  /** Whichever order the sort leaves rows with equal keys in, the warnings
      are the same. */
  lemma CleanedWarningsAnyTieOrder(rows: seq<Row>, toFloat: FloatParser, other: seq<Track>)
    requires Cleaned(rows, toFloat).Success?
    requires Sorted(other) && multiset(other) == multiset(AssignStormIds(Filtered(rows, toFloat)))
    ensures Warnings(Keys(other)) == Cleaned(rows, toFloat).value.warnings
  {
    SortedAgree(other, Cleaned(rows, toFloat).value.tracks);
  }

  /** A data row that fails to load changes neither the table nor the warnings:
      in particular no other storm's number moves. */
  lemma CleanedIgnoresFailedRow(a: seq<Row>, row: Row, b: seq<Row>, toFloat: FloatParser)
    requires a != [] && ExtractRow(row, toFloat).Failure?
    ensures Cleaned(a + [row] + b, toFloat).Success? == Cleaned(a + b, toFloat).Success?
    ensures Cleaned(a + [row] + b, toFloat).Success? ==>
      Cleaned(a + [row] + b, toFloat).value.tracks == Cleaned(a + b, toFloat).value.tracks
      && Cleaned(a + [row] + b, toFloat).value.warnings == Cleaned(a + b, toFloat).value.warnings
  {
    assert (a + [row] + b)[1..] == a[1..] + [row] + b;
    assert (a + b)[1..] == a[1..] + b;
    KeptDropsFailure(a[1..], row, b, toFloat);
  }

  // ---------------------------------------------------------------------------
  // A worked example: one storm observed at 00, 06 and 18 o'clock

  /** The warnings of three rows of storm 1 at t0, t0 + 6 h and t0 + 18 h
      (00, 06 and 18 o'clock of one day): one, for the third row and its
      12-hour gap. */
  lemma OneStormWarnings(t0: int)
    ensures Warnings([SortKey(1, t0), SortKey(1, t0 + SixHours), SortKey(1, t0 + 3 * SixHours)])
         == [Warning(1, 2, 2 * SixHours)]
  {
    var ks := [SortKey(1, t0), SortKey(1, t0 + SixHours), SortKey(1, t0 + 3 * SixHours)];
    assert MaxId(ks) == 1 by {
      assert MaxId(ks[..2]) == 1 by {
        assert ks[..2][..1] == ks[..1];
        assert MaxId(ks[..1]) == 1 by {
          assert ks[..1][..0] == [];
        }
      }
    }
    assert Diff(ks, 0) == None;
    assert LastOf(ks, 1, 1) == Some(0) && Diff(ks, 1) == Some(SixHours);
    assert LastOf(ks, 1, 2) == Some(1) && Diff(ks, 2) == Some(2 * SixHours);
    assert GroupWarnings(ks, 1, 0) == [];
    assert GroupWarnings(ks, 0, 1) == [];
    assert GroupWarnings(ks, 1, 1) == GroupWarnings(ks, 1, 0) + [];
    assert GroupWarnings(ks, 1, 1) == [];
    assert GroupWarnings(ks, 0, 2) == [] && GroupWarnings(ks, 1, 2) == [];
    assert GroupWarnings(ks, 0, 3) == [];
    assert GroupWarnings(ks, 1, 3) == [Warning(1, 2, 2 * SixHours)];
    assert WarningsUpTo(ks, 1) == [];
  }

  /** A table of a single storm: every row gets number 1. */
  lemma SingleStormNumbered(rs: seq<Record>)
    requires rs != [] && forall k :: 0 <= k < |rs| ==> rs[k].sid == rs[0].sid
    ensures forall k :: 0 <= k < |rs| ==> AssignStormIds(rs)[k].stormId == 1
  {
    var sid := rs[0].sid;
    assert rs[0].sid in Sids(rs);
    assert Sids(rs) == {sid};
    LessIrreflexive(sid);
    assert Below({sid}, sid) == {};
  }
}
