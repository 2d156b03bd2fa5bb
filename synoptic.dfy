/** The 6-hourly filter: only observations at the synoptic hours 00, 06, 12
    and 18 are kept. */
module SynopticFilter {
  import opened DateTimes
  import opened Records

  const SynopticHours: set<int> := {0, 6, 12, 18}

  /** Only the hour is looked at; minutes and seconds play no part. */
  predicate AtSynopticHour(r: Record) {
    r.isoTime.hour in SynopticHours
  }

  /** The records at a synoptic hour, in their original order. */
  function Synoptic(rs: seq<Record>): (out: seq<Record>)
    ensures |out| <= |rs|
    ensures forall r :: r in out <==> r in rs && AtSynopticHour(r)
  {
    if rs == [] then []
    else
      var rest := Synoptic(rs[..|rs| - 1]);
      var r := rs[|rs| - 1];
      assert forall q :: q in rs <==> q in rs[..|rs| - 1] || q == r;
      if AtSynopticHour(r) then rest + [r] else rest
  }

  lemma {:induction false} SynopticAppend(a: seq<Record>, b: seq<Record>)
    ensures Synoptic(a + b) == Synoptic(a) + Synoptic(b)
    decreases |b|
  {
    if b == [] {
      assert a + b == a;
    } else {
      var c, r := b[..|b| - 1], b[|b| - 1];
      var mine := if AtSynopticHour(r) then [r] else [];
      assert (a + b)[..|a + b| - 1] == a + c && (a + b)[|a + b| - 1] == r;
      assert Synoptic(a + b) == Synoptic(a + c) + mine;
      SynopticAppend(a, c);
      assert Synoptic(b) == Synoptic(c) + mine;
    }
  }

  /** Records at a synoptic hour are kept unaltered, all others dropped. */
  lemma SynopticSingle(r: Record)
    ensures Synoptic([r]) == if AtSynopticHour(r) then [r] else []
  {
    assert [r][..0] == [];
  }

  /** A table already at synoptic hours passes through unchanged. */
  lemma {:induction false} SynopticKeepsAll(rs: seq<Record>)
    requires forall k :: 0 <= k < |rs| ==> AtSynopticHour(rs[k])
    ensures Synoptic(rs) == rs
  {
    if rs != [] {
      SynopticKeepsAll(rs[..|rs| - 1]);
    }
  }

  /** Filtering twice is filtering once. */
  lemma SynopticIdempotent(rs: seq<Record>)
    ensures Synoptic(Synoptic(rs)) == Synoptic(rs)
  {
    var out := Synoptic(rs);
    forall k | 0 <= k < |out| ensures AtSynopticHour(out[k]) {
      assert out[k] in out;
    }
    SynopticKeepsAll(out);
  }

  /** How many copies of each record survive: all of them at a synoptic hour,
      none otherwise. */
  lemma {:induction false} SynopticCounts(rs: seq<Record>, r: Record)
    ensures multiset(Synoptic(rs))[r] == if AtSynopticHour(r) then multiset(rs)[r] else 0
  {
    if rs != [] {
      var front := rs[..|rs| - 1];
      assert rs == front + [rs[|rs| - 1]];
      SynopticCounts(front, r);
    }
  }
}
