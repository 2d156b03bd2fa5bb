/** Storm numbering: `groupby('SID').ngroup() + 1`. The groups are numbered
    in sorted order of their identifiers (the `sort=True` default), so a
    storm's number is one more than the count of distinct identifiers below its own. */
module StormIds {
  import opened Records

  // ---------------------------------------------------------------------------
  // Python's ordering of `str` values

  /** `a < b` on Python strings: code point by code point, a proper prefix first. */
  predicate Less(a: string, b: string)
    decreases |a|
  {
    if a == [] then b != []
    else if b == [] then false
    else if a[0] != b[0] then a[0] < b[0]
    else Less(a[1..], b[1..])
  }

  lemma {:induction false} LessIrreflexive(a: string)
    ensures !Less(a, a)
    decreases |a|
  {
    if a != [] {
      LessIrreflexive(a[1..]);
    }
  }

  lemma {:induction false} LessTransitive(a: string, b: string, c: string)
    requires Less(a, b) && Less(b, c)
    ensures Less(a, c)
    decreases |a|
  {
    if a != [] && a[0] == b[0] && b[0] == c[0] {
      LessTransitive(a[1..], b[1..], c[1..]);
    }
  }

  lemma {:induction false} LessTotal(a: string, b: string)
    ensures a == b || Less(a, b) || Less(b, a)
    decreases |a|
  {
    if a != [] && b != [] && a[0] == b[0] {
      LessTotal(a[1..], b[1..]);
      if a[1..] == b[1..] {
        assert a == [a[0]] + a[1..] && b == [b[0]] + b[1..];
      }
    }
  }

  lemma LessAsymmetric(a: string, b: string)
    requires Less(a, b)
    ensures !Less(b, a)
  {
    if Less(b, a) {
      LessTransitive(a, b, a);
      LessIrreflexive(a);
    }
  }

  // ---------------------------------------------------------------------------
  // Numbering

  /** The distinct storm identifiers of a table. */
  function Sids(rs: seq<Record>): set<string> {
    set k | 0 <= k < |rs| :: rs[k].sid
  }

  /** The identifiers of `sids` sorting before `sid`. */
  function Below(sids: set<string>, sid: string): set<string> {
    set s | s in sids && Less(s, sid)
  }

  /** The group number `ngroup() + 1` gives the identifier `sid` among `sids`. */
  function StormNumber(sids: set<string>, sid: string): nat {
    1 + |Below(sids, sid)|
  }

  /** A record with the `storm_id` column added. */
  datatype Track = Track(rec: Record, stormId: nat)

  /** `df['storm_id'] = df.groupby('SID').ngroup() + 1`: every record keeps its
      place and its fields and gains the number of its storm. */
  function AssignStormIds(rs: seq<Record>): (ts: seq<Track>)
    ensures |ts| == |rs|
    ensures forall k :: 0 <= k < |rs| ==> ts[k].rec == rs[k]
  {
    seq(|rs|, k requires 0 <= k < |rs| => Track(rs[k], StormNumber(Sids(rs), rs[k].sid)))
  }

  // ---------------------------------------------------------------------------
  // Properties of the numbering

  lemma SubsetCard<T>(a: set<T>, b: set<T>)
    requires a <= b
    ensures |a| <= |b|
    ensures |a| == |b| ==> a == b
  {
    assert b == a + (b - a);
  }

  /** An identifier that sorts before another gets a smaller number. */
  lemma NumberIncreasing(sids: set<string>, s: string, t: string)
    requires s in sids && Less(s, t)
    ensures StormNumber(sids, s) < StormNumber(sids, t)
  {
    forall x | x in Below(sids, s) ensures x in Below(sids, t) {
      LessTransitive(x, s, t);
    }
    LessIrreflexive(s);
    assert s !in Below(sids, s);
    SubsetCard(Below(sids, s) + {s}, Below(sids, t));
  }

  /** Numbers run from 1 to the count of distinct identifiers. */
  lemma NumberRange(sids: set<string>, s: string)
    requires s in sids
    ensures 1 <= StormNumber(sids, s) <= |sids|
  {
    LessIrreflexive(s);
    SubsetCard(Below(sids, s), sids - {s});
  }

  /** Two identifiers share a number exactly when they are the same, and the
      numbers follow the identifiers' sort order. */
  lemma NumberOrder(sids: set<string>, s: string, t: string)
    requires s in sids && t in sids
    ensures StormNumber(sids, s) == StormNumber(sids, t) <==> s == t
    ensures StormNumber(sids, s) < StormNumber(sids, t) <==> Less(s, t)
  {
    LessTotal(s, t);
    if Less(s, t) {
      NumberIncreasing(sids, s, t);
    } else if Less(t, s) {
      NumberIncreasing(sids, t, s);
    }
  }

  /** The numbers of the identifiers in `part`. */
  function Numbers(sids: set<string>, part: set<string>): set<nat> {
    set s | s in part :: StormNumber(sids, s)
  }

  lemma {:induction false} NumbersCard(sids: set<string>, part: set<string>)
    requires part <= sids
    ensures |Numbers(sids, part)| == |part|
    decreases |part|
  {
    if part != {} {
      var x :| x in part;
      var rest := part - {x};
      NumbersCard(sids, rest);
      forall s | s in rest ensures StormNumber(sids, s) != StormNumber(sids, x) {
        NumberOrder(sids, s, x);
      }
      assert Numbers(sids, part) == Numbers(sids, rest) + {StormNumber(sids, x)};
    }
  }

  /** The numbers 1..k. */
  function Interval(k: nat): (r: set<nat>)
    ensures forall n :: n in r <==> 1 <= n <= k
  {
    if k == 0 then {} else Interval(k - 1) + {k}
  }

  lemma {:induction false} IntervalCard(k: nat)
    ensures |Interval(k)| == k
  {
    if k > 0 {
      IntervalCard(k - 1);
    }
  }

  /** Every number from 1 to the count of distinct identifiers is used. */
  lemma NumbersDense(sids: set<string>)
    ensures Numbers(sids, sids) == Interval(|sids|)
  {
    forall s | s in sids ensures StormNumber(sids, s) in Interval(|sids|) {
      NumberRange(sids, s);
    }
    NumbersCard(sids, sids);
    IntervalCard(|sids|);
    SubsetCard(Numbers(sids, sids), Interval(|sids|));
  }

  /** Over a table: each record's number lies in 1..k for k distinct storms,
      records share a number exactly when they share an identifier, and the
      numbers follow the identifiers' sort order. */
  lemma AssignedIds(rs: seq<Record>, j: nat, k: nat)
    requires j < |rs| && k < |rs|
    ensures 1 <= AssignStormIds(rs)[k].stormId <= |Sids(rs)|
    ensures AssignStormIds(rs)[j].stormId == AssignStormIds(rs)[k].stormId <==> rs[j].sid == rs[k].sid
    ensures AssignStormIds(rs)[j].stormId < AssignStormIds(rs)[k].stormId <==> Less(rs[j].sid, rs[k].sid)
  {
    var sids := Sids(rs);
    assert rs[j].sid in sids && rs[k].sid in sids;
    NumberRange(sids, rs[k].sid);
    NumberOrder(sids, rs[j].sid, rs[k].sid);
  }

  /** Every number 1..k is some record's storm number. */
  lemma AssignedIdsDense(rs: seq<Record>, n: nat)
    requires 1 <= n <= |Sids(rs)|
    ensures exists k :: 0 <= k < |rs| && AssignStormIds(rs)[k].stormId == n
  {
    var sids := Sids(rs);
    NumbersDense(sids);
    assert n in Interval(|sids|);
    var s :| s in sids && StormNumber(sids, s) == n;
    var k :| 0 <= k < |rs| && rs[k].sid == s;
    assert AssignStormIds(rs)[k].stormId == n;
  }
}
