/** `df.sort_values(by=['storm_id', 'ISO_TIME']).reset_index(drop=True)`:
    the records ordered by storm number, then chronologically within a storm,
    and renumbered 0..n-1 (their positions in the sequence). */
module Sorting {
  import opened DateTimes
  import opened Records
  import opened StormIds

  /** The two sort columns of a record: its storm number and its timestamp
      as an instant, which orders exactly as the timestamps do. */
  datatype SortKey = SortKey(stormId: nat, time: int)

  /** Ascending on the first column, ties broken by the second. */
  predicate KeyLe(a: SortKey, b: SortKey) {
    a.stormId < b.stormId || (a.stormId == b.stormId && a.time <= b.time)
  }

  // ---------------------------------------------------------------------------
  // Insertion sort on any key

  predicate SortedBy<T>(key: T -> SortKey, s: seq<T>) {
    forall j, k :: 0 <= j < k < |s| ==> KeyLe(key(s[j]), key(s[k]))
  }

  /** `x` placed before the first element whose key is larger than its own. */
  function InsertBy<T>(key: T -> SortKey, x: T, s: seq<T>): (r: seq<T>)
    ensures multiset(r) == multiset(s) + multiset{x}
    ensures |r| == |s| + 1
  {
    if s == [] then [x]
    else if !KeyLe(key(s[0]), key(x)) then [x] + s
    else
      assert s == [s[0]] + s[1..];
      [s[0]] + InsertBy(key, x, s[1..])
  }

  lemma {:induction false} InsertBySorted<T>(key: T -> SortKey, x: T, s: seq<T>)
    requires SortedBy(key, s)
    ensures SortedBy(key, InsertBy(key, x, s))
    decreases |s|
  {
    if s == [] {
    } else if !KeyLe(key(s[0]), key(x)) {
      assert forall k :: 0 <= k < |s| ==> KeyLe(key(s[0]), key(s[k]));
    } else {
      var rest := InsertBy(key, x, s[1..]);
      InsertBySorted(key, x, s[1..]);
      forall k | 0 <= k < |rest| ensures KeyLe(key(s[0]), key(rest[k])) {
        var y := rest[k];
        assert y in multiset(rest);
        if y != x {
          var q := IndexOf(s[1..], y);
          assert y == s[q + 1];
        }
      }
      var r := [s[0]] + rest;
      assert InsertBy(key, x, s) == r;
      assert forall k :: 0 < k < |r| ==> r[k] == rest[k - 1];
    }
  }

  function SortBy<T>(key: T -> SortKey, s: seq<T>): (r: seq<T>)
    ensures SortedBy(key, r)
    ensures multiset(r) == multiset(s)
    ensures |r| == |s|
  {
    if s == [] then []
    else
      var n := |s| - 1;
      assert s == s[..n] + [s[n]];
      var front := SortBy(key, s[..n]);
      InsertBySorted(key, s[n], front);
      InsertBy(key, s[n], front)
  }

  // ---------------------------------------------------------------------------
  // The table sort

  function KeyOf(t: Track): SortKey {
    SortKey(t.stormId, Instant(t.rec.isoTime))
  }

  predicate Sorted(ts: seq<Track>) {
    SortedBy(KeyOf, ts)
  }

  /** The sort keys of a table, row by row. */
  function Keys(ts: seq<Track>): seq<SortKey> {
    Map(KeyOf, ts)
  }

  /** The sorted table. Which of several rows with equal keys comes first is
      not part of the model; only the order of the keys and the multiset of
      rows are. */
  function SortTracks(ts: seq<Track>): (r: seq<Track>)
    ensures Sorted(r)
    ensures multiset(r) == multiset(ts)
    ensures |r| == |ts|
  {
    SortBy(KeyOf, ts)
  }

  // ---------------------------------------------------------------------------
  // Properties of the sorted table

  /** In a sorted table each storm's rows are contiguous, and within one storm
      the timestamps never go back in time. */
  lemma SortedStorms(ts: seq<Track>, i: nat, j: nat, k: nat)
    requires Sorted(ts) && i <= j <= k < |ts| && ts[i].stormId == ts[k].stormId
    ensures ts[j].stormId == ts[i].stormId
    ensures !Before(ts[j].rec.isoTime, ts[i].rec.isoTime)
  {
    if i < j {
      assert KeyLe(KeyOf(ts[i]), KeyOf(ts[j])) && KeyLe(KeyOf(ts[j]), KeyOf(ts[k]));
      InstantOrder(ts[j].rec.isoTime, ts[i].rec.isoTime);
    }
  }

  // ---------------------------------------------------------------------------
  // Sequence facts

  /** `f` applied to every element. */
  function Map<T, U>(f: T -> U, s: seq<T>): (r: seq<U>)
    ensures |r| == |s|
    ensures forall k :: 0 <= k < |s| ==> r[k] == f(s[k])
  {
    seq(|s|, k requires 0 <= k < |s| => f(s[k]))
  }

  /** Taking out the element at `p` takes one copy of it out of the multiset. */
  lemma RemoveAt<T>(s: seq<T>, p: nat)
    requires p < |s|
    ensures multiset(s) == multiset{s[p]} + multiset(s[..p] + s[p + 1..])
  {
    assert s == s[..p] + [s[p]] + s[p + 1..];
  }

  lemma Head<T>(s: seq<T>)
    requires s != []
    ensures multiset(s) == multiset{s[0]} + multiset(s[1..])
  {
    assert s == [s[0]] + s[1..];
  }

  lemma Cancel<T>(x: T, a: multiset<T>, b: multiset<T>)
    requires multiset{x} + a == multiset{x} + b
    ensures a == b
  {
    forall y ensures a[y] == b[y] {
      assert (multiset{x} + a)[y] == (multiset{x} + b)[y];
    }
  }

  lemma IndexOf<T>(s: seq<T>, x: T) returns (p: nat)
    requires x in multiset(s)
    ensures p < |s| && s[p] == x
  {
    assert x in s;
    p :| 0 <= p < |s| && s[p] == x;
  }

  lemma MapRemoveAt<T, U>(f: T -> U, s: seq<T>, p: nat)
    requires p < |s|
    ensures multiset(Map(f, s)) == multiset{f(s[p])} + multiset(Map(f, s[..p] + s[p + 1..]))
  {
    var m := Map(f, s);
    RemoveAt(m, p);
    assert m[..p] + m[p + 1..] == Map(f, s[..p] + s[p + 1..]);
  }

  lemma MapHead<T, U>(f: T -> U, s: seq<T>)
    requires s != []
    ensures multiset(Map(f, s)) == multiset{f(s[0])} + multiset(Map(f, s[1..]))
  {
    var m := Map(f, s);
    Head(m);
    assert m[1..] == Map(f, s[1..]);
  }

  /** Mapping respects multisets: rearranged inputs give rearranged outputs. */
  lemma {:induction false} MapMultiset<T, U>(f: T -> U, a: seq<T>, b: seq<T>)
    requires multiset(a) == multiset(b)
    ensures multiset(Map(f, a)) == multiset(Map(f, b))
    decreases |a|
  {
    if a == [] {
      assert |multiset(b)| == 0;
    } else {
      var p := IndexOf(b, a[0]);
      var rest := b[..p] + b[p + 1..];
      Head(a);
      RemoveAt(b, p);
      Cancel(a[0], multiset(a[1..]), multiset(rest));
      MapMultiset(f, a[1..], rest);
      MapHead(f, a);
      MapRemoveAt(f, b, p);
    }
  }
  lemma KeysMultiset(a: seq<Track>, b: seq<Track>)
    requires multiset(a) == multiset(b)
    ensures multiset(Keys(a)) == multiset(Keys(b))
  {
    MapMultiset(KeyOf, a, b);
  }

  predicate KeysSorted(ks: seq<SortKey>) {
    forall j, k :: 0 <= j < k < |ks| ==> KeyLe(ks[j], ks[k])
  }

  lemma SortedFirst(ks: seq<SortKey>, x: SortKey)
    requires KeysSorted(ks) && x in multiset(ks)
    ensures KeyLe(ks[0], x)
  {
    var p := IndexOf(ks, x);
  }

  lemma HeadsEqual(a: seq<SortKey>, b: seq<SortKey>)
    requires KeysSorted(a) && KeysSorted(b) && multiset(a) == multiset(b) && a != []
    ensures b != [] && a[0] == b[0]
  {
    assert |multiset(b)| > 0;
    SortedFirst(b, a[0]);
    SortedFirst(a, b[0]);
  }

  lemma SmallestFirst(a: seq<SortKey>, b: seq<SortKey>)
    requires KeysSorted(a) && KeysSorted(b) && multiset(a) == multiset(b) && a != []
    ensures b != [] && a[0] == b[0]
    ensures multiset(a[1..]) == multiset(b[1..])
  {
    HeadsEqual(a, b);
    Head(a);
    Head(b);
    Cancel(a[0], multiset(a[1..]), multiset(b[1..]));
  }

  lemma {:induction false} SortedKeysUnique(a: seq<SortKey>, b: seq<SortKey>)
    requires KeysSorted(a) && KeysSorted(b) && multiset(a) == multiset(b)
    ensures a == b
    decreases |a|
  {
    if a == [] {
      assert |multiset(b)| == 0;
    } else {
      SmallestFirst(a, b);
      SortedKeysUnique(a[1..], b[1..]);
      assert a == [a[0]] + a[1..] && b == [b[0]] + b[1..];
    }
  }

  /** Any two orderings of the same rows by (storm_id, ISO_TIME) agree on both
      sort columns at every position: however ties fall, every position holds
      the same storm number and timestamp. */
  lemma SortedAgree(a: seq<Track>, b: seq<Track>)
    requires Sorted(a) && Sorted(b) && multiset(a) == multiset(b)
    ensures Keys(a) == Keys(b)
  {
    KeysMultiset(a, b);
    SortedKeysUnique(Keys(a), Keys(b));
  }
}
