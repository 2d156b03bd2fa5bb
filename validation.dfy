/** The time-step check: storm by storm, every difference between consecutive
    timestamps other than six hours is reported with the storm number, the
    row's index in the sorted table and the difference. The table itself is
    not changed, and only its `storm_id` and `ISO_TIME` columns are read: the
    check is stated over the rows' sort keys (storm number, instant). */
module Validation {
  import opened Wrappers
  import opened Sorting

  /** `datetime.timedelta(hours=6)`, in seconds. */
  const SixHours: int := 6 * 3600

  /** One `[Warning]` line: the storm number, the index of the later row and
      the difference to the row before it in the same storm, in seconds. */
  datatype Warning = Warning(stormId: nat, index: nat, delta: int)

  /** Row `j` is the row of the same storm right before row `i`. */
  predicate Consecutive(ks: seq<SortKey>, j: int, i: int) {
    && 0 <= j < i < |ks|
    && ks[j].stormId == ks[i].stormId
    && forall m :: j < m < i ==> ks[m].stormId != ks[i].stormId
  }

  /** The last row of storm `g` before position `n`. */
  function LastOf(ks: seq<SortKey>, g: nat, n: nat): (r: Option<nat>)
    requires n <= |ks|
    ensures r.Some? ==> r.value < n && ks[r.value].stormId == g
    ensures r.Some? ==> forall m :: r.value < m < n ==> ks[m].stormId != g
    ensures r.None? ==> forall m :: 0 <= m < n ==> ks[m].stormId != g
  {
    if n == 0 then None
    else if ks[n - 1].stormId == g then Some(n - 1)
    else LastOf(ks, g, n - 1)
  }

  /** `group['ISO_TIME'].diff()` at row `i`: the time since the previous row of
      its storm, or nothing for the first row of a storm (what `dropna` removes). */
  function Diff(ks: seq<SortKey>, i: nat): (r: Option<int>)
    requires i < |ks|
  {
    match LastOf(ks, ks[i].stormId, i)
    case None => None
    case Some(j) => Some(ks[i].time - ks[j].time)
  }

  /** The warnings for storm `g` among the rows before position `n`. */
  function GroupWarnings(ks: seq<SortKey>, g: nat, n: nat): seq<Warning>
    requires n <= |ks|
  {
    if n == 0 then []
    else
      var i := n - 1;
      var d := Diff(ks, i);
      GroupWarnings(ks, g, i)
        + if ks[i].stormId == g && d.Some? && d.value != SixHours then [Warning(g, i, d.value)] else []
  }

  /** The largest storm number of the table (0 for an empty one). */
  function MaxId(ks: seq<SortKey>): (r: nat)
    ensures forall k :: 0 <= k < |ks| ==> ks[k].stormId <= r
  {
    if ks == [] then 0
    else
      var n := |ks| - 1;
      var m := MaxId(ks[..n]);
      assert forall k :: 0 <= k < n ==> ks[k] == ks[..n][k];
      if ks[n].stormId > m then ks[n].stormId else m
  }

  /** The warnings of the groups 0..g-1 in ascending order; a number no row
      carries is an empty group and adds nothing. */
  function WarningsUpTo(ks: seq<SortKey>, g: nat): seq<Warning> {
    if g == 0 then [] else WarningsUpTo(ks, g - 1) + GroupWarnings(ks, g - 1, |ks|)
  }

  /** Everything the loop over `df.groupby('storm_id')` prints. */
  function Warnings(ks: seq<SortKey>): seq<Warning> {
    WarningsUpTo(ks, MaxId(ks) + 1)
  }

  /** The nested loop: the groups in ascending storm number, and within a group
      its rows in table order, each compared with the group's row before it. */
  method Validate(ks: seq<SortKey>) returns (warnings: seq<Warning>)
    ensures warnings == Warnings(ks)
  {
    warnings := [];
    for g := 0 to MaxId(ks) + 1
      invariant warnings == WarningsUpTo(ks, g)
    {
      var last: Option<nat> := None;
      var irregular: seq<Warning> := [];
      for i := 0 to |ks|
        invariant last == LastOf(ks, g, i)
        invariant irregular == GroupWarnings(ks, g, i)
      {
        if ks[i].stormId == g {
          if last.Some? {
            var delta := ks[i].time - ks[last.value].time;
            if delta != SixHours {
              irregular := irregular + [Warning(g, i, delta)];
            }
          }
          last := Some(i);
        }
      }
      warnings := warnings + irregular;
    }
  }

  // ---------------------------------------------------------------------------
  // Properties of the warnings

  lemma {:induction false} LastOfIs(ks: seq<SortKey>, g: nat, n: nat, j: nat)
    requires j < n <= |ks| && ks[j].stormId == g
    requires forall m :: j < m < n ==> ks[m].stormId != g
    ensures LastOf(ks, g, n) == Some(j)
  {
    if j < n - 1 {
      LastOfIs(ks, g, n - 1, j);
    }
  }

  /** The previous row `LastOf` finds is the one right before in the same storm. */
  lemma LastOfConsecutive(ks: seq<SortKey>, j: int, i: nat)
    requires i < |ks|
    ensures LastOf(ks, ks[i].stormId, i) == Some(j) <==> Consecutive(ks, j, i)
  {
    if Consecutive(ks, j, i) {
      LastOfIs(ks, ks[i].stormId, i, j);
    }
  }

  /** The warning row `i` earns, if any. */
  predicate WarnedAt(ks: seq<SortKey>, i: nat, w: Warning) {
    && i < |ks|
    && Diff(ks, i).Some? && Diff(ks, i).value != SixHours
    && w == Warning(ks[i].stormId, i, Diff(ks, i).value)
  }

  lemma {:induction false} GroupWarningsMembers(ks: seq<SortKey>, g: nat, n: nat, w: Warning)
    requires n <= |ks|
    ensures w in GroupWarnings(ks, g, n) <==> w.index < n && ks[w.index].stormId == g && WarnedAt(ks, w.index, w)
  {
    if n > 0 {
      GroupWarningsMembers(ks, g, n - 1, w);
    }
  }

  lemma {:induction false} WarningsUpToMembers(ks: seq<SortKey>, g: nat, w: Warning)
    ensures w in WarningsUpTo(ks, g) <==> w.index < |ks| && ks[w.index].stormId < g && WarnedAt(ks, w.index, w)
  {
    if g > 0 {
      WarningsUpToMembers(ks, g - 1, w);
      GroupWarningsMembers(ks, g - 1, |ks|, w);
    }
  }

  /** Exactly the irregular steps are reported: a warning names a row, its
      storm and a difference other than six hours to the storm's row right
      before it, and every such pair of rows gets one. */
  lemma WarningsExact(ks: seq<SortKey>, w: Warning)
    ensures w in Warnings(ks) <==> w.index < |ks| && exists j ::
      Consecutive(ks, j, w.index) && ks[w.index].time - ks[j].time != SixHours
      && w == Warning(ks[w.index].stormId, w.index, ks[w.index].time - ks[j].time)
  {
    WarningsUpToMembers(ks, MaxId(ks) + 1, w);
    var i := w.index;
    if i < |ks| {
      match LastOf(ks, ks[i].stormId, i)
      case None =>
        forall j ensures !Consecutive(ks, j, i) {
          LastOfConsecutive(ks, j, i);
        }
      case Some(j) =>
        LastOfConsecutive(ks, j, i);
        forall j' | Consecutive(ks, j', i) ensures j' == j {
          LastOfConsecutive(ks, j', i);
        }
    }
  }

  /** `x` is reported before `y`: a lower storm number, or the same storm and
      an earlier row. */
  predicate Precedes(x: Warning, y: Warning) {
    x.stormId < y.stormId || (x.stormId == y.stormId && x.index < y.index)
  }

  predicate InOrder(ws: seq<Warning>) {
    forall p, q :: 0 <= p < q < |ws| ==> Precedes(ws[p], ws[q])
  }

  lemma AppendInOrder(a: seq<Warning>, b: seq<Warning>)
    requires InOrder(a) && InOrder(b)
    requires forall p, q :: 0 <= p < |a| && 0 <= q < |b| ==> Precedes(a[p], b[q])
    ensures InOrder(a + b)
  {
  }

  lemma {:induction false} GroupWarningsOrdered(ks: seq<SortKey>, g: nat, n: nat)
    requires n <= |ks|
    ensures forall p :: 0 <= p < |GroupWarnings(ks, g, n)| ==>
      GroupWarnings(ks, g, n)[p].stormId == g && GroupWarnings(ks, g, n)[p].index < n
    ensures InOrder(GroupWarnings(ks, g, n))
  {
    if n > 0 {
      GroupWarningsOrdered(ks, g, n - 1);
    }
  }

  lemma {:induction false} WarningsUpToOrdered(ks: seq<SortKey>, g: nat)
    ensures forall p :: 0 <= p < |WarningsUpTo(ks, g)| ==> WarningsUpTo(ks, g)[p].stormId < g
    ensures InOrder(WarningsUpTo(ks, g))
  {
    if g > 0 {
      WarningsUpToOrdered(ks, g - 1);
      GroupWarningsOrdered(ks, g - 1, |ks|);
      AppendInOrder(WarningsUpTo(ks, g - 1), GroupWarnings(ks, g - 1, |ks|));
    }
  }

  /** The warnings come storm by storm in ascending number and, within a storm,
      in table order; so no irregular step is reported twice. */
  lemma WarningsOrdered(ks: seq<SortKey>)
    ensures InOrder(Warnings(ks))
  {
    WarningsUpToOrdered(ks, MaxId(ks) + 1);
  }

  /** The first row of a storm is never the subject of a warning. */
  lemma FirstRowNotWarned(ks: seq<SortKey>, i: nat)
    requires i < |ks| && forall m :: 0 <= m < i ==> ks[m].stormId != ks[i].stormId
    ensures forall w :: w in Warnings(ks) ==> w.index != i
  {
    forall w | w in Warnings(ks) ensures w.index != i {
      WarningsExact(ks, w);
      var j :| Consecutive(ks, j, w.index);
      assert ks[j].stormId == ks[w.index].stormId && j < w.index;
    }
  }

  /** A storm whose consecutive rows are all six hours apart draws no warning. */
  lemma RegularStormSilent(ks: seq<SortKey>, g: nat)
    requires forall j, i :: Consecutive(ks, j, i) && ks[i].stormId == g ==> ks[i].time - ks[j].time == SixHours
    ensures forall w :: w in Warnings(ks) ==> w.stormId != g
  {
    forall w | w in Warnings(ks) ensures w.stormId != g {
      WarningsExact(ks, w);
    }
  }

  /** In a table sorted by storm number a storm's rows are adjacent, so the row
      right before another in its storm is simply the row before it. */
  lemma SortedConsecutive(ks: seq<SortKey>, j: nat, i: nat)
    requires KeysSorted(ks) && i < |ks|
    ensures Consecutive(ks, j, i) <==> j + 1 == i && ks[j].stormId == ks[i].stormId
  {
    if j + 1 < i {
      assert KeyLe(ks[j], ks[i - 1]) && KeyLe(ks[i - 1], ks[i]);
    }
  }

  /** Over a sorted table the warnings are those of adjacent rows of one storm
      whose timestamps are not six hours apart, one per such pair. */
  lemma SortedWarnings(ks: seq<SortKey>, w: Warning)
    requires KeysSorted(ks)
    ensures w in Warnings(ks) <==>
      && 0 < w.index < |ks|
      && ks[w.index - 1].stormId == ks[w.index].stormId
      && ks[w.index].time - ks[w.index - 1].time != SixHours
      && w == Warning(ks[w.index].stormId, w.index, ks[w.index].time - ks[w.index - 1].time)
  {
    WarningsExact(ks, w);
    if w.index < |ks| {
      forall j: int | 0 <= j
        ensures Consecutive(ks, j, w.index) <==> j + 1 == w.index && ks[j].stormId == ks[w.index].stormId
      {
        SortedConsecutive(ks, j, w.index);
      }
    }
  }
}
