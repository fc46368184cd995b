/** The retention decision of the per-claim loop body
    (shooter/__main__.py:55-84): the snapshots a claim owns, their order, the
    creation rule and the oldest-first deletion prefix. */
module Retention {
  import opened Types
  import opened Policy
  import opened Manifests

  // ---------------------------------------------------------------- ownership

  /** A snapshot belongs to a claim when its spec source names the claim and
      it carries a non-empty source label (whatever the label's value). */
  predicate Owns(claimName: string, s: Snap) {
    s.sourceClaim == claimName && SourceLabel in s.labels && s.labels[SourceLabel] != ""
  }

  /** The `filter` over a namespace's snapshots. */
  function Owned(claimName: string, snaps: seq<Snap>): (r: seq<Snap>)
    ensures forall s :: s in r <==> s in snaps && Owns(claimName, s)
    ensures AllParsed(snaps) ==> AllParsed(r)
  {
    if snaps == [] then []
    else
      var rest := Owned(claimName, snaps[1..]);
      assert forall s :: s in snaps <==> s == snaps[0] || s in snaps[1..];
      if Owns(claimName, snaps[0]) then [snaps[0]] + rest else rest
  }

  /** The filter keeps every owned snapshot as often as the listing holds it,
      and nothing else. */
  lemma {:induction false} OwnedCount(claimName: string, snaps: seq<Snap>)
    ensures forall s :: multiset(Owned(claimName, snaps))[s] == if Owns(claimName, s) then multiset(snaps)[s] else 0
  {
    if snaps != [] {
      OwnedCount(claimName, snaps[1..]);
      assert snaps == [snaps[0]] + snaps[1..];
    }
  }

  /** The filter keeps the order of what it keeps: filtering a concatenation
      is concatenating the filtered parts. */
  lemma {:induction false} OwnedAppend(claimName: string, a: seq<Snap>, b: seq<Snap>)
    ensures Owned(claimName, a + b) == Owned(claimName, a) + Owned(claimName, b)
  {
    if a != [] {
      var head := if Owns(claimName, a[0]) then [a[0]] else [];
      assert (a + b)[0] == a[0] && (a + b)[1..] == a[1..] + b;
      assert Owned(claimName, a + b) == head + Owned(claimName, a[1..] + b);
      assert Owned(claimName, a) == head + Owned(claimName, a[1..]);
      OwnedAppend(claimName, a[1..], b);
      assert head + (Owned(claimName, a[1..]) + Owned(claimName, b)) ==
        (head + Owned(claimName, a[1..])) + Owned(claimName, b);
    } else {
      assert a + b == b;
    }
  }

  /** A snapshot whose spec names the claim and whose label names another
      claim is still owned; one without the label is not. */
  lemma OwnershipByLabelPresence(claimName: string, other: string, s: Snap)
    requires s.sourceClaim == claimName && other != ""
    ensures Owns(claimName, s.(labels := map[SourceLabel := other]))
    ensures !Owns(claimName, s.(labels := map[]))
    ensures !Owns(claimName, s.(labels := map[SourceLabel := ""]))
  {
  }

  // ---------------------------------------------------------------- ordering

  /** Non-decreasing creation time. */
  predicate SortedByTime(s: seq<Snap>)
    requires AllParsed(s)
  {
    forall i, j :: 0 <= i < j < |s| ==> TimeOf(s[i]) <= TimeOf(s[j])
  }

  /** The snapshots created at instant `t`, in their order in `s`. */
  function CreatedAt(s: seq<Snap>, t: int): seq<Snap>
    requires AllParsed(s)
  {
    if s == [] then []
    else if TimeOf(s[0]) == t then [s[0]] + CreatedAt(s[1..], t)
    else CreatedAt(s[1..], t)
  }

  /** Places `x` before the first snapshot of `s` that is not older. */
  function Insert(x: Snap, s: seq<Snap>): (r: seq<Snap>)
    requires x.created.At? && AllParsed(s)
    ensures |r| == |s| + 1 && AllParsed(r)
    ensures multiset(r) == multiset(s) + multiset{x}
    ensures r[0] == x || (s != [] && r[0] == s[0])
  {
    if s == [] then [x]
    else if TimeOf(x) <= TimeOf(s[0]) then [x] + s
    else
      assert s == [s[0]] + s[1..];
      [s[0]] + Insert(x, s[1..])
  }

  /** Putting a snapshot no newer than the head in front of a sorted list
      keeps it sorted. */
  lemma ConsSorted(a: Snap, t: seq<Snap>)
    requires a.created.At? && AllParsed(t) && SortedByTime(t)
    requires t != [] ==> TimeOf(a) <= TimeOf(t[0])
    ensures AllParsed([a] + t) && SortedByTime([a] + t)
  {
    var r := [a] + t;
    forall i, j | 0 <= i < j < |r| ensures TimeOf(r[i]) <= TimeOf(r[j]) {
      assert r[j] == t[j - 1];
      if i > 0 { assert r[i] == t[i - 1]; }
    }
  }

  /** Inserting into a sorted list keeps it sorted. */
  lemma {:induction false} InsertSorted(x: Snap, s: seq<Snap>)
    requires x.created.At? && AllParsed(s) && SortedByTime(s)
    ensures SortedByTime(Insert(x, s))
  {
    if s == [] {
    } else if TimeOf(x) <= TimeOf(s[0]) {
      ConsSorted(x, s);
    } else {
      InsertSorted(x, s[1..]);
      var t := Insert(x, s[1..]);
      assert TimeOf(s[0]) <= TimeOf(t[0]) by {
        if |s| > 1 { assert TimeOf(s[0]) <= TimeOf(s[1]); }
      }
      ConsSorted(s[0], t);
    }
  }

  lemma {:induction false} InsertStable(x: Snap, s: seq<Snap>, t: int)
    requires x.created.At? && AllParsed(s) && SortedByTime(s)
    ensures CreatedAt(Insert(x, s), t) == CreatedAt([x] + s, t)
  {
    if s == [] {
    } else if TimeOf(x) <= TimeOf(s[0]) {
    } else {
      InsertStable(x, s[1..], t);
      var tail := Insert(x, s[1..]);
      assert Insert(x, s) == [s[0]] + tail;
      assert ([s[0]] + tail)[1..] == tail;
      assert ([x] + s)[1..] == s;
      assert ([x] + s[1..])[1..] == s[1..];
      if TimeOf(x) == t {
        // s[0] is older than x, so it is not created at t
        assert CreatedAt(Insert(x, s), t) == CreatedAt(tail, t);
      }
    }
  }

  /** Python's `sorted` by creation time: a stable sort, written as an
      insertion sort. */
  function SortByTime(s: seq<Snap>): (r: seq<Snap>)
    requires AllParsed(s)
    ensures AllParsed(r) && |r| == |s|
    ensures multiset(r) == multiset(s)
  {
    if s == [] then []
    else
      assert s == [s[0]] + s[1..];
      Insert(s[0], SortByTime(s[1..]))
  }

  /** The sorted list is in non-decreasing creation order. */
  lemma {:induction false} SortByTimeSorted(s: seq<Snap>)
    requires AllParsed(s)
    ensures SortedByTime(SortByTime(s))
  {
    if s != [] {
      SortByTimeSorted(s[1..]);
      InsertSorted(s[0], SortByTime(s[1..]));
    }
  }

  /** The sort is stable: snapshots created at the same instant keep their
      relative order. */
  lemma {:induction false} SortByTimeStable(s: seq<Snap>, t: int)
    requires AllParsed(s)
    ensures CreatedAt(SortByTime(s), t) == CreatedAt(s, t)
  {
    if s != [] {
      SortByTimeStable(s[1..], t);
      SortByTimeSorted(s[1..]);
      InsertStable(s[0], SortByTime(s[1..]), t);
      assert ([s[0]] + SortByTime(s[1..]))[1..] == SortByTime(s[1..]);
    }
  }

  // ---------------------------------------------------------------- creation

  /** Whether a new snapshot is due: never for `never`; always when the claim
      owns none; otherwise when the newest owned one is at least a full
      interval old. */
  function IsDue(schedule: Schedule, owned: seq<Snap>, now: int): (r: bool)
    requires AllParsed(owned)
    ensures schedule == Never ==> !r
    ensures schedule != Never && owned == [] ==> r
  {
    match Interval(schedule)
    case None => false
    case Some(interval) =>
      owned == [] || now - TimeOf(owned[|owned| - 1]) >= interval
  }

  /** On a sorted list, being due means that every owned snapshot is at least
      a full interval old. */
  lemma IsDueMeansAllOldEnough(schedule: Schedule, owned: seq<Snap>, now: int)
    requires AllParsed(owned) && SortedByTime(owned) && schedule != Never
    ensures IsDue(schedule, owned, now) <==>
      forall i :: 0 <= i < |owned| ==> now - TimeOf(owned[i]) >= Interval(schedule).value
  {
    if owned != [] && IsDue(schedule, owned, now) {
      forall i | 0 <= i < |owned| ensures now - TimeOf(owned[i]) >= Interval(schedule).value {
        assert TimeOf(owned[i]) <= TimeOf(owned[|owned| - 1]);
      }
    }
  }

  /** The entry the created snapshot adds to the working list: the manifest's
      name and labels, the claim's namespace and the pass's instant. */
  function CreatedSnap(claim: Claim, m: Manifest, now: int): (r: Snap)
    ensures r.created == At(now) && r.name == m.name && r.namespace == claim.namespace
  {
    Snap(m.name, claim.namespace, m.labels, m.sourceClaim, At(now))
  }

  // ---------------------------------------------------------------- deletion

  /** `max(0, len(pvc_snaps) - maxcount)`. */
  function DeleteCount(length: nat, maxCount: int): (r: nat)
    ensures r >= length - maxCount
    ensures r == 0 || r == length - maxCount
  {
    if length - maxCount > 0 then length - maxCount else 0
  }

  /** `pvc_snaps[:delete_count]`: slicing past the end takes the whole list. */
  function OldestPrefix(working: seq<Snap>, maxCount: int): (r: seq<Snap>)
    ensures |r| <= |working| && r == working[..|r|]
    ensures |r| == if DeleteCount(|working|, maxCount) < |working| then DeleteCount(|working|, maxCount) else |working|
  {
    var n := DeleteCount(|working|, maxCount);
    if n < |working| then working[..n] else working
  }

  /** What survives: exactly `min(len, max(0, maxcount))` snapshots, the
      newest ones; a negative or zero maximum deletes everything. */
  lemma {:induction false} SurvivorCount(working: seq<Snap>, maxCount: int)
    ensures |working| - |OldestPrefix(working, maxCount)| ==
      if maxCount <= 0 then 0 else if maxCount < |working| then maxCount else |working|
    ensures maxCount <= 0 ==> OldestPrefix(working, maxCount) == working
  {
    if maxCount <= 0 {
      assert working[..|working|] == working;
    }
  }

  /** On a sorted working list, no deleted snapshot is newer than any
      survivor. */
  lemma OldestFirst(working: seq<Snap>, maxCount: int)
    requires AllParsed(working) && SortedByTime(working)
    ensures forall i, j :: 0 <= i < |OldestPrefix(working, maxCount)| <= j < |working| ==>
      TimeOf(working[i]) <= TimeOf(working[j])
  {
  }

  // ---------------------------------------------------------------- one claim

  /** Appending a converted snapshot to a converted list. */
  function AppendParsed(s: seq<Snap>, x: Snap): (r: seq<Snap>)
    requires AllParsed(s) && x.created.At?
    ensures r == s + [x] && AllParsed(r)
  {
    assert forall i :: 0 <= i < |s| ==> (s + [x])[i] == s[i];
    s + [x]
  }

  /** The outcome for one claim: the manifest submitted (if any), the
      working list after the append, and the entries deleted. */
  datatype Decision = Decision(schedule: Schedule, created: Option<Manifest>, working: seq<Snap>, deleted: seq<Snap>)

  /** The loop body for `claim`, given its namespace's converted snapshots,
      the instant `now` and its broken-down form `stamp`. */
  function Decide(claim: Claim, nsSnaps: seq<Snap>, now: int, stamp: DateTime): (d: Decision)
    requires AllParsed(nsSnaps) && ValidDateTime(stamp)
    ensures AllParsed(d.working)
  {
    var schedule := ResolveSchedule(claim.annotations);
    var owned := SortByTime(Owned(claim.name, nsSnaps));
    var created := if IsDue(schedule, owned, now) then Some(BuildManifest(claim, stamp)) else None;
    var working := if created.Some? then AppendParsed(owned, CreatedSnap(claim, created.value, now)) else owned;
    var maxCount := ResolveMaxCount(claim.annotations, schedule);
    Decision(schedule, created, working, OldestPrefix(working, maxCount))
  }

  /** The creation rule, stated against the owned snapshots in any order:
      `never` creates nothing; otherwise a snapshot is created exactly when
      every owned one (if any) is at least a full interval old. At most one is
      created, and it is the claim's manifest for this pass. */
  lemma {:induction false} CreationRule(claim: Claim, nsSnaps: seq<Snap>, now: int, stamp: DateTime)
    requires AllParsed(nsSnaps) && ValidDateTime(stamp)
    ensures var d := Decide(claim, nsSnaps, now, stamp);
      var owned := Owned(claim.name, nsSnaps);
      d.schedule == ResolveSchedule(claim.annotations) &&
      (d.schedule == Never ==> d.created.None?) &&
      (d.schedule != Never ==>
        (d.created.Some? <==> forall s :: s in owned ==> now - TimeOf(s) >= Interval(d.schedule).value)) &&
      (d.created.Some? ==> d.created.value == BuildManifest(claim, stamp))
  {
    var d := Decide(claim, nsSnaps, now, stamp);
    var owned := Owned(claim.name, nsSnaps);
    var sorted := SortByTime(owned);
    if d.schedule != Never {
      SortByTimeSorted(owned);
      IsDueMeansAllOldEnough(d.schedule, sorted, now);
      assert forall s :: s in owned <==> s in sorted by {
        assert forall s :: s in owned <==> s in multiset(owned);
        assert forall s :: s in sorted <==> s in multiset(sorted);
      }
      assert (forall i :: 0 <= i < |sorted| ==> now - TimeOf(sorted[i]) >= Interval(d.schedule).value) <==>
        (forall s :: s in sorted ==> now - TimeOf(s) >= Interval(d.schedule).value);
    }
  }

  /** Appending a snapshot no older than every element keeps a list sorted. */
  lemma AppendNewest(s: seq<Snap>, x: Snap)
    requires AllParsed(s) && SortedByTime(s) && x.created.At?
    requires forall i :: 0 <= i < |s| ==> TimeOf(s[i]) <= TimeOf(x)
    ensures AllParsed(s + [x]) && SortedByTime(s + [x])
  {
  }

  /** A snapshot made at `now` when one is due is newer than every owned
      one, so appending it keeps a sorted list sorted. */
  lemma DueAppendSorted(schedule: Schedule, owned: seq<Snap>, now: int, x: Snap)
    requires AllParsed(owned) && SortedByTime(owned) && IsDue(schedule, owned, now)
    requires x.created == At(now)
    ensures AllParsed(owned + [x]) && SortedByTime(owned + [x])
  {
    forall i | 0 <= i < |owned| ensures TimeOf(owned[i]) <= TimeOf(x) {
      assert TimeOf(owned[i]) <= TimeOf(owned[|owned| - 1]);
    }
    AppendNewest(owned, x);
  }

  /** The working list stays sorted after the append: a created snapshot is
      strictly newer than every owned one. */
  lemma {:induction false} WorkingSorted(claim: Claim, nsSnaps: seq<Snap>, now: int, stamp: DateTime)
    requires AllParsed(nsSnaps) && ValidDateTime(stamp)
    ensures SortedByTime(Decide(claim, nsSnaps, now, stamp).working)
  {
    var d := Decide(claim, nsSnaps, now, stamp);
    var owned := SortByTime(Owned(claim.name, nsSnaps));
    SortByTimeSorted(Owned(claim.name, nsSnaps));
    if d.created.Some? {
      DueAppendSorted(d.schedule, owned, now, CreatedSnap(claim, d.created.value, now));
    }
  }

  /** The working list is the owned snapshots sorted oldest first, followed
      by the snapshot created in this pass when there is one. */
  lemma WorkingShape(claim: Claim, nsSnaps: seq<Snap>, now: int, stamp: DateTime)
    requires AllParsed(nsSnaps) && ValidDateTime(stamp)
    ensures var d := Decide(claim, nsSnaps, now, stamp);
      var owned := Owned(claim.name, nsSnaps);
      |d.working| == |owned| + (if d.created.Some? then 1 else 0) &&
      d.working[..|owned|] == SortByTime(owned) &&
      (d.created.Some? ==> d.working[|owned|] == CreatedSnap(claim, d.created.value, now))
  {
    var owned := Owned(claim.name, nsSnaps);
    assert |multiset(SortByTime(owned))| == |multiset(owned)|;
  }

  /** The deletion rule: the deleted entries are the oldest prefix of the
      working list, no deleted entry is newer than a survivor, exactly
      `min(n, max(0, maxcount))` survive where `n` is the number of owned
      snapshots plus the one created, and the snapshot created in this pass
      (the last working entry) is deleted exactly when the maximum is zero or
      less. */
  lemma {:induction false} DeletionRule(claim: Claim, nsSnaps: seq<Snap>, now: int, stamp: DateTime)
    requires AllParsed(nsSnaps) && ValidDateTime(stamp)
    ensures var d := Decide(claim, nsSnaps, now, stamp);
      var maxCount := ResolveMaxCount(claim.annotations, d.schedule);
      var n := |Owned(claim.name, nsSnaps)| + (if d.created.Some? then 1 else 0);
      n == |d.working| &&
      d.deleted == d.working[..|d.deleted|] &&
      n - |d.deleted| == (if maxCount <= 0 then 0 else if maxCount < n then maxCount else n) &&
      (forall i, j :: 0 <= i < |d.deleted| <= j < n ==> TimeOf(d.working[i]) <= TimeOf(d.working[j])) &&
      (d.created.Some? ==> (|d.deleted| == n <==> maxCount <= 0))
  {
    var d := Decide(claim, nsSnaps, now, stamp);
    var maxCount := ResolveMaxCount(claim.annotations, d.schedule);
    WorkingSorted(claim, nsSnaps, now, stamp);
    WorkingShape(claim, nsSnaps, now, stamp);
    SurvivorCount(d.working, maxCount);
    OldestFirst(d.working, maxCount);
  }

  /** The working list holds only snapshots the claim owns and, when one was
      created, the created one: a deletion never reaches another claim's
      snapshots. */
  lemma WorkingMembers(claim: Claim, nsSnaps: seq<Snap>, now: int, stamp: DateTime, s: Snap)
    requires AllParsed(nsSnaps) && ValidDateTime(stamp)
    requires s in Decide(claim, nsSnaps, now, stamp).working
    ensures (s in nsSnaps && Owns(claim.name, s)) ||
      s == CreatedSnap(claim, BuildManifest(claim, stamp), now)
  {
    var owned := Owned(claim.name, nsSnaps);
    var sorted := SortByTime(owned);
    if s in sorted {
      assert s in multiset(sorted);
      assert s in multiset(owned);
    }
  }

  /** Every deleted entry is an owned snapshot of the listing or the one
      created in this pass. */
  lemma DeletedMembers(claim: Claim, nsSnaps: seq<Snap>, now: int, stamp: DateTime, s: Snap)
    requires AllParsed(nsSnaps) && ValidDateTime(stamp)
    requires s in Decide(claim, nsSnaps, now, stamp).deleted
    ensures (s in nsSnaps && Owns(claim.name, s)) ||
      s == CreatedSnap(claim, BuildManifest(claim, stamp), now)
  {
    var d := Decide(claim, nsSnaps, now, stamp);
    assert d.deleted == d.working[..|d.deleted|];
    WorkingMembers(claim, nsSnaps, now, stamp, s);
  }

  /** A weekly claim with five owned snapshots, one of them (so the newest)
      at most an hour old, and a maximum of two, creates nothing and deletes the three oldest. */
  lemma WeeklyTrimExample(claim: Claim, nsSnaps: seq<Snap>, now: int, stamp: DateTime)
    requires AllParsed(nsSnaps) && ValidDateTime(stamp)
    requires ResolveSchedule(claim.annotations) == Weekly && ResolveMaxCount(claim.annotations, Weekly) == 2
    requires |Owned(claim.name, nsSnaps)| == 5
    requires exists s :: s in Owned(claim.name, nsSnaps) && now - TimeOf(s) <= 3_600_000_000
    ensures Decide(claim, nsSnaps, now, stamp).created.None?
    ensures Decide(claim, nsSnaps, now, stamp).deleted == SortByTime(Owned(claim.name, nsSnaps))[..3]
  {
    CreationRule(claim, nsSnaps, now, stamp);
  }
}
