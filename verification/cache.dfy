/** The per-namespace snapshot cache of shooter/cache.py: one listing call per
    namespace, stored before its timestamps are converted in place. */
module Cache {
  import opened Types

  /** `parse_rfc3339` applied to one snapshot: a text timestamp becomes an
      instant (or the conversion fails); an instant is passed through. */
  function ConvertSnap(s: Snap, parse: string -> Option<int>): (r: Option<Snap>)
    ensures r.Some? ==> r.value.created.At?
    ensures r.Some? ==> SameButTime(r.value, s)
    ensures r.None? <==> s.created.Raw? && parse(s.created.text).None?
    ensures s.created.At? ==> r == Some(s)
    ensures s.created.Raw? && parse(s.created.text).Some? ==>
      r.value.created == At(parse(s.created.text).value)
  {
    match s.created
    case At(_) => Some(s)
    case Raw(text) =>
      match parse(text)
      case Some(t) => Some(s.(created := At(t)))
      case None => None
  }

  /** The items after the conversion loop has run over them in order: every
      item before the first failing one converted, that one and the rest left
      as fetched; the flag says whether every conversion succeeded. */
  function ConvertAll(items: seq<Snap>, parse: string -> Option<int>): (r: (seq<Snap>, bool))
    ensures |r.0| == |items|
    ensures r.1 ==> AllParsed(r.0)
    ensures r.1 ==> forall i :: 0 <= i < |items| ==> ConvertSnap(items[i], parse) == Some(r.0[i])
  {
    if items == [] then ([], true)
    else
      match ConvertSnap(items[0], parse)
      case None => (items, false)
      case Some(s) =>
        var rest := ConvertAll(items[1..], parse);
        ([s] + rest.0, rest.1)
  }

  /** Conversion only rewrites timestamps: the list keeps its length, its
      order and every other field of every item. */
  lemma {:induction false} ConvertAllOnlyTimes(items: seq<Snap>, parse: string -> Option<int>)
    ensures OnlyTimesDiffer(ConvertAll(items, parse).0, items)
  {
    if items != [] && ConvertSnap(items[0], parse).Some? {
      ConvertAllOnlyTimes(items[1..], parse);
      var r := ConvertAll(items, parse).0;
      assert r == [ConvertSnap(items[0], parse).value] + ConvertAll(items[1..], parse).0;
      forall i | 1 <= i < |items| ensures SameButTime(r[i], items[i]) {
        assert r[i] == ConvertAll(items[1..], parse).0[i - 1];
        assert items[i] == items[1..][i - 1];
      }
    }
  }

  /** The flag of the conversion says exactly whether every item converts. */
  lemma {:induction false} ConvertAllSucceeds(items: seq<Snap>, parse: string -> Option<int>)
    ensures ConvertAll(items, parse).1 <==> forall i :: 0 <= i < |items| ==> ConvertSnap(items[i], parse).Some?
  {
    if items != [] {
      ConvertAllSucceeds(items[1..], parse);
      assert forall i :: 1 <= i < |items| ==> items[i] == items[1..][i - 1];
    }
  }

  /** When the first `k` conversions succeed, converting all items is
      converting those `k` and then the remaining ones. */
  lemma {:induction false} ConvertAllSplit(items: seq<Snap>, parse: string -> Option<int>, k: nat)
    requires k <= |items|
    requires forall i :: 0 <= i < k ==> ConvertSnap(items[i], parse).Some?
    ensures ConvertAll(items[..k], parse).1
    ensures ConvertAll(items, parse).0 == ConvertAll(items[..k], parse).0 + ConvertAll(items[k..], parse).0
    ensures ConvertAll(items, parse).1 == ConvertAll(items[k..], parse).1
  {
    if k > 0 {
      var s := ConvertSnap(items[0], parse).value;
      var tail := items[1..];
      assert tail[..k - 1] == items[..k][1..];
      assert tail[k - 1..] == items[k..];
      assert items[..k][0] == items[0];
      ConvertAllSplit(tail, parse, k - 1);
      assert ConvertAll(items[..k], parse) == ([s] + ConvertAll(tail[..k - 1], parse).0, ConvertAll(tail[..k - 1], parse).1);
      assert ConvertAll(items, parse) == ([s] + ConvertAll(tail, parse).0, ConvertAll(tail, parse).1);
    } else {
      assert items[..0] == [] && items[0..] == items;
      assert ConvertAll(items[..0], parse).0 == [];
    }
  }

  /** The stored list after the loop has converted its first `i` items. */
  function Partial(items: seq<Snap>, parse: string -> Option<int>, i: nat): seq<Snap>
    requires i <= |items|
  {
    ConvertAll(items[..i], parse).0 + items[i..]
  }

  /** Before the loop the stored list is the fetched one. */
  lemma PartialStart(items: seq<Snap>, parse: string -> Option<int>)
    ensures Partial(items, parse, 0) == items
  {
    assert items[..0] == [] && items[0..] == items;
  }

  /** One more successful conversion rewrites item `i` of the stored list. */
  lemma PartialStep(items: seq<Snap>, parse: string -> Option<int>, i: nat)
    requires i < |items|
    requires forall j :: 0 <= j <= i ==> ConvertSnap(items[j], parse).Some?
    ensures Partial(items, parse, i)[i := ConvertSnap(items[i], parse).value] == Partial(items, parse, i + 1)
  {
    var c := ConvertSnap(items[i], parse).value;
    var p := items[..i + 1];
    ConvertAllSplit(p, parse, i);
    assert p[..i] == items[..i];
    assert p[i..] == [items[i]];
    assert [items[i]][1..] == [];
    var done := ConvertAll(items[..i], parse).0;
    assert ConvertAll(p, parse).0 == done + [c];
    assert items[i..] == [items[i]] + items[i + 1..];
    assert (done + items[i..])[i := c] == done + [c] + items[i + 1..];
  }

  /** The loop finishing converts the whole list. */
  lemma PartialEnd(items: seq<Snap>, parse: string -> Option<int>)
    requires forall j :: 0 <= j < |items| ==> ConvertSnap(items[j], parse).Some?
    ensures ConvertAll(items, parse) == (Partial(items, parse, |items|), true)
  {
    ConvertAllSplit(items, parse, |items|);
    assert items[..|items|] == items && items[|items|..] == [];
  }

  /** The first failing conversion leaves it and the items after it as fetched. */
  lemma PartialStops(items: seq<Snap>, parse: string -> Option<int>, i: nat)
    requires i < |items|
    requires forall j :: 0 <= j < i ==> ConvertSnap(items[j], parse).Some?
    requires ConvertSnap(items[i], parse).None?
    ensures ConvertAll(items, parse) == (Partial(items, parse, i), false)
  {
    ConvertAllSplit(items, parse, i);
    assert items[i..][0] == items[i];
  }

  /** What one lookup of a namespace not yet cached yields, computed from the
      server's items alone: the listing fails, or the (possibly partly)
      converted list together with whether every conversion succeeded. */
  function Fetch(server: map<string, seq<Snap>>, parse: string -> Option<int>, namespace: string): (r: Result<seq<Snap>>)
    ensures r.Ok? ==> namespace in server && |r.value| == |server[namespace]| && AllParsed(r.value)
    ensures r.Ok? ==> OnlyTimesDiffer(r.value, server[namespace])
    ensures r.Ok? ==> forall i :: 0 <= i < |r.value| ==> ConvertSnap(server[namespace][i], parse) == Some(r.value[i])
    ensures r.Err? <==> namespace !in server || !ConvertAll(server[namespace], parse).1
  {
    if namespace !in server then Err(ListFailed)
    else
      var (converted, ok) := ConvertAll(server[namespace], parse);
      if ok then Ok(converted) else Err(TimestampUnparsable)
  }

  class SnapshotCache {
    /** namespace -> the list stored for it (`_ns_cache`). */
    var entries: map<string, seq<Snap>>
    /** What the listing call returns per namespace; a namespace missing here
        is one whose listing call fails. */
    const server: map<string, seq<Snap>>
    /** `parse_rfc3339`: None where it raises. */
    const parse: string -> Option<int>
    /** Every namespace a listing call was issued for, in order. */
    ghost var fetches: seq<string>

    /** Every stored namespace was fetched, and every fetch is remembered
        (a failed listing stores nothing and is fetched again next time). */
    ghost predicate Valid()
      reads this
    {
      forall ns :: ns in entries ==> ns in fetches
    }

    /** Every stored entry is the complete conversion of the server's items:
        true as long as no conversion has failed. */
    ghost predicate Complete()
      reads this
    {
      forall ns :: ns in entries ==> Fetch(server, parse, ns) == Ok(entries[ns])
    }

    /** No namespace was listed twice and every listed one is stored: no
        listing call has failed so far. */
    ghost predicate ListedOnce()
      reads this
    {
      (forall j, k :: 0 <= j < k < |fetches| ==> fetches[j] != fetches[k]) &&
      forall ns :: ns in fetches ==> ns in entries
    }

    constructor (server: map<string, seq<Snap>>, parse: string -> Option<int>)
      ensures this.server == server && this.parse == parse
      ensures entries == map[] && fetches == []
      ensures Valid() && Complete() && ListedOnce()
    {
      this.server := server;
      this.parse := parse;
      entries := map[];
      fetches := [];
    }

    /** `get_snapshots`: a cached namespace (even one cached with an empty
        list) is answered from the map; otherwise the listing is fetched,
        stored under the namespace, and then converted in place item by item. */
    method GetSnapshots(namespace: string) returns (r: Result<seq<Snap>>)
      requires Valid()
      modifies this`entries, this`fetches
      ensures Valid()
      // a hit: no listing call, the stored list returned, nothing changes
      ensures namespace in old(entries) ==>
        r == Ok(old(entries)[namespace]) && entries == old(entries) && fetches == old(fetches)
      // a miss: exactly one listing call; a failed listing stores nothing, a
      // successful one stores the list, converted up to the first failure
      ensures namespace !in old(entries) ==>
        fetches == old(fetches) + [namespace] &&
        entries == if namespace in server then old(entries)[namespace := ConvertAll(server[namespace], parse).0]
                   else old(entries)
      ensures namespace !in old(entries) ==> r == Fetch(server, parse, namespace)
      // while every stored entry is complete, the answer is the fresh fetch's
      ensures old(Complete()) ==> r == Fetch(server, parse, namespace)
      ensures old(Complete()) && r.Ok? ==> Complete()
      // until a listing fails, every namespace is listed at most once
      ensures old(ListedOnce()) ==> forall j, k :: 0 <= j < k < |fetches| ==> fetches[j] != fetches[k]
      ensures old(ListedOnce()) && r != Err(ListFailed) ==> ListedOnce()
    {
      if namespace in entries {
        return Ok(entries[namespace]);
      }
      fetches := fetches + [namespace];
      if namespace !in server {
        return Err(ListFailed);
      }
      entries := entries[namespace := server[namespace]];
      r := ConvertStored(namespace);
    }

    /** The loop of `get_snapshots` that rewrites, in place, the timestamps of
        the list just stored under `namespace`; a failing conversion stops it
        and leaves the list partly converted in the cache. */
    method ConvertStored(namespace: string) returns (r: Result<seq<Snap>>)
      requires namespace in server && namespace in entries && entries[namespace] == server[namespace]
      modifies this`entries
      ensures entries == old(entries)[namespace := ConvertAll(server[namespace], parse).0]
      ensures r == Fetch(server, parse, namespace)
    {
      var items := entries[namespace];
      ghost var before := entries;
      var i := 0;
      PartialStart(items, parse);
      while i < |items|
        invariant 0 <= i <= |items|
        invariant forall j :: 0 <= j < i ==> ConvertSnap(items[j], parse).Some?
        invariant entries == before[namespace := Partial(items, parse, i)]
      {
        var converted := ConvertSnap(entries[namespace][i], parse);
        if converted.None? {
          PartialStops(items, parse, i);
          return Err(TimestampUnparsable);
        }
        PartialStep(items, parse, i);
        entries := entries[namespace := entries[namespace][i := converted.value]];
        i := i + 1;
      }
      PartialEnd(items, parse);
      return Ok(entries[namespace]);
    }
  }
}
