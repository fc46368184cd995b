/** The reconciliation pass of `main` (shooter/__main__.py:46-92): every claim
    in listing order, its namespace's snapshots from the cache, then the
    create and delete calls, recorded here as effects. */
module Shooter {
  import opened Types
  import opened Policy
  import opened Manifests
  import opened Retention
  import opened Cache

  /** A call issued against the snapshot API. */
  datatype Effect =
    | Create(namespace: string, manifest: Manifest)
    | Delete(namespace: string, name: string)

  /** One delete call per entry, in order. */
  function DeleteEffects(snaps: seq<Snap>): (r: seq<Effect>)
    ensures |r| == |snaps|
    ensures forall i :: 0 <= i < |snaps| ==> r[i] == Delete(snaps[i].namespace, snaps[i].name)
  {
    seq(|snaps|, i requires 0 <= i < |snaps| => Delete(snaps[i].namespace, snaps[i].name))
  }

  /** The calls that carry out a decision for a claim in `namespace`: the
      creation, if any, then the deletions, oldest first. */
  function DecisionEffects(namespace: string, d: Decision): seq<Effect> {
    (if d.created.Some? then [Create(namespace, d.created.value)] else []) + DeleteEffects(d.deleted)
  }

  /** Call `i` of a decision is its creation, issued first, or the deletion of
      entry `i - 1` or `i` of the deleted list (after or without a creation). */
  lemma DecisionCall(namespace: string, d: Decision, i: nat)
    requires i < |DecisionEffects(namespace, d)|
    ensures var off := if d.created.Some? then 1 else 0;
      |DecisionEffects(namespace, d)| == off + |d.deleted| &&
      (i < off ==> DecisionEffects(namespace, d)[i] == Create(namespace, d.created.value)) &&
      (off <= i ==> DecisionEffects(namespace, d)[i] == Delete(d.deleted[i - off].namespace, d.deleted[i - off].name))
  {
  }

  /** A deletion among a decision's calls deletes an entry of its deleted
      list. */
  lemma DecisionDeleteOf(namespace: string, d: Decision, i: nat) returns (s: Snap)
    requires i < |DecisionEffects(namespace, d)| && DecisionEffects(namespace, d)[i].Delete?
    ensures s in d.deleted && DecisionEffects(namespace, d)[i] == Delete(s.namespace, s.name)
  {
    DecisionCall(namespace, d, i);
    s := d.deleted[i - if d.created.Some? then 1 else 0];
  }

  /** The calls issued for one claim given its namespace's snapshots. */
  function ClaimEffects(claim: Claim, nsSnaps: seq<Snap>, now: int, stamp: DateTime): seq<Effect>
    requires AllParsed(nsSnaps) && ValidDateTime(stamp)
  {
    DecisionEffects(claim.namespace, Decide(claim, nsSnaps, now, stamp))
  }

  /** The calls of a whole pass over `claims` and whether it ran to the end:
      a namespace whose lookup fails ends the pass there. */
  function PassEffects(server: map<string, seq<Snap>>, parse: string -> Option<int>,
                       claims: seq<Claim>, now: int, stamp: DateTime): (r: (seq<Effect>, bool))
    requires ValidDateTime(stamp)
    ensures r.1 <==> forall i :: 0 <= i < |claims| ==> Fetch(server, parse, claims[i].namespace).Ok?
  {
    if claims == [] then ([], true)
    else
      match Fetch(server, parse, claims[0].namespace)
      case Err(_) => ([], false)
      case Ok(snaps) =>
        assert AllParsed(snaps);
        var rest := PassEffects(server, parse, claims[1..], now, stamp);
        assert forall i :: 1 <= i < |claims| ==> claims[i] == claims[1..][i - 1];
        (ClaimEffects(claims[0], snaps, now, stamp) + rest.0, rest.1)
  }

  /** The calls for one claim: at most one creation, issued first and
      carrying the claim's manifest; every later call is a deletion. */
  lemma ClaimCallsShape(claim: Claim, nsSnaps: seq<Snap>, now: int, stamp: DateTime)
    requires AllParsed(nsSnaps) && ValidDateTime(stamp)
    ensures var calls := ClaimEffects(claim, nsSnaps, now, stamp);
      (forall i :: 0 < i < |calls| ==> calls[i].Delete?) &&
      (|calls| > 0 && calls[0].Create? ==> calls[0] == Create(claim.namespace, BuildManifest(claim, stamp)))
  {
    var d := Decide(claim, nsSnaps, now, stamp);
    var calls := DecisionEffects(claim.namespace, d);
    CreationRule(claim, nsSnaps, now, stamp);
    forall i | 0 < i < |calls| ensures calls[i].Delete? {
      DecisionCall(claim.namespace, d, i);
    }
    if |calls| > 0 {
      DecisionCall(claim.namespace, d, 0);
    }
  }

  /** Every delete call names a snapshot the claim owns or the one created in
      this pass. */
  lemma DeletesOnlyOwned(claim: Claim, nsSnaps: seq<Snap>, now: int, stamp: DateTime, i: nat)
    requires AllParsed(nsSnaps) && ValidDateTime(stamp)
    requires i < |ClaimEffects(claim, nsSnaps, now, stamp)| && ClaimEffects(claim, nsSnaps, now, stamp)[i].Delete?
    ensures exists s ::
      ((s in nsSnaps && Owns(claim.name, s)) || s == CreatedSnap(claim, BuildManifest(claim, stamp), now)) &&
      ClaimEffects(claim, nsSnaps, now, stamp)[i] == Delete(s.namespace, s.name)
  {
    var d := Decide(claim, nsSnaps, now, stamp);
    var s := DecisionDeleteOf(claim.namespace, d, i);
    DeletedMembers(claim, nsSnaps, now, stamp, s);
  }

  /** The `for` loop over `snaps_to_delete`: one delete call per entry, in
      order, naming each entry's namespace and name. */
  method IssueDeletes(snapsToDelete: seq<Snap>) returns (calls: seq<Effect>)
    ensures calls == DeleteEffects(snapsToDelete)
  {
    calls := [];
    var k := 0;
    while k < |snapsToDelete|
      invariant 0 <= k <= |snapsToDelete|
      invariant |calls| == k
      invariant forall j :: 0 <= j < k ==> calls[j] == Delete(snapsToDelete[j].namespace, snapsToDelete[j].name)
    {
      var snap := snapsToDelete[k];
      calls := calls + [Delete(snap.namespace, snap.name)];
      k := k + 1;
    }
  }

  /** `main`'s loop body for one claim, after its namespace's snapshots have
      been looked up: filter, sort, create if due, then delete the oldest
      excess entries one call at a time. */
  method ReconcileClaim(claim: Claim, nsSnaps: seq<Snap>, now: int, stamp: DateTime) returns (calls: seq<Effect>)
    requires AllParsed(nsSnaps) && ValidDateTime(stamp)
    ensures calls == ClaimEffects(claim, nsSnaps, now, stamp)
  {
    calls := [];
    var schedule := ResolveSchedule(claim.annotations);
    var pvcSnaps := SortByTime(Owned(claim.name, nsSnaps));
    ghost var created: Option<Manifest> := None;
    if IsDue(schedule, pvcSnaps, now) {
      var manifest := BuildManifest(claim, stamp);
      calls := [Create(claim.namespace, manifest)];
      pvcSnaps := pvcSnaps + [CreatedSnap(claim, manifest, now)];
      created := Some(manifest);
    }
    var maxCount := ResolveMaxCount(claim.annotations, schedule);
    var snapsToDelete := OldestPrefix(pvcSnaps, maxCount);
    var deletes := IssueDeletes(snapsToDelete);
    calls := calls + deletes;
    assert Decide(claim, nsSnaps, now, stamp) == Decision(schedule, created, pvcSnaps, snapsToDelete);
  }

  /** A failing lookup ends the pass at claim `i`. */
  lemma PassEffectsStop(server: map<string, seq<Snap>>, parse: string -> Option<int>,
                        claims: seq<Claim>, i: nat, now: int, stamp: DateTime)
    requires i < |claims| && ValidDateTime(stamp)
    requires Fetch(server, parse, claims[i].namespace).Err?
    ensures PassEffects(server, parse, claims[i..], now, stamp) == ([], false)
  {
    assert claims[i..][0] == claims[i];
  }

  /** The calls of the first `i` claims: `effects` followed by the calls of
      the rest of the pass is the whole pass. */
  ghost predicate EffectsSoFar(server: map<string, seq<Snap>>, parse: string -> Option<int>,
                               claims: seq<Claim>, i: nat, now: int, stamp: DateTime, effects: seq<Effect>)
  {
    i <= |claims| && ValidDateTime(stamp) &&
    effects + PassEffects(server, parse, claims[i..], now, stamp).0 == PassEffects(server, parse, claims, now, stamp).0 &&
    PassEffects(server, parse, claims[i..], now, stamp).1 == PassEffects(server, parse, claims, now, stamp).1
  }

  /** A successful lookup at claim `i` appends that claim's calls: one step
      of the pass. */
  lemma EffectsStep(server: map<string, seq<Snap>>, parse: string -> Option<int>,
                    claims: seq<Claim>, i: nat, nsSnaps: seq<Snap>, now: int, stamp: DateTime,
                    effects: seq<Effect>)
    requires i < |claims| && EffectsSoFar(server, parse, claims, i, now, stamp, effects)
    requires Fetch(server, parse, claims[i].namespace) == Ok(nsSnaps)
    ensures EffectsSoFar(server, parse, claims, i + 1, now, stamp, effects + ClaimEffects(claims[i], nsSnaps, now, stamp))
  {
    var calls := ClaimEffects(claims[i], nsSnaps, now, stamp);
    assert claims[i..][0] == claims[i];
    assert claims[i..][1..] == claims[i + 1..];
    var rest := PassEffects(server, parse, claims[i + 1..], now, stamp);
    assert PassEffects(server, parse, claims[i..], now, stamp) == (calls + rest.0, rest.1);
    assert (effects + calls) + rest.0 == effects + (calls + rest.0);
  }

  /** The namespaces of a list of claims. */
  function Namespaces(claims: seq<Claim>): set<string> {
    if claims == [] then {} else Namespaces(claims[..|claims| - 1]) + {claims[|claims| - 1].namespace}
  }

  /** A namespace is among those of the claims exactly when some claim is in it. */
  lemma {:induction false} NamespacesMembers(claims: seq<Claim>, ns: string)
    ensures ns in Namespaces(claims) <==> exists j :: 0 <= j < |claims| && claims[j].namespace == ns
  {
    if claims != [] {
      var init := claims[..|claims| - 1];
      NamespacesMembers(init, ns);
      assert forall j :: 0 <= j < |init| ==> init[j] == claims[j];
    }
  }

  /** The namespaces of the first `i + 1` claims. */
  lemma NamespacesStep(claims: seq<Claim>, i: nat)
    requires i < |claims|
    ensures Namespaces(claims[..i + 1]) == Namespaces(claims[..i]) + {claims[i].namespace}
  {
    assert claims[..i + 1][..i] == claims[..i];
  }

  /** The cache after the first `i` claims: it holds exactly their
      namespaces, each listed once and completely converted. */
  ghost predicate CacheSoFar(cache: SnapshotCache, server: map<string, seq<Snap>>, parse: string -> Option<int>,
                             claims: seq<Claim>, i: nat)
    reads cache
  {
    i <= |claims| &&
    cache.Valid() && cache.Complete() && cache.ListedOnce() &&
    cache.server == server && cache.parse == parse &&
    cache.entries.Keys == Namespaces(claims[..i])
  }

  /** The first statement of `main`'s loop body for claim `i`: look its
      namespace up in the cache. */
  method LookupClaim(cache: SnapshotCache, server: map<string, seq<Snap>>, parse: string -> Option<int>,
                     claims: seq<Claim>, i: nat)
    returns (lookup: Result<seq<Snap>>)
    requires i < |claims| && CacheSoFar(cache, server, parse, claims, i)
    modifies cache`entries, cache`fetches
    ensures lookup == Fetch(server, parse, claims[i].namespace)
    ensures lookup.Ok? ==> CacheSoFar(cache, server, parse, claims, i + 1)
    ensures forall j, k :: 0 <= j < k < |cache.fetches| ==> cache.fetches[j] != cache.fetches[k]
  {
    lookup := cache.GetSnapshots(claims[i].namespace);
    NamespacesStep(claims, i);
  }

  /** Before the first claim nothing has been issued. */
  lemma EffectsStart(server: map<string, seq<Snap>>, parse: string -> Option<int>,
                     claims: seq<Claim>, now: int, stamp: DateTime)
    requires ValidDateTime(stamp)
    ensures EffectsSoFar(server, parse, claims, 0, now, stamp, [])
  {
    assert claims[0..] == claims;
    assert [] + PassEffects(server, parse, claims, now, stamp).0 == PassEffects(server, parse, claims, now, stamp).0;
  }

  /** After the last claim the calls issued are those of the whole pass. */
  lemma EffectsEnd(server: map<string, seq<Snap>>, parse: string -> Option<int>,
                   claims: seq<Claim>, now: int, stamp: DateTime, effects: seq<Effect>)
    requires EffectsSoFar(server, parse, claims, |claims|, now, stamp, effects)
    ensures (effects, true) == PassEffects(server, parse, claims, now, stamp)
  {
    assert claims[|claims|..] == [];
    assert effects + [] == effects;
  }

  /** After the last claim the namespaces listed are exactly the claims'. */
  lemma CacheEnd(cache: SnapshotCache, server: map<string, seq<Snap>>, parse: string -> Option<int>,
                 claims: seq<Claim>)
    requires CacheSoFar(cache, server, parse, claims, |claims|)
    ensures forall ns :: ns in cache.fetches <==> ns in Namespaces(claims)
  {
    assert claims[..|claims|] == claims;
  }

  /** `main`'s loop over the claims with a fresh cache. Stops, as the
      uncaught exception does, at the first namespace whose listing or
      timestamp conversion fails. */
  method RunPass(server: map<string, seq<Snap>>, parse: string -> Option<int>,
                 claims: seq<Claim>, now: int, stamp: DateTime)
    returns (effects: seq<Effect>, completed: bool, ghost fetched: seq<string>)
    requires ValidDateTime(stamp)
    ensures (effects, completed) == PassEffects(server, parse, claims, now, stamp)
    // one listing call per distinct namespace
    ensures forall j, k :: 0 <= j < k < |fetched| ==> fetched[j] != fetched[k]
    ensures completed ==> forall ns :: ns in fetched <==> ns in Namespaces(claims)
  {
    var cache := new SnapshotCache(server, parse);
    effects := [];
    var i := 0;
    EffectsStart(server, parse, claims, now, stamp);
    assert claims[..0] == [];
    while i < |claims|
      invariant CacheSoFar(cache, server, parse, claims, i)
      invariant EffectsSoFar(server, parse, claims, i, now, stamp, effects)
    {
      var lookup := LookupClaim(cache, server, parse, claims, i);
      if lookup.Err? {
        PassEffectsStop(server, parse, claims, i, now, stamp);
        assert effects + [] == effects;
        return effects, false, cache.fetches;
      }
      var calls := ReconcileClaim(claims[i], lookup.value, now, stamp);
      EffectsStep(server, parse, claims, i, lookup.value, now, stamp, effects);
      effects := effects + calls;
      i := i + 1;
    }
    EffectsEnd(server, parse, claims, now, stamp, effects);
    CacheEnd(cache, server, parse, claims);
    completed := true;
    fetched := cache.fetches;
  }
}
