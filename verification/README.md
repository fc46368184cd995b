# kube-snapshooter retention pass, modelled in Dafny

kube-snapshooter is a one-pass job. It walks every PersistentVolumeClaim in the
cluster and reads the claim's `snapshooter.smp.io/schedule`,
`snapshooter.smp.io/maxcount` and `snapshooter.smp.io/snapclass` annotations.
It then creates a VolumeSnapshot when one is due, and deletes the oldest
snapshots the claim owns beyond the maximum count. The snapshots of each
namespace are listed once per pass through a small cache. That cache converts
each item's `creationTimestamp` from RFC 3339 text to an instant, in place.

The model has six files, one module each:

- `types.dfy` (`Types`): claims, snapshots, timestamps (text or instant), and the `Option`/`Result` wrappers.
- `policy.dfy` (`Policy`): the schedule and maximum-count tables, and how annotations resolve against them.
- `manifest.dfy` (`Manifests`): the `strftime` timestamp and the VolumeSnapshot manifest built by `create_snapshot`.
- `retention.dfy` (`Retention`): the pure part of the loop body. That is the ownership filter, the stable sort by creation time, the due check, the append of the created snapshot and the oldest-first deletion prefix. `Decide` puts them together.
- `cache.dfy` (`Cache`): `SnapshotCache` as a class. It has a `map` field, the listing server as an abstract map, and a ghost log of listing calls. `GetSnapshots` stores the listed items before converting their timestamps in place.
- `driver.dfy` (`Shooter`): `main`'s loop as a method, `RunPass`. It records the create and delete calls as an effect log instead of calling the API. It is proved against `PassEffects`, the specification of the whole pass.

Instants are integer microseconds, the resolution of Python's `datetime`, so
`now - last >= interval` is compared exactly. An interval is a whole number of
days times 86 400 000 000.

## Model

| member | source | states |
|---|---|---|
| Policy.Interval | shooter/__main__.py:21-26 | The body is the table at lines 21-26: 1, 7 and 30 days for `daily`, `weekly` and `monthly`. The ensures state that only `never` has no interval, and that every other interval is a positive whole number of days. |
| Policy.DefaultMaxCount | shooter/__main__.py:27-32 | The body is the table at lines 27-32: 7, 2, 1 and 0. The ensures state that the default is zero exactly for `never`. |
| Policy.Lower | shooter/__main__.py:51 | Lower-casing keeps the length and maps every character through the ASCII lower-case mapping. |
| Policy.LowerChar | shooter/__main__.py:51 | An upper-case ASCII letter moves to its lower-case letter. Any other character is unchanged. |
| Policy.Lookup | shooter/__main__.py:52 | A key found in the table names a schedule whose key is exactly that text. A key not found matches no schedule's key. |
| Policy.ResolveSchedule | shooter/__main__.py:51-53 | A missing annotation gives `daily`. An annotation that matches no key after lower-casing also gives `daily`. An annotation that matches a key in any mix of cases selects that schedule. |
| Policy.UpperCaseWeekly | shooter/__main__.py:51-53 | The annotation `WEEKLY` resolves to `weekly`. |
| Policy.HourlyIsDaily | shooter/__main__.py:52-53 | The unknown schedule `hourly` falls back to `daily`. |
| Policy.ParseInt | shooter/__main__.py:74-76 | `int()` accepts only an optional sign followed by digits. A text that starts with a digit parses exactly when every character is a digit. |
| Policy.DecimalText | shooter/__main__.py:74 | The decimal text of a number is non-empty and made only of digits. |
| Policy.DigitsValueOfText | shooter/__main__.py:74 | Reading back the decimal text of `n` gives `n`. |
| Policy.ParseIntRoundTrip | shooter/__main__.py:74 | `int()` of the decimal text of any integer, negative ones written with `-`, gives that integer. |
| Policy.ResolveMaxCount | shooter/__main__.py:74-76 | A missing annotation gives the schedule's default. An unparsable one gives 1. A parsable one gives its value. |
| Policy.MaxCountFallbackAsymmetry | shooter/__main__.py:27-76 | Under `never`, a missing annotation keeps 0 snapshots and an unparsable one keeps 1. |
| Policy.InvalidMaxCountIsOne | shooter/__main__.py:75-76 | The annotation `abc` gives 1 whatever the schedule. |
| Manifests.Digit | shooter/__main__.py:100 | A value below ten is written as a decimal digit. |
| Manifests.FormatStamp | shooter/__main__.py:100 | The timestamp text is 19 characters long. It has dashes at positions 4, 7, 10, 13 and 16, and digits everywhere else. |
| Manifests.FieldValueSlice | shooter/__main__.py:100 | A field's value depends only on its own characters. |
| Manifests.Pad2Value | shooter/__main__.py:100 | A zero-padded two-digit field reads back as its value. |
| Manifests.Pad4Value | shooter/__main__.py:100 | The four-digit year field reads back as its value. |
| Manifests.StampRoundTrip | shooter/__main__.py:100 | Parsing the formatted timestamp gives back the time it was formatted from. |
| Manifests.BuildManifest | shooter/__main__.py:102-120 | The manifest has the VolumeSnapshot kind and API version. The ownership label and the spec source both name the claim. The snapshot class is present exactly when the annotation is present and non-empty, and then it equals the annotation. |
| Manifests.ManifestNameStamp | shooter/__main__.py:100-106 | The name is the claim name, a dash and `FormatStamp` of the stamp, the 19-character `%Y-%m-%d-%H-%M-%S` text of dash-separated, zero-padded digits. The timestamp reads back as the stamp the manifest was built at. |
| Manifests.ManifestNamesDistinct | shooter/__main__.py:100-106 | Stamps that differ give the same claim differently named snapshots. |
| Retention.Owned | shooter/__main__.py:57-59 | A snapshot is kept exactly when it is in the namespace's list and the claim owns it. Owning means the spec source names the claim and the source label is non-empty. Converted timestamps stay converted. |
| Retention.OwnedCount | shooter/__main__.py:57-59 | Each owned snapshot is kept exactly as many times as the listing holds it, and a snapshot the claim does not own is never kept. |
| Retention.OwnedAppend | shooter/__main__.py:57-59 | The filter keeps order: filtering a concatenation concatenates the filtered parts. |
| Retention.OwnershipByLabelPresence | shooter/__main__.py:57-58 | The label's value need not name the claim. A missing or empty label excludes a snapshot whose spec names the claim. |
| Retention.Insert | shooter/__main__.py:60 | Inserting adds exactly the one element to the multiset and keeps the timestamps converted. The head is either the new element or the old head. |
| Retention.ConsSorted | shooter/__main__.py:60 | Putting an element no newer than the head in front of a sorted list keeps it sorted. |
| Retention.InsertSorted | shooter/__main__.py:60 | Inserting into a sorted list keeps it sorted. |
| Retention.InsertStable | shooter/__main__.py:60 | Inserting keeps the relative order of the elements that have equal timestamps. |
| Retention.SortByTime | shooter/__main__.py:60 | The sort is a permutation of its input (same multiset) with converted timestamps. |
| Retention.SortByTimeSorted | shooter/__main__.py:60 | The sorted list is in non-decreasing order of creation time. |
| Retention.SortByTimeStable | shooter/__main__.py:60 | The sort is stable: for every instant, the snapshots created at it keep their input order. |
| Retention.IsDue | shooter/__main__.py:62-71 | `never` is never due. Any other schedule with no owned snapshot is due. |
| Retention.IsDueMeansAllOldEnough | shooter/__main__.py:62-66 | On a sorted list, a snapshot is due exactly when every owned snapshot is at least a full interval old. No tolerance is allowed. |
| Retention.CreatedSnap | shooter/__main__.py:67-71 | The appended entry carries the manifest's name, the claim's namespace and the pass's instant. |
| Retention.DeleteCount | shooter/__main__.py:77 | The count is `max(0, len - maxcount)`. |
| Retention.OldestPrefix | shooter/__main__.py:77-84 | The deleted entries are a prefix of the working list. The prefix's length is the delete count, capped at the list's length. |
| Retention.SurvivorCount | shooter/__main__.py:77-84 | Exactly `min(len, max(0, maxcount))` entries survive. A zero or negative maximum deletes everything. |
| Retention.OldestFirst | shooter/__main__.py:77-84 | On a sorted list, no deleted entry is newer than any survivor. |
| Retention.AppendParsed | shooter/__main__.py:67-71 | Appending a converted snapshot keeps every timestamp converted. |
| Retention.Decide | shooter/__main__.py:51-84 | The working list (owned, sorted, plus any created snapshot) has only converted timestamps. |
| Retention.CreationRule | shooter/__main__.py:62-71 | `never` creates nothing. Any other schedule creates exactly when every owned snapshot is at least a full interval old. At most one snapshot is created, and it is the claim's manifest for this pass. |
| Retention.AppendNewest | shooter/__main__.py:67-71 | Appending an element no older than every element keeps a list sorted. |
| Retention.DueAppendSorted | shooter/__main__.py:64-67 | When a snapshot is due, one made now is newer than every owned one, so the append keeps the list sorted. |
| Retention.WorkingSorted | shooter/__main__.py:60-71 | The working list is sorted, including the created snapshot at its end. |
| Retention.WorkingShape | shooter/__main__.py:57-71 | The working list is the owned snapshots sorted oldest first, followed by the created snapshot when there is one. Its length is the owned count, plus one if a snapshot was created. |
| Retention.DeletionRule | shooter/__main__.py:67-84 | The deleted entries are the oldest prefix of the working list, and no deleted entry is newer than a survivor. With `n` the owned count plus one if a snapshot was created, exactly `min(n, max(0, maxcount))` entries survive. When a snapshot was created, the whole list, and so the created snapshot at its end, is deleted exactly when the maximum is zero or less. |
| Retention.WorkingMembers | shooter/__main__.py:57-71 | The working list holds only snapshots that the claim owns, plus the one created in this pass. |
| Retention.DeletedMembers | shooter/__main__.py:57-84 | Every deleted entry is a snapshot of the listing that the claim owns, or the one created in this pass. |
| Retention.WeeklyTrimExample | shooter/__main__.py:62-84 | A weekly claim with a maximum of 2 and five owned snapshots, one of which is at most an hour old (the others may be of any age), creates nothing and deletes the three oldest. |
| Cache.ConvertSnap | shooter/cache.py:21 | A text timestamp becomes the instant `parse_rfc3339` gives for it, and nothing else about the snapshot changes. An instant already converted passes through unchanged. The conversion fails exactly for a text that `parse_rfc3339` rejects. |
| Cache.ConvertAll | shooter/cache.py:20-21 | Converting keeps the length. A run with no failure converts every timestamp, and each item is its own item's conversion. |
| Cache.ConvertAllOnlyTimes | shooter/cache.py:20-21 | Converting changes only timestamps: the same objects in the same order. |
| Cache.ConvertAllSucceeds | shooter/cache.py:20-21 | The run succeeds exactly when every item converts. |
| Cache.ConvertAllSplit | shooter/cache.py:20-21 | Once the first `k` items have converted, converting everything is converting those `k` and then the rest. |
| Cache.PartialStart | shooter/cache.py:14-20 | Before the loop, the stored list is the listed one. |
| Cache.PartialStep | shooter/cache.py:20-21 | One more successful conversion rewrites exactly item `i` of the stored list. |
| Cache.PartialEnd | shooter/cache.py:20-22 | Finishing the loop converts the whole list. |
| Cache.PartialStops | shooter/cache.py:20-21 | The first failing item, and every item after it, stays as listed. |
| Cache.Fetch | shooter/cache.py:14-22 | A successful lookup of a namespace not yet cached returns the server's items in the server's order, each with its timestamp replaced by `parse_rfc3339`'s instant and every other field kept. It fails exactly when the listing fails or a conversion fails. |
| Cache.SnapshotCache.constructor | shooter/cache.py:6-7 | The cache starts empty and no listing call has been made. |
| Cache.SnapshotCache.GetSnapshots | shooter/cache.py:10-22 | A hit returns the stored entry, even an empty one, and changes nothing. A miss makes exactly one listing call. A failed listing stores nothing. A successful listing stores the list, converted up to the first failure, and leaves every other entry unchanged. While the cache is complete, the answer equals a fresh fetch. Until a listing fails, no namespace is listed twice. |
| Cache.SnapshotCache.ConvertStored | shooter/cache.py:20-22 | The in-place loop leaves the stored entry converted up to the first failure, and returns the fresh fetch's result. |
| Shooter.DeleteEffects | shooter/__main__.py:85-92 | There is one delete call per entry, in order, naming each entry's namespace and name. |
| Shooter.DecisionCall | shooter/__main__.py:67-92 | A decision's calls are its creation, if any, first, then one delete per deleted entry in order. |
| Shooter.PassEffects | shooter/__main__.py:50-92 | A pass runs to the end exactly when every claim's namespace lookup succeeds. |
| Shooter.ClaimCallsShape | shooter/__main__.py:62-92 | A claim issues at most one create, only as its first call, and it carries the claim's manifest. Every later call is a delete. |
| Shooter.DeletesOnlyOwned | shooter/__main__.py:57-92 | Every delete call names a snapshot the claim owns or the one created in the same pass. |
| Shooter.IssueDeletes | shooter/__main__.py:84-92 | The delete loop issues exactly `DeleteEffects` of the deleted prefix. |
| Shooter.ReconcileClaim | shooter/__main__.py:51-92 | The loop body issues exactly the calls of `Decide`'s decision. |
| Shooter.PassEffectsStop | shooter/__main__.py:56 | A failing lookup ends the pass with no further calls. |
| Shooter.EffectsStep | shooter/__main__.py:50-92 | A successful lookup appends that claim's calls to those of the pass so far. |
| Shooter.NamespacesMembers | shooter/__main__.py:50-56 | A namespace is among the claims' namespaces exactly when some claim is in it. |
| Shooter.NamespacesStep | shooter/__main__.py:50-56 | One more claim adds its namespace. |
| Shooter.LookupClaim | shooter/__main__.py:56 | The lookup returns the fresh fetch's result. On success, the cache holds exactly the namespaces seen so far. |
| Shooter.EffectsStart | shooter/__main__.py:48-50 | Before the first claim, no call has been issued. |
| Shooter.EffectsEnd | shooter/__main__.py:50-92 | After the last claim, the issued calls are those of the whole pass. |
| Shooter.CacheEnd | shooter/__main__.py:50-56 | After the last claim, the namespaces listed are exactly the claims' namespaces. |
| Shooter.RunPass | shooter/__main__.py:46-92 | The pass issues exactly `PassEffects`' calls, and stops at the first failing lookup. No namespace is listed twice. A completed pass lists exactly the claims' namespaces. |

## Left out

- There is no early-fire ("allowed advance") tolerance: shooter/__main__.py:66 compares against the full interval.
- Argument parsing, logging, `configure`, signal handlers and the `print` in `create_snapshot` are process plumbing and are not modelled.
- The Kubernetes API is not modelled. Listing claims becomes the `claims` parameter. Listing snapshots becomes the `server` map, where a missing namespace means the listing call raises. Creating and deleting become `Create` and `Delete` entries in the effect log.
- Errors raised by the create and delete calls are not modelled. Every create and delete is taken to succeed.
- `parse_rfc3339` is a parameter from text to an optional instant, where no value means it raises. An instant that is already converted is passed through.
- The clock is a parameter. `now` (an instant) and `stamp` (its broken-down UTC form) are fixed for the whole pass. The code calls `now()` afresh for each claim and again inside `create_snapshot`. How `now` relates to `stamp` is not modelled.
- `strftime` is modelled for years 1000 to 9999 only (`ValidDateTime`). The C library does not pad `%Y` below 1000.
- Policy.ParseInt: does not model `int()` accepting surrounding whitespace, underscores between digits or non-ASCII digits.
- Policy.Lower, Policy.LowerChar: fold ASCII letters only, where Python's `str.lower` covers all of Unicode.
- The crashes on a claim without annotations, or on a snapshot without labels or spec keys, are not modelled. Missing maps are empty maps here.
- The unused `default_maxcount` constant is not modelled.
- The entry appended for a created snapshot has the pass's instant as its timestamp. The code appends the API's response instead, whose timestamp is never read afterwards; only its namespace and name are read, and both are modelled.
- The listing server is a fixed map for the whole pass, so a listing that would answer differently on a second call is not modelled.
