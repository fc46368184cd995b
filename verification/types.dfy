/** The objects the snapshot-retention job reads and writes: persistent-volume
    claims, volume snapshots and the small wrappers used for error paths. */
module Types {

  /** The label that marks a snapshot as made by this job; its value is the
      claim name. */
  const SourceLabel := "snapshooter.smp.io/source"

  datatype Option<+T> = None | Some(value: T)

  /** Why a namespace lookup failed: the listing call raised, or
      `parse_rfc3339` raised on one item's `creationTimestamp`. */
  datatype Failure = ListFailed | TimestampUnparsable

  datatype Result<+T> = Ok(value: T) | Err(failure: Failure)

  /** A `creationTimestamp` as the API delivers it (RFC 3339 text) or after
      conversion to an instant, in microseconds since the epoch. */
  datatype Timestamp = Raw(text: string) | At(micros: int)

  /** A VolumeSnapshot object: its metadata (name, namespace, labels,
      creationTimestamp) and `spec.source.persistentVolumeClaimName`. */
  datatype Snap = Snap(
    name: string,
    namespace: string,
    labels: map<string, string>,
    sourceClaim: string,
    created: Timestamp)

  /** A persistent-volume claim and its annotations. */
  datatype Claim = Claim(namespace: string, name: string, annotations: map<string, string>)

  /** Every snapshot's timestamp has been converted to an instant. */
  predicate AllParsed(snaps: seq<Snap>) {
    forall i :: 0 <= i < |snaps| ==> snaps[i].created.At?
  }

  /** The same snapshot object, timestamps aside. */
  predicate SameButTime(a: Snap, b: Snap) {
    a.name == b.name && a.namespace == b.namespace && a.labels == b.labels && a.sourceClaim == b.sourceClaim
  }

  /** Two lists of the same objects in the same order, timestamps aside. */
  predicate OnlyTimesDiffer(a: seq<Snap>, b: seq<Snap>) {
    |a| == |b| && forall i :: 0 <= i < |a| ==> SameButTime(a[i], b[i])
  }

  /** The instant of a converted snapshot: the sort key of the job. */
  function TimeOf(s: Snap): int
    requires s.created.At?
  {
    s.created.micros
  }
}
