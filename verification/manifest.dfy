/** The VolumeSnapshot manifest that `create_snapshot` submits
    (shooter/__main__.py:95-120). */
module Manifests {
  import opened Types
  import opened Policy

  const SnapshotApiVersion := "snapshot.storage.k8s.io/v1beta1"
  const SnapshotKind := "VolumeSnapshot"

  /** The broken-down UTC time that `strftime` formats. */
  datatype DateTime = DateTime(year: int, month: int, day: int, hour: int, minute: int, second: int)

  /** The times `now()` yields whose `%Y` has four digits. */
  predicate ValidDateTime(t: DateTime) {
    1000 <= t.year <= 9999 && 1 <= t.month <= 12 && 1 <= t.day <= 31 &&
    0 <= t.hour < 24 && 0 <= t.minute < 60 && 0 <= t.second < 60
  }

  function Digit(d: int): (c: char)
    requires 0 <= d < 10
    ensures IsDigit(c)
  {
    ('0' as int + d) as char
  }

  function DigitValue(c: char): int {
    c as int - '0' as int
  }

  /** Zero-padded two-digit field (`%m`, `%d`, `%H`, `%M`, `%S`). */
  function Pad2(n: int): string
    requires 0 <= n < 100
  {
    [Digit(n / 10), Digit(n % 10)]
  }

  /** Four-digit year field (`%Y`). */
  function Pad4(n: int): string
    requires 0 <= n < 10000
  {
    Pad2(n / 100) + Pad2(n % 100)
  }

  /** `strftime('%Y-%m-%d-%H-%M-%S')`. */
  function FormatStamp(t: DateTime): (r: string)
    requires ValidDateTime(t)
    ensures |r| == 19
    ensures forall i :: 0 <= i < 19 ==> (if i in {4, 7, 10, 13, 16} then r[i] == '-' else IsDigit(r[i]))
  {
    Pad4(t.year) + "-" + Pad2(t.month) + "-" + Pad2(t.day) + "-" +
    Pad2(t.hour) + "-" + Pad2(t.minute) + "-" + Pad2(t.second)
  }

  /** The number written by the digits `s[i..i + n]`. */
  function FieldValue(s: string, i: nat, n: nat): int
    requires i + n <= |s|
    decreases n
  {
    if n == 0 then 0 else FieldValue(s, i, n - 1) * 10 + DigitValue(s[i + n - 1])
  }

  /** Reads a formatted timestamp back into its fields. */
  function ParseStamp(s: string): DateTime
    requires |s| == 19
  {
    DateTime(FieldValue(s, 0, 4), FieldValue(s, 5, 2), FieldValue(s, 8, 2),
             FieldValue(s, 11, 2), FieldValue(s, 14, 2), FieldValue(s, 17, 2))
  }

  /** A field's value depends only on its own characters. */
  lemma {:induction false} FieldValueSlice(s: string, i: nat, n: nat)
    requires i + n <= |s|
    ensures FieldValue(s, i, n) == FieldValue(s[i..i + n], 0, n)
    decreases n
  {
    if n > 0 {
      FieldValueSlice(s, i, n - 1);
      FieldValueSlice(s[i..i + n], 0, n - 1);
      assert s[i..i + n][0..n - 1] == s[i..i + n - 1];
      assert s[i..i + n][n - 1] == s[i + n - 1];
    }
  }

  lemma Pad2Value(n: int)
    requires 0 <= n < 100
    ensures FieldValue(Pad2(n), 0, 2) == n
  {
    assert DigitValue(Digit(n / 10)) == n / 10 && DigitValue(Digit(n % 10)) == n % 10;
  }

  lemma Pad4Value(n: int)
    requires 0 <= n < 10000
    ensures FieldValue(Pad4(n), 0, 4) == n
  {
    var p := Pad4(n);
    var hi, lo := n / 100, n % 100;
    assert p[0..2] == Pad2(hi) && p[2..4] == Pad2(lo);
    Pad2Value(hi);
    Pad2Value(lo);
    FieldValueSlice(p, 0, 2);
    FieldValueSlice(p, 2, 2);
    assert FieldValue(p, 0, 2) == hi;
    assert FieldValue(p, 2, 2) == DigitValue(p[2]) * 10 + DigitValue(p[3]) == lo;
    assert FieldValue(p, 0, 4) == (hi * 10 + DigitValue(p[2])) * 10 + DigitValue(p[3]);
  }

  /** The timestamp text determines the time it was formatted from. */
  lemma StampRoundTrip(t: DateTime)
    requires ValidDateTime(t)
    ensures ParseStamp(FormatStamp(t)) == t
  {
    var s := FormatStamp(t);
    assert s[0..4] == Pad4(t.year);
    assert s[5..7] == Pad2(t.month);
    assert s[8..10] == Pad2(t.day);
    assert s[11..13] == Pad2(t.hour);
    assert s[14..16] == Pad2(t.minute);
    assert s[17..19] == Pad2(t.second);
    FieldValueSlice(s, 0, 4); Pad4Value(t.year);
    FieldValueSlice(s, 5, 2); Pad2Value(t.month);
    FieldValueSlice(s, 8, 2); Pad2Value(t.day);
    FieldValueSlice(s, 11, 2); Pad2Value(t.hour);
    FieldValueSlice(s, 14, 2); Pad2Value(t.minute);
    FieldValueSlice(s, 17, 2); Pad2Value(t.second);
  }

  /** A VolumeSnapshot manifest. */
  datatype Manifest = Manifest(
    apiVersion: string,
    kind: string,
    name: string,
    labels: map<string, string>,
    sourceClaim: string,
    snapshotClass: Option<string>)

  /** `create_snapshot`'s manifest for `claim` at time `stamp`. */
  function BuildManifest(claim: Claim, stamp: DateTime): (r: Manifest)
    requires ValidDateTime(stamp)
    ensures r.apiVersion == SnapshotApiVersion && r.kind == SnapshotKind
    // ownership: the label and the source both name the claim
    ensures r.labels == map[SourceLabel := claim.name] && r.sourceClaim == claim.name
    // the class is carried over exactly when the annotation is non-empty
    ensures r.snapshotClass.Some? <==>
      SnapclassAnnotation in claim.annotations && claim.annotations[SnapclassAnnotation] != ""
    ensures r.snapshotClass.Some? ==> r.snapshotClass.value == claim.annotations[SnapclassAnnotation]
  {
    var name := claim.name + "-" + FormatStamp(stamp);
    var snapclass :=
      if SnapclassAnnotation in claim.annotations && claim.annotations[SnapclassAnnotation] != ""
      then Some(claim.annotations[SnapclassAnnotation]) else None;
    Manifest(SnapshotApiVersion, SnapshotKind, name, map[SourceLabel := claim.name], claim.name, snapclass)
  }

  /** The name is the claim name, a dash and the 19-character `strftime`
      timestamp of the stamp (dash-separated, zero-padded digits), and the
      time it was made at can be read back from it. */
  lemma ManifestNameStamp(claim: Claim, stamp: DateTime)
    requires ValidDateTime(stamp)
    ensures var name := BuildManifest(claim, stamp).name;
      |name| == |claim.name| + 20 &&
      name[..|claim.name|] == claim.name && name[|claim.name|] == '-' &&
      name[|claim.name| + 1..] == FormatStamp(stamp) &&
      ParseStamp(name[|claim.name| + 1..]) == stamp
  {
    var name := BuildManifest(claim, stamp).name;
    StampRoundTrip(stamp);
    assert name[|claim.name| + 1..] == FormatStamp(stamp);
  }

  /** Two passes at different seconds give the same claim's snapshots
      different names. */
  lemma {:induction false} ManifestNamesDistinct(claim: Claim, a: DateTime, b: DateTime)
    requires ValidDateTime(a) && ValidDateTime(b) && a != b
    ensures BuildManifest(claim, a).name != BuildManifest(claim, b).name
  {
    var na, nb := BuildManifest(claim, a).name, BuildManifest(claim, b).name;
    ManifestNameStamp(claim, a);
    ManifestNameStamp(claim, b);
    if na == nb {
      assert false;
    }
  }
}
