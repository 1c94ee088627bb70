/** The version history of one object (browser/app/version_mapper.py): the
    live record from the S3 gateway, one record per snapshot that holds the
    object as a file, merged into a deduplicated list numbered `v1` (oldest)
    to `vN` (newest) and returned newest first; and the reading of one
    version's content. The remote clients are inputs: the `head_object`
    result, the snapshot list and a `stat` function for the SFTP side. */
module Versions {
  import opened Wrappers
  import opened Text
  import opened Lists
  import opened Clock
  import opened Snapshots
  import opened S3Listing

  datatype VersionSource = Current | Snapshot

  /** `VersionSource(...).value`. */
  function SourceValue(s: VersionSource): string {
    match s
    case Current => "current"
    case Snapshot => "snapshot"
  }

  datatype VersionInfo = VersionInfo(
    versionId: string,
    source: VersionSource,
    size: nat,
    modifiedTime: Option<Instant>,
    etag: Option<string>,
    snapshotName: Option<string>,
    isCurrent: bool)

  // =======================================================================
  // to_dict

  /** The dictionary `to_dict` builds; the time stays an instant here
      (its ISO-8601 rendering is not modelled). */
  datatype VersionDict = VersionDict(
    versionId: string,
    source: string,
    size: nat,
    modifiedTime: Option<Instant>,
    etag: Option<string>,
    snapshotName: Option<string>,
    isCurrent: bool)

  function ToDict(v: VersionInfo): VersionDict {
    VersionDict(v.versionId, SourceValue(v.source), v.size, v.modifiedTime, v.etag, v.snapshotName, v.isCurrent)
  }

  /** Reading a dictionary back: `VersionSource(value)` rejects an unknown
      source. */
  function FromDict(d: VersionDict): Option<VersionInfo> {
    var source := if d.source == "current" then Some(Current)
                  else if d.source == "snapshot" then Some(Snapshot)
                  else None;
    match source
    case None => None
    case Some(s) => Some(VersionInfo(d.versionId, s, d.size, d.modifiedTime, d.etag, d.snapshotName, d.isCurrent))
  }

  /** `to_dict` loses nothing: every record is read back from its
      dictionary. */
  lemma ToDictRoundTrip(v: VersionInfo)
    ensures FromDict(ToDict(v)) == Some(v)
  {
    match v.source
    case Current =>
    case Snapshot =>
      assert SourceValue(v.source) != "current";
  }

  // =======================================================================
  // Record construction

  predicate IsCurrentRecord(v: VersionInfo) {
    v.isCurrent && v.source == Current && v.snapshotName.None?
  }

  predicate IsSnapshotRecord(v: VersionInfo) {
    !v.isCurrent && v.source == Snapshot && v.snapshotName.Some? && v.modifiedTime.Some?
  }

  /** A snapshot record as fetched, still named after its snapshot. */
  predicate IsFetchedSnapshot(v: VersionInfo) {
    IsSnapshotRecord(v) && v.versionId == v.snapshotName.value
  }

  /** `_get_current_version`: the live record, when `head_object` found
      the object. */
  function CurrentVersion(head: Option<ObjectMeta>): (r: Option<VersionInfo>)
    ensures r.Some? <==> head.Some?
    ensures r.Some? ==> IsCurrentRecord(r.value) && r.value.versionId == "current"
    ensures r.Some? ==> (r.value.size == head.value.size && r.value.modifiedTime == head.value.lastModified
                         && r.value.etag == Some(head.value.etag))
  {
    match head
    case None => None
    case Some(m) => Some(VersionInfo("current", Current, m.size, m.lastModified, Some(m.etag), None, true))
  }

  /** `_get_snapshot_version`: the record of the object in one snapshot,
      when it is there as a file. */
  function SnapshotVersion(cfg: Settings, bucket: string, key: string, snapshot: SnapshotInfo,
                           stat: string -> Option<FileAttrs>): (r: Option<VersionInfo>)
    ensures r.Some? <==> ObjectExistsInSnapshot(cfg, snapshot.name, bucket, key, stat)
    ensures r.Some? ==> IsFetchedSnapshot(r.value)
    ensures r.Some? ==> r.value.versionId == snapshot.name && r.value.snapshotName == Some(snapshot.name)
  {
    var info := StatSnapshotObject(cfg, snapshot.name, bucket, key, stat);
    if info.Some? && !info.value.isDir then
      Some(VersionInfo(snapshot.name, Snapshot, info.value.size, Some(info.value.modifiedTime),
                       None, Some(snapshot.name), false))
    else None
  }

  function SnapshotLookup(cfg: Settings, bucket: string, key: string,
                          stat: string -> Option<FileAttrs>): SnapshotInfo -> Option<VersionInfo> {
    s => SnapshotVersion(cfg, bucket, key, s, stat)
  }

  // =======================================================================
  // list_object_versions, as functions of its inputs

  /** `[v for v in results if v]`. */
  function Present(results: seq<Option<VersionInfo>>): (r: seq<VersionInfo>)
    ensures |r| <= |results|
    decreases |results|
  {
    if results == [] then []
    else (if results[0].Some? then [results[0].value] else []) + Present(results[1..])
  }

  /** The sort key of the snapshot records: mtime, `datetime.min` when absent. */
  function MtimeKey(v: VersionInfo): int {
    match v.modifiedTime
    case Some(t) => t
    case None => MinInstant
  }

  datatype Signature = Signature(size: nat, mtime: Option<Instant>)

  /** `(size, _normalize_datetime(modified_time))`. */
  function SignatureOf(v: VersionInfo): Signature {
    Signature(v.size, NormalizeDatetime(v.modifiedTime))
  }

  function CurrentSignature(current: Option<VersionInfo>): Option<Signature> {
    match current
    case None => None
    case Some(c) => Some(SignatureOf(c))
  }

  /** The deduplication loop, from a set `seen` of signatures already met:
      a record is kept when its signature is new and is not the live one. */
  function Dedup(s: seq<VersionInfo>, currentSig: Option<Signature>, seen: set<Signature>): seq<VersionInfo>
    decreases |s|
  {
    if s == [] then []
    else
      var sig := SignatureOf(s[0]);
      if sig in seen || Some(sig) == currentSig then Dedup(s[1..], currentSig, seen)
      else [s[0]] + Dedup(s[1..], currentSig, seen + {sig})
  }

  /** The records before numbering: kept snapshots, oldest first, then the
      live record. */
  function Merge(current: Option<VersionInfo>, sorted: seq<VersionInfo>): seq<VersionInfo> {
    WithCurrent(Dedup(sorted, CurrentSignature(current), {}), current)
  }

  /** Appending the live record, when there is one. */
  function WithCurrent(kept: seq<VersionInfo>, current: Option<VersionInfo>): seq<VersionInfo> {
    kept + (if current.Some? then [current.value] else [])
  }

  /** The id given to the `i`-th record, counting from 1. */
  function VersionId(i: nat, isCurrent: bool): string {
    "v" + DecimalString(i) + (if isCurrent then " (current)" else "")
  }

  function Renamed(v: VersionInfo, i: nat): VersionInfo {
    v.(versionId := VersionId(i, v.isCurrent))
  }

  /** The numbering loop. */
  function Renumber(vs: seq<VersionInfo>): (r: seq<VersionInfo>)
    ensures |r| == |vs|
  {
    seq(|vs|, i requires 0 <= i < |vs| => Renamed(vs[i], i + 1))
  }

  /** `list(reversed(s))`. */
  function Reverse<T>(s: seq<T>): (r: seq<T>)
    ensures |r| == |s|
  {
    seq(|s|, i requires 0 <= i < |s| => s[|s| - 1 - i])
  }

  /** The sorted snapshot records of the per-snapshot results. */
  function SortedSnapshots(results: seq<Option<VersionInfo>>): seq<VersionInfo> {
    SortBy(Present(results), MtimeKey)
  }

  /** The records before numbering, for the inputs `list_object_versions`
      fetched. */
  function Merged(current: Option<VersionInfo>, results: seq<Option<VersionInfo>>): seq<VersionInfo> {
    Merge(current, SortedSnapshots(results))
  }

  /** What `list_object_versions` returns for a live record and the
      per-snapshot results. */
  function History(current: Option<VersionInfo>, results: seq<Option<VersionInfo>>): seq<VersionInfo> {
    Reverse(Renumber(Merged(current, results)))
  }

  // =======================================================================
  // list_object_versions, step by step

  /** `list_object_versions`: fetch the live record and one result per
      snapshot, sort, deduplicate, append the live record, number, reverse. */
  method ListObjectVersions(cfg: Settings, bucket: string, key: string, head: Option<ObjectMeta>,
                            snapshots: seq<SnapshotInfo>, stat: string -> Option<FileAttrs>)
    returns (versions: seq<VersionInfo>)
    ensures versions == History(CurrentVersion(head), Map(snapshots, SnapshotLookup(cfg, bucket, key, stat)))
  {
    var currentVersion := CurrentVersion(head);
    var snapshotResults := Map(snapshots, SnapshotLookup(cfg, bucket, key, stat));
    var snapshotVersions := Present(snapshotResults);
    snapshotVersions := SortBy(snapshotVersions, MtimeKey);

    var currentSignature: Option<Signature> := None;
    if currentVersion.Some? {
      currentSignature := Some(Signature(currentVersion.value.size,
                                         NormalizeDatetime(currentVersion.value.modifiedTime)));
    }
    assert currentSignature == CurrentSignature(currentVersion);

    var uniqueVersions := DeduplicateSnapshots(snapshotVersions, currentSignature);

    if currentVersion.Some? {
      uniqueVersions := uniqueVersions + [currentVersion.value];
    }
    ghost var merged := uniqueVersions;
    assert snapshotVersions == SortedSnapshots(snapshotResults);
    assert merged == Merged(currentVersion, snapshotResults);

    uniqueVersions := NumberVersions(uniqueVersions);
    versions := Reverse(uniqueVersions);
  }

  /** The deduplication loop of `list_object_versions`. */
  method DeduplicateSnapshots(sorted: seq<VersionInfo>, currentSig: Option<Signature>)
    returns (uniqueVersions: seq<VersionInfo>)
    ensures uniqueVersions == Dedup(sorted, currentSig, {})
  {
    uniqueVersions := [];
    var seenSignatures: set<Signature> := {};
    for k := 0 to |sorted|
      invariant uniqueVersions + Dedup(sorted[k..], currentSig, seenSignatures)
             == Dedup(sorted, currentSig, {})
    {
      var version := sorted[k];
      DedupStep(sorted, k, currentSig, seenSignatures);
      var signature := Signature(version.size, NormalizeDatetime(version.modifiedTime));
      if signature in seenSignatures {
        continue;
      }
      if Some(signature) == currentSig {
        continue;
      }
      seenSignatures := seenSignatures + {signature};
      uniqueVersions := uniqueVersions + [version];
    }

  }

  /** The numbering loop of `list_object_versions`. */
  method NumberVersions(vs: seq<VersionInfo>) returns (numbered: seq<VersionInfo>)
    ensures numbered == Renumber(vs)
  {
    var uniqueVersions := vs;
    for i := 0 to |uniqueVersions|
      invariant |uniqueVersions| == |vs|
      invariant forall j :: 0 <= j < i ==> uniqueVersions[j] == Renamed(vs[j], j + 1)
      invariant forall j :: i <= j < |vs| ==> uniqueVersions[j] == vs[j]
    {
      var version := uniqueVersions[i];
      if version.isCurrent {
        uniqueVersions := uniqueVersions[i := version.(versionId := "v" + DecimalString(i + 1) + " (current)")];
      } else {
        assert VersionId(i + 1, false) == "v" + DecimalString(i + 1);
        uniqueVersions := uniqueVersions[i := version.(versionId := "v" + DecimalString(i + 1))];
      }
    }
    

    numbered := uniqueVersions;
  }

  /** One turn of the deduplication loop. */
  lemma DedupStep(s: seq<VersionInfo>, k: nat, currentSig: Option<Signature>, seen: set<Signature>)
    requires k < |s|
    ensures var sig := SignatureOf(s[k]);
      Dedup(s[k..], currentSig, seen)
      == if sig in seen || Some(sig) == currentSig then Dedup(s[k + 1..], currentSig, seen)
         else [s[k]] + Dedup(s[k + 1..], currentSig, seen + {sig})
  {
    assert s[k..][0] == s[k];
    assert s[k..][1..] == s[k + 1..];
  }

  // =======================================================================
  // Properties of the deduplication

  /** The record at `i` is the first of its signature in `s`, the
      signature was not met before, and it is not the live one. */
  predicate KeptAt(s: seq<VersionInfo>, i: int, currentSig: Option<Signature>, seen: set<Signature>)
    requires 0 <= i < |s|
  {
    && SignatureOf(s[i]) !in seen
    && Some(SignatureOf(s[i])) != currentSig
    && forall j :: 0 <= j < i ==> SignatureOf(s[j]) != SignatureOf(s[i])
  }

  /** The kept records are exactly the first records of each new signature
      other than the live one. */
  lemma {:induction false} DedupMembers(s: seq<VersionInfo>, currentSig: Option<Signature>, seen: set<Signature>)
    ensures forall x :: x in Dedup(s, currentSig, seen) <==>
      exists i :: 0 <= i < |s| && x == s[i] && KeptAt(s, i, currentSig, seen)
    decreases |s|
  {
    if s != [] {
      var sig := SignatureOf(s[0]);
      var t := s[1..];
      if sig in seen || Some(sig) == currentSig {
        DedupMembers(t, currentSig, seen);
        forall x ensures x in Dedup(s, currentSig, seen) <==>
          exists i :: 0 <= i < |s| && x == s[i] && KeptAt(s, i, currentSig, seen)
        {
          if x in Dedup(s, currentSig, seen) {
            assert x in Dedup(t, currentSig, seen);
            var i :| 0 <= i < |t| && x == t[i] && KeptAt(t, i, currentSig, seen);
            assert KeptAt(s, i + 1, currentSig, seen);
          }
          if exists i :: 0 <= i < |s| && x == s[i] && KeptAt(s, i, currentSig, seen) {
            var i :| 0 <= i < |s| && x == s[i] && KeptAt(s, i, currentSig, seen);
            assert i != 0;
            assert KeptAt(t, i - 1, currentSig, seen);
          }
        }
      } else {
        var seen' := seen + {sig};
        DedupMembers(t, currentSig, seen');
        forall x ensures x in Dedup(s, currentSig, seen) <==>
          exists i :: 0 <= i < |s| && x == s[i] && KeptAt(s, i, currentSig, seen)
        {
          if x in Dedup(s, currentSig, seen) && x != s[0] {
            assert Dedup(s, currentSig, seen) == [s[0]] + Dedup(t, currentSig, seen');
            assert x in Dedup(t, currentSig, seen');
            var i :| 0 <= i < |t| && x == t[i] && KeptAt(t, i, currentSig, seen');
            assert forall j :: 1 <= j < i + 1 ==> s[j] == t[j - 1];
            assert KeptAt(s, i + 1, currentSig, seen);
          } else if x == s[0] {
            assert KeptAt(s, 0, currentSig, seen);
          }
          if exists i :: 0 <= i < |s| && x == s[i] && KeptAt(s, i, currentSig, seen) {
            var i :| 0 <= i < |s| && x == s[i] && KeptAt(s, i, currentSig, seen);
            if i != 0 {
              assert KeptAt(t, i - 1, currentSig, seen');
            }
          }
        }
      }
    }
  }

  /** The kept records have pairwise different signatures, none of them
      met before and none equal to the live one. */
  lemma {:induction false} DedupUnique(s: seq<VersionInfo>, currentSig: Option<Signature>, seen: set<Signature>)
    ensures forall i :: 0 <= i < |Dedup(s, currentSig, seen)| ==>
      && SignatureOf(Dedup(s, currentSig, seen)[i]) !in seen
      && Some(SignatureOf(Dedup(s, currentSig, seen)[i])) != currentSig
    ensures forall i, j :: 0 <= i < j < |Dedup(s, currentSig, seen)| ==>
      SignatureOf(Dedup(s, currentSig, seen)[i]) != SignatureOf(Dedup(s, currentSig, seen)[j])
    decreases |s|
  {
    if s != [] {
      var sig := SignatureOf(s[0]);
      if sig in seen || Some(sig) == currentSig {
        DedupUnique(s[1..], currentSig, seen);
      } else {
        var d, r := Dedup(s, currentSig, seen), Dedup(s[1..], currentSig, seen + {sig});
        DedupUnique(s[1..], currentSig, seen + {sig});
        assert forall i :: 1 <= i < |d| ==> d[i] == r[i - 1];
      }
    }
  }

  /** Every kept record comes from the input. */
  lemma {:induction false} DedupSubset(s: seq<VersionInfo>, currentSig: Option<Signature>, seen: set<Signature>)
    ensures forall x :: x in Dedup(s, currentSig, seen) ==> x in s
    ensures |Dedup(s, currentSig, seen)| <= |s|
    decreases |s|
  {
    if s != [] {
      var sig := SignatureOf(s[0]);
      if sig in seen || Some(sig) == currentSig {
        DedupSubset(s[1..], currentSig, seen);
      } else {
        DedupSubset(s[1..], currentSig, seen + {sig});
      }
    }
  }

  /** Deduplication keeps the order of a sorted input. */
  lemma {:induction false} DedupSorted(s: seq<VersionInfo>, currentSig: Option<Signature>, seen: set<Signature>)
    requires SortedBy(s, MtimeKey)
    ensures SortedBy(Dedup(s, currentSig, seen), MtimeKey)
    decreases |s|
  {
    if s != [] {
      var sig := SignatureOf(s[0]);
      var seen' := if sig in seen || Some(sig) == currentSig then seen else seen + {sig};
      DedupSorted(s[1..], currentSig, seen');
      DedupSubset(s[1..], currentSig, seen');
      var rest := Dedup(s[1..], currentSig, seen');
      forall x | x in rest ensures MtimeKey(s[0]) <= MtimeKey(x) {
        var j :| 0 <= j < |s[1..]| && s[1..][j] == x;
        assert x == s[j + 1];
      }
    }
  }

  // =======================================================================
  // Properties of the history

  /** What the two fetches can produce: a live record, and snapshot records. */
  predicate WellFormedInputs(current: Option<VersionInfo>, results: seq<Option<VersionInfo>>) {
    && (current.Some? ==> IsCurrentRecord(current.value))
    && forall i :: 0 <= i < |results| && results[i].Some? ==> IsFetchedSnapshot(results[i].value)
  }

  /** The inputs `list_object_versions` fetches are well formed. */
  lemma FetchedInputsWellFormed(cfg: Settings, bucket: string, key: string, head: Option<ObjectMeta>,
                                snapshots: seq<SnapshotInfo>, stat: string -> Option<FileAttrs>)
    ensures WellFormedInputs(CurrentVersion(head), Map(snapshots, SnapshotLookup(cfg, bucket, key, stat)))
  {
  }

  lemma {:induction false} PresentMembers(results: seq<Option<VersionInfo>>)
    ensures forall x :: x in Present(results) <==> Some(x) in results
    decreases |results|
  {
    if results != [] {
      PresentMembers(results[1..]);
      assert forall y :: y in results <==> y == results[0] || y in results[1..];
    }
  }

  lemma SortedSnapshotsFacts(results: seq<Option<VersionInfo>>)
    requires forall i :: 0 <= i < |results| && results[i].Some? ==> IsFetchedSnapshot(results[i].value)
    ensures SortedBy(SortedSnapshots(results), MtimeKey)
    ensures forall x :: x in SortedSnapshots(results) <==> Some(x) in results
    ensures forall x :: x in SortedSnapshots(results) ==> IsFetchedSnapshot(x)
    ensures |SortedSnapshots(results)| <= |results|
  {
    var p := Present(results);
    SortByCorrect(p, MtimeKey);
    PresentMembers(results);
    forall x ensures x in SortedSnapshots(results) <==> x in p {
      assert x in SortedSnapshots(results) <==> x in multiset(SortedSnapshots(results));
      assert x in p <==> x in multiset(p);
    }
    forall x | x in SortedSnapshots(results) ensures IsSnapshotRecord(x) {
      var i :| 0 <= i < |results| && results[i] == Some(x);
    }
  }

  /** The merged records: the kept snapshot records oldest first, then the
      live record. */
  lemma MergeFacts(current: Option<VersionInfo>, results: seq<Option<VersionInfo>>)
    requires WellFormedInputs(current, results)
    ensures forall i :: 0 <= i < |Merged(current, results)| ==>
      (Merged(current, results)[i].isCurrent <==> current.Some? && i == |Merged(current, results)| - 1)
    ensures current.Some? ==>
      |Merged(current, results)| > 0 && Merged(current, results)[|Merged(current, results)| - 1] == current.value
    ensures forall i :: 0 <= i < |Merged(current, results)| && !Merged(current, results)[i].isCurrent ==>
      && Merged(current, results)[i] == Dedup(SortedSnapshots(results), CurrentSignature(current), {})[i]
      && IsFetchedSnapshot(Merged(current, results)[i])
      && Some(Merged(current, results)[i]) in results
      && Some(SignatureOf(Merged(current, results)[i])) != CurrentSignature(current)
    ensures forall i, j :: 0 <= i < j < |Merged(current, results)|
                           && !Merged(current, results)[i].isCurrent && !Merged(current, results)[j].isCurrent ==>
      && SignatureOf(Merged(current, results)[i]) != SignatureOf(Merged(current, results)[j])
      && MtimeKey(Merged(current, results)[i]) <= MtimeKey(Merged(current, results)[j])
    ensures |Dedup(SortedSnapshots(results), CurrentSignature(current), {})|
            == |Merged(current, results)| - (if current.Some? then 1 else 0)
    ensures |Merged(current, results)| <= |results| + (if current.Some? then 1 else 0)
  {
    var sorted := SortedSnapshots(results);
    var cs := CurrentSignature(current);
    var d := Dedup(sorted, cs, {});
    var m := Merged(current, results);
    SortedSnapshotsFacts(results);
    DedupSubset(sorted, cs, {});
    DedupUnique(sorted, cs, {});
    DedupSorted(sorted, cs, {});
    assert forall i :: 0 <= i < |d| ==> m[i] == d[i];
    assert forall i :: 0 <= i < |d| ==> d[i] in sorted && IsFetchedSnapshot(d[i]);
  }

  /** The `i`-th returned record is the `(n - i)`-th merged record under its
      new id. */
  lemma HistoryIsReversedMerge(current: Option<VersionInfo>, results: seq<Option<VersionInfo>>)
    ensures |History(current, results)| == |Merged(current, results)|
    ensures forall i :: 0 <= i < |History(current, results)| ==>
      History(current, results)[i]
      == Renamed(Merged(current, results)[|Merged(current, results)| - 1 - i], |Merged(current, results)| - i)
  {
  }

  /** Numbering and reversing turn kept records with distinct signatures
      in ascending mtime order into ones in descending order. */
  lemma NumberedOrder(d: seq<VersionInfo>, current: Option<VersionInfo>)
    requires forall j :: 0 <= j < |d| ==> !d[j].isCurrent
    requires current.Some? ==> current.value.isCurrent
    requires forall i, j :: 0 <= i < j < |d| ==> SignatureOf(d[i]) != SignatureOf(d[j]) && MtimeKey(d[i]) <= MtimeKey(d[j])
    ensures forall i, j :: 0 <= i < j < |Reverse(Renumber(WithCurrent(d, current)))|
                           && !Reverse(Renumber(WithCurrent(d, current)))[i].isCurrent
                           && !Reverse(Renumber(WithCurrent(d, current)))[j].isCurrent ==>
      && SignatureOf(Reverse(Renumber(WithCurrent(d, current)))[i]) != SignatureOf(Reverse(Renumber(WithCurrent(d, current)))[j])
      && MtimeKey(Reverse(Renumber(WithCurrent(d, current)))[i]) >= MtimeKey(Reverse(Renumber(WithCurrent(d, current)))[j])
    ensures forall i :: 0 <= i < |Reverse(Renumber(WithCurrent(d, current)))|
                        && !Reverse(Renumber(WithCurrent(d, current)))[i].isCurrent ==>
      exists j :: 0 <= j < |d| && SignatureOf(Reverse(Renumber(WithCurrent(d, current)))[i]) == SignatureOf(d[j])
  {
    var m := WithCurrent(d, current);
    var h := Reverse(Renumber(m));
    forall i, j | 0 <= i < j < |h| && !h[i].isCurrent && !h[j].isCurrent
      ensures SignatureOf(h[i]) != SignatureOf(h[j]) && MtimeKey(h[i]) >= MtimeKey(h[j])
    {
      var a, b := |m| - 1 - j, |m| - 1 - i;
      assert h[i] == Renamed(m[b], b + 1) && h[j] == Renamed(m[a], a + 1);
      assert b < |d| && a < |d|;
    }
    forall i | 0 <= i < |h| && !h[i].isCurrent
      ensures exists j :: 0 <= j < |d| && SignatureOf(h[i]) == SignatureOf(d[j])
    {
      var b := |m| - 1 - i;
      assert h[i] == Renamed(m[b], b + 1);
      assert b < |d| && SignatureOf(h[i]) == SignatureOf(d[b]);
    }
  }

  /** No two snapshot records in the history share a signature, none shares
      the live record's signature, and they run newest first, a missing
      mtime counting as the least. */
  lemma HistorySnapshots(current: Option<VersionInfo>, results: seq<Option<VersionInfo>>)
    requires WellFormedInputs(current, results)
    ensures forall i, j :: 0 <= i < j < |History(current, results)|
                           && !History(current, results)[i].isCurrent && !History(current, results)[j].isCurrent ==>
      && SignatureOf(History(current, results)[i]) != SignatureOf(History(current, results)[j])
      && MtimeKey(History(current, results)[i]) >= MtimeKey(History(current, results)[j])
    ensures current.Some? ==>
      forall i :: 0 <= i < |History(current, results)| && !History(current, results)[i].isCurrent ==>
        SignatureOf(History(current, results)[i]) != SignatureOf(current.value)
  {
    var sorted := SortedSnapshots(results);
    var cs := CurrentSignature(current);
    var d := Dedup(sorted, cs, {});
    SortedSnapshotsFacts(results);
    DedupSubset(sorted, cs, {});
    DedupUnique(sorted, cs, {});
    DedupSorted(sorted, cs, {});
    forall j | 0 <= j < |d| ensures !d[j].isCurrent {
      assert d[j] in d;
      assert d[j] in sorted;
    }
    assert History(current, results) == Reverse(Renumber(WithCurrent(d, current)));
    NumberedOrder(d, current);
  }

  /** The record as it was fetched, before renumbering gave it a new id. */
  function AsFetched(v: VersionInfo): VersionInfo {
    match v.snapshotName
    case Some(n) => v.(versionId := n)
    case None => v.(versionId := "current")
  }

  /** At most one record is the live one: the first, exactly when the
      object exists live; every other record is a snapshot record fetched
      for the object, and the history is at most one longer than the
      snapshot list. */
  lemma HistoryCurrentFirst(current: Option<VersionInfo>, results: seq<Option<VersionInfo>>)
    requires WellFormedInputs(current, results)
    ensures forall i :: 0 <= i < |History(current, results)| && History(current, results)[i].isCurrent ==> i == 0
    ensures current.Some? <==> (|History(current, results)| > 0 && History(current, results)[0].isCurrent)
    ensures current.Some? ==> History(current, results)[0] == Renamed(current.value, |History(current, results)|)
    ensures forall i :: 0 <= i < |History(current, results)| && !History(current, results)[i].isCurrent ==>
      IsSnapshotRecord(History(current, results)[i]) && Some(AsFetched(History(current, results)[i])) in results
    ensures |History(current, results)| <= |results| + 1
  {
    MergeFacts(current, results);
    HistoryIsReversedMerge(current, results);
    var m := Merged(current, results);
    var h := History(current, results);
    forall i | 0 <= i < |h| && !h[i].isCurrent
      ensures IsSnapshotRecord(h[i]) && Some(AsFetched(h[i])) in results
    {
      var x := m[|m| - 1 - i];
      assert AsFetched(h[i]) == x;
    }
  }

  /** The ids read `v{n}`, ..., `v1` in returned order, with ` (current)`
      on the live record only. */
  lemma HistoryIds(current: Option<VersionInfo>, results: seq<Option<VersionInfo>>)
    ensures forall i :: 0 <= i < |History(current, results)| ==>
      History(current, results)[i].versionId
      == VersionId(|History(current, results)| - i, History(current, results)[i].isCurrent)
  {
    HistoryIsReversedMerge(current, results);
  }

  /** An id ends in `)` when it is the live one's, in a digit otherwise. */
  lemma VersionIdEnd(i: nat, isCurrent: bool)
    ensures var id := VersionId(i, isCurrent);
      |id| > 0 && (if isCurrent then id[|id| - 1] == ')' else IsDigit(id[|id| - 1]))
  {
  }

  /** Different positions or flags give different ids. */
  lemma VersionIdInjective(a: nat, b: nat, ca: bool, cb: bool)
    requires VersionId(a, ca) == VersionId(b, cb)
    ensures a == b && ca == cb
  {
    var da, db := DecimalString(a), DecimalString(b);
    var suffix := " (current)";
    if ca && cb {
      assert |da| == |db|;
      assert VersionId(a, ca)[1..|da| + 1] == da;
      assert VersionId(b, cb)[1..|db| + 1] == db;
      DecimalStringInjective(a, b);
    } else if !ca && !cb {
      assert VersionId(a, ca) == "v" + da && VersionId(b, cb) == "v" + db;
      assert VersionId(a, ca)[1..] == da;
      assert VersionId(b, cb)[1..] == db;
      DecimalStringInjective(a, b);
    } else {
      VersionIdEnd(a, ca);
      VersionIdEnd(b, cb);
      assert false;
    }
  }

  /** Every id in a history is different. */
  lemma HistoryIdsDistinct(current: Option<VersionInfo>, results: seq<Option<VersionInfo>>)
    ensures forall i, j :: 0 <= i < j < |History(current, results)| ==>
      History(current, results)[i].versionId != History(current, results)[j].versionId
  {
    HistoryIds(current, results);
    var h := History(current, results);
    forall i, j | 0 <= i < j < |h| ensures h[i].versionId != h[j].versionId {
      if h[i].versionId == h[j].versionId {
        VersionIdInjective(|h| - i, |h| - j, h[i].isCurrent, h[j].isCurrent);
      }
    }
  }

  /** Renumbering a fetched snapshot record loses nothing but its id. */
  lemma RenamedBack(v: VersionInfo, i: nat)
    requires IsFetchedSnapshot(v)
    ensures !Renamed(v, i).isCurrent && AsFetched(Renamed(v, i)) == v
  {
  }

  /** The snapshot records of a numbered and reversed merge are, once
      their ids are restored, the kept snapshot records. */
  lemma NumberedSnapshots(d: seq<VersionInfo>, current: Option<VersionInfo>, x: VersionInfo)
    requires forall j :: 0 <= j < |d| ==> IsFetchedSnapshot(d[j])
    requires current.Some? ==> current.value.isCurrent
    ensures (exists i :: 0 <= i < |Reverse(Renumber(WithCurrent(d, current)))|
                         && !Reverse(Renumber(WithCurrent(d, current)))[i].isCurrent
                         && AsFetched(Reverse(Renumber(WithCurrent(d, current)))[i]) == x)
        <==> x in d
  {
    var m := WithCurrent(d, current);
    var h := Reverse(Renumber(m));
    if exists i :: 0 <= i < |h| && !h[i].isCurrent && AsFetched(h[i]) == x {
      var i :| 0 <= i < |h| && !h[i].isCurrent && AsFetched(h[i]) == x;
      NumberedEntry(d, current, i);
      RenamedBack(d[|m| - 1 - i], |m| - i);
    }
    if x in d {
      var j :| 0 <= j < |d| && d[j] == x;
      NumberedEntry(d, current, |m| - 1 - j);
      RenamedBack(d[j], j + 1);
    }
  }

  /** Entry `i` of a numbered and reversed merge: a renamed kept record, or
      the live one. */
  lemma NumberedEntry(d: seq<VersionInfo>, current: Option<VersionInfo>, i: int)
    requires current.Some? ==> current.value.isCurrent
    requires 0 <= i < |WithCurrent(d, current)|
    ensures |WithCurrent(d, current)| - 1 - i < |d| ==>
      Reverse(Renumber(WithCurrent(d, current)))[i] == Renamed(d[|WithCurrent(d, current)| - 1 - i], |WithCurrent(d, current)| - i)
    ensures |WithCurrent(d, current)| - 1 - i >= |d| ==>
      Reverse(Renumber(WithCurrent(d, current)))[i].isCurrent
  {
    var m := WithCurrent(d, current);
    var j := |m| - 1 - i;
    assert Reverse(Renumber(m))[i] == Renumber(m)[j] == Renamed(m[j], j + 1);
  }


  /** Of the fetched snapshot records, the history holds exactly those that
      come first in the sorted order among records of their signature and
      do not share the live signature. */
  lemma HistoryKeepsFirstOfEachSignature(current: Option<VersionInfo>, results: seq<Option<VersionInfo>>, x: VersionInfo)
    requires WellFormedInputs(current, results)
    ensures (exists i :: 0 <= i < |History(current, results)| && !History(current, results)[i].isCurrent
                         && AsFetched(History(current, results)[i]) == x)
        <==> (exists k :: 0 <= k < |SortedSnapshots(results)| && x == SortedSnapshots(results)[k]
                          && KeptAt(SortedSnapshots(results), k, CurrentSignature(current), {}))
  {
    var sorted := SortedSnapshots(results);
    var cs := CurrentSignature(current);
    var d := Dedup(sorted, cs, {});
    SortedSnapshotsFacts(results);
    DedupMembers(sorted, cs, {});
    DedupSubset(sorted, cs, {});
    assert forall j :: 0 <= j < |d| ==> d[j] in sorted;
    assert History(current, results) == Reverse(Renumber(WithCurrent(d, current)));
    NumberedSnapshots(d, current, x);
  }

  // =======================================================================
  // get_version_content

  type Bytes = seq<bv8>

  /** Where a version's content is read from. */
  datatype ContentRoute = Live | FromSnapshot(name: string)

  /** The test `get_version_content` uses to pick the live store. */
  predicate IsCurrentId(versionId: string) {
    versionId == "current" || EndsWith(versionId, "(current)")
  }

  /** A read that fails: the object or the snapshot file could not be
      read (the exception the client raises). */
  datatype ReadError = ObjectUnavailable | FileUnavailable(path: string)

  /** Reading the content and building the record for a route. `liveBytes`
      is what `get_object_bytes` returns (`None` when it raises), `head` what
      `head_object` returns, `readFile` what reading a snapshot file at a
      path returns. */
  function ReadRoute(cfg: Settings, bucket: string, key: string, route: ContentRoute,
                     liveBytes: Option<Bytes>, head: Option<ObjectMeta>,
                     readFile: string -> Option<Bytes>, stat: string -> Option<FileAttrs>)
    : (r: Result<(Bytes, VersionInfo), ReadError>)
    ensures r.Ok? ==> r.value.1.size == |r.value.0|
    ensures route.Live? ==> (r.Ok? <==> liveBytes.Some?)
    ensures route.Live? && r.Ok? ==>
      && r.value.0 == liveBytes.value
      && IsCurrentRecord(r.value.1) && r.value.1.versionId == "current"
      && r.value.1.etag == (if head.Some? then Some(head.value.etag) else None)
    ensures route.FromSnapshot? ==>
      (r.Ok? <==> readFile(SnapshotObjectPath(cfg, route.name, bucket, key)).Some?)
    ensures route.FromSnapshot? && r.Ok? ==>
      && r.value.0 == readFile(SnapshotObjectPath(cfg, route.name, bucket, key)).value
      && r.value.1.source == Snapshot && !r.value.1.isCurrent
      && r.value.1.versionId == route.name && r.value.1.snapshotName == Some(route.name)
  {
    match route
    case Live =>
      (match liveBytes
       case None => Err(ObjectUnavailable)
       case Some(content) =>
         Ok((content, VersionInfo("current", Current, |content|,
                                  if head.Some? then head.value.lastModified else None,
                                  if head.Some? then Some(head.value.etag) else None,
                                  None, true))))
    case FromSnapshot(name) =>
      var path := SnapshotObjectPath(cfg, name, bucket, key);
      match readFile(path)
      case None => Err(FileUnavailable(path))
      case Some(content) =>
        var info := StatSnapshotObject(cfg, name, bucket, key, stat);
        Ok((content, VersionInfo(name, Snapshot, |content|,
                                 if info.Some? then Some(info.value.modifiedTime) else None,
                                 None, Some(name), false)))
  }

  /** The route `get_version_content` takes for an id: the live store for
      `current` and for ids ending in `(current)`, otherwise the snapshot
      named by the id itself. */
  function RouteOf(versionId: string): ContentRoute {
    if IsCurrentId(versionId) then Live else FromSnapshot(versionId)
  }

  /** `get_version_content`, as written. */
  function GetVersionContent(cfg: Settings, bucket: string, key: string, versionId: string,
                             liveBytes: Option<Bytes>, head: Option<ObjectMeta>,
                             readFile: string -> Option<Bytes>, stat: string -> Option<FileAttrs>)
    : (r: Result<(Bytes, VersionInfo), ReadError>)
    ensures r.Ok? ==> r.value.1.size == |r.value.0|
    ensures IsCurrentId(versionId) ==> (r.Ok? <==> liveBytes.Some?)
    ensures IsCurrentId(versionId) && r.Ok? ==> r.value.0 == liveBytes.value && r.value.1.isCurrent
    ensures !IsCurrentId(versionId) ==>
      (r.Ok? <==> readFile(SnapshotObjectPath(cfg, versionId, bucket, key)).Some?)
    ensures !IsCurrentId(versionId) && r.Ok? ==>
      && r.value.0 == readFile(SnapshotObjectPath(cfg, versionId, bucket, key)).value
      && !r.value.1.isCurrent && r.value.1.snapshotName == Some(versionId)
  {
    ReadRoute(cfg, bucket, key, RouteOf(versionId), liveBytes, head, readFile, stat)
  }

  /** A numbered id selects the live store exactly when it carries the
      ` (current)` suffix. */
  lemma VersionIdRoute(n: nat, isCurrent: bool)
    ensures IsCurrentId(VersionId(n, isCurrent)) <==> isCurrent
  {
    var id := VersionId(n, isCurrent);
    VersionIdEnd(n, isCurrent);
    if isCurrent {
      assert id[|id| - |"(current)"|..] == "(current)";
    } else {
      assert id[0] == 'v';
      assert IsDigit(id[|id| - 1]);
    }
  }

  /** The ids of a history select the live store exactly on the live
      record. */
  lemma HistoryIdsRouteLive(current: Option<VersionInfo>, results: seq<Option<VersionInfo>>)
    ensures forall i :: 0 <= i < |History(current, results)| ==>
      (IsCurrentId(History(current, results)[i].versionId) <==> History(current, results)[i].isCurrent)
  {
    HistoryIds(current, results);
    var h := History(current, results);
    forall i | 0 <= i < |h| ensures IsCurrentId(h[i].versionId) <==> h[i].isCurrent {
      VersionIdRoute(|h| - i, h[i].isCurrent);
    }
  }

  /** A history of one snapshot record and no live object: the record is
      numbered `v1`, and `get_version_content` on `v1` reads the file of a
      snapshot named `v1`, which is a different path from the record's own
      snapshot. */
  lemma RenumberedIdReadsWrongSnapshot(cfg: Settings, bucket: string, key: string, x: VersionInfo)
    requires IsFetchedSnapshot(x) && x.snapshotName.value != "v1"
    ensures History(None, [Some(x)]) == [x.(versionId := "v1")]
    ensures RouteOf("v1") == FromSnapshot("v1")
    ensures SnapshotObjectPath(cfg, "v1", bucket, key) != SnapshotObjectPath(cfg, x.snapshotName.value, bucket, key)
  {
    assert Present([Some(x)]) == [x];
    assert SortBy([x], MtimeKey) == Insert(x, SortBy([], MtimeKey), MtimeKey);
    assert SortedSnapshots([Some(x)]) == [x];
    assert Dedup([x], None, {}) == [x];
    assert Merged(None, [Some(x)]) == [x];
    assert DecimalString(1) == "1";
    assert VersionId(1, false) == "v1";
    assert !EndsWith("v1", "(current)");
    if SnapshotObjectPath(cfg, "v1", bucket, key) == SnapshotObjectPath(cfg, x.snapshotName.value, bucket, key) {
      ObjectPathNamesSnapshot(cfg, "v1", x.snapshotName.value, bucket, key);
    }
  }

  /** The first record of a history with the given id. */
  function Lookup(history: seq<VersionInfo>, versionId: string): (r: Option<VersionInfo>)
    ensures r.Some? ==> r.value in history && r.value.versionId == versionId
    ensures r.None? ==> forall v :: v in history ==> v.versionId != versionId
  {
    if history == [] then None
    else if history[0].versionId == versionId then Some(history[0])
    else Lookup(history[1..], versionId)
  }

  /** The route for an id of a listed history: the live store for the live
      record, the record's own snapshot for a snapshot record; an id the
      history does not hold is routed as before, so raw ids still work. */
  function ResolveVersion(history: seq<VersionInfo>, versionId: string): ContentRoute {
    match Lookup(history, versionId)
    case None => RouteOf(versionId)
    case Some(v) =>
      if v.isCurrent || v.snapshotName.None? then Live else FromSnapshot(v.snapshotName.value)
  }

  /** `get_version_content`, resolving the id against the history it was
      listed in. */
  function GetHistoryVersionContent(history: seq<VersionInfo>, cfg: Settings, bucket: string, key: string,
                                    versionId: string, liveBytes: Option<Bytes>, head: Option<ObjectMeta>,
                                    readFile: string -> Option<Bytes>, stat: string -> Option<FileAttrs>)
    : (r: Result<(Bytes, VersionInfo), ReadError>)
    ensures r.Ok? ==> r.value.1.size == |r.value.0|
    ensures ResolveVersion(history, versionId).Live? ==> (r.Ok? <==> liveBytes.Some?)
    ensures ResolveVersion(history, versionId).FromSnapshot? ==>
      (r.Ok? <==> readFile(SnapshotObjectPath(cfg, ResolveVersion(history, versionId).name, bucket, key)).Some?)
  {
    ReadRoute(cfg, bucket, key, ResolveVersion(history, versionId), liveBytes, head, readFile, stat)
  }

  /** With distinct ids, looking up a record's id finds that record. */
  lemma {:induction false} LookupFinds(history: seq<VersionInfo>, i: nat)
    requires i < |history|
    requires forall a, b :: 0 <= a < b < |history| ==> history[a].versionId != history[b].versionId
    ensures Lookup(history, history[i].versionId) == Some(history[i])
  {
    if i > 0 {
      assert history[0].versionId != history[i].versionId;
      assert history[1..][i - 1] == history[i];
      LookupFinds(history[1..], i - 1);
    }
  }

  /** Every id of a listed history is resolved to its own record: the live
      store for the live record, and the snapshot the record was found in
      for every other. */
  lemma ResolvedHistoryIds(current: Option<VersionInfo>, results: seq<Option<VersionInfo>>, i: nat)
    requires WellFormedInputs(current, results)
    requires i < |History(current, results)|
    ensures History(current, results)[i].isCurrent ==>
      ResolveVersion(History(current, results), History(current, results)[i].versionId) == Live
    ensures !History(current, results)[i].isCurrent ==>
      && History(current, results)[i].snapshotName.Some?
      && ResolveVersion(History(current, results), History(current, results)[i].versionId)
         == FromSnapshot(History(current, results)[i].snapshotName.value)
  {
    HistoryIdsDistinct(current, results);
    HistoryCurrentFirst(current, results);
    LookupFinds(History(current, results), i);
  }
}
