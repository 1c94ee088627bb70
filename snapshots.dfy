/** The snapshot catalogue of the SFTP client (browser/app/sftp_client.py):
    parsing a timestamp out of a snapshot name, the paths of a snapshot's
    mirrored root and of an object inside it, and the listing of snapshots
    and of the objects under a snapshot prefix. The SFTP session is not
    modelled: a directory listing is an input (`None` when `readdir`
    raised) and `stat` is a function from path to attributes (`None` when
    it raised). */
module Snapshots {
  import opened Wrappers
  import opened Text
  import opened Lists
  import opened Clock
  import PosixPath

  /** The two settings the client reads: the snapshot directory and the
      name of the mirrored root inside every snapshot. */
  datatype Settings = Settings(snapshotDir: string, s3RootPrefix: string)

  datatype SnapshotInfo = SnapshotInfo(name: string, timestamp: Option<CivilTime>)

  /** SFTP attributes: size and mtime (whole seconds) may be absent. */
  datatype FileAttrs = FileAttrs(size: Option<nat>, mtime: Option<nat>, isDir: bool)

  datatype DirEntry = DirEntry(filename: string, attrs: FileAttrs)

  datatype FileInfo = FileInfo(path: string, name: string, size: nat, modifiedTime: Instant, isDir: bool)

  // =======================================================================
  // SnapshotInfo.from_name

  /** The three patterns, in the order they are tried:
      `.*_(\d{4}-\d{2}-\d{2})_(\d{2})`, `.*_(\d{4}-\d{2}-\d{2})`, `.*_(\d{4}-\d{2})`. */
  datatype Pattern = DateHour | DateOnly | YearMonth

  const Patterns: seq<Pattern> := [DateHour, DateOnly, YearMonth]

  /** What each pattern requires after its `_`; `D` stands for a digit. */
  function Shape(p: Pattern): string {
    match p
    case DateHour => "DDDD-DD-DD_DD"
    case DateOnly => "DDDD-DD-DD"
    case YearMonth => "DDDD-DD"
  }

  /** Character `c` is what position `d` of a shape asks for. */
  predicate FitsChar(c: char, d: char) {
    if d == 'D' then IsDigit(c) else c == d
  }

  /** The characters of `s` from index `i` follow `shape`. */
  predicate Fits(s: string, i: nat, shape: string) {
    i + |shape| <= |s| && forall k :: 0 <= k < |shape| ==> FitsChar(s[i + k], shape[k])
  }

  /** The pattern's `_` and groups match at index `i` of `s`. */
  predicate MatchesAt(s: string, i: nat, p: Pattern) {
    i < |s| && s[i] == '_' && Fits(s, i + 1, Shape(p))
  }

  /** The first line break at or after `start`, or the end of `s`. */
  function LineEnd(s: string, start: nat): (e: nat)
    requires start <= |s|
    ensures start <= e <= |s|
    ensures e < |s| ==> s[e] == '\n'
    ensures forall j :: start <= j < e ==> s[j] != '\n'
    decreases |s| - start
  {
    if start == |s| || s[start] == '\n' then start else LineEnd(s, start + 1)
  }

  /** The largest index in `[lo, hi)` where the pattern matches. */
  function LastMatchIn(s: string, p: Pattern, lo: nat, hi: nat): (r: Option<nat>)
    ensures r.Some? ==> lo <= r.value < hi && MatchesAt(s, r.value, p)
    ensures r.Some? ==> forall j :: r.value < j < hi ==> !MatchesAt(s, j, p)
    ensures r.None? ==> forall j :: lo <= j < hi ==> !MatchesAt(s, j, p)
    decreases hi - lo
  {
    if hi <= lo then None
    else if MatchesAt(s, hi - 1, p) then Some(hi - 1)
    else LastMatchIn(s, p, lo, hi - 1)
  }

  /** `re.search` with a pattern that starts with a greedy `.*`: the first
      start position that can match lies in the first line holding a match
      (`.` does not cross a line break), and from there `.*` reaches the
      LAST `_` in that line that the rest of the pattern fits. */
  function SearchFrom(s: string, p: Pattern, start: nat): (r: Option<nat>)
    requires start <= |s|
    ensures r.Some? ==> start <= r.value && MatchesAt(s, r.value, p)
    ensures r.None? ==> forall j :: start <= j < |s| ==> !MatchesAt(s, j, p)
    decreases |s| - start
  {
    var e := LineEnd(s, start);
    match LastMatchIn(s, p, start, e)
    case Some(i) => Some(i)
    case None =>
      if e < |s| then
        var r := SearchFrom(s, p, e + 1);
        assert !MatchesAt(s, e, p);
        r
      else None
  }

  function Search(s: string, p: Pattern): Option<nat> {
    SearchFrom(s, p, 0)
  }

  function DigitValue(c: char): nat {
    if IsDigit(c) then (c as int) - ('0' as int) else 0
  }

  /** The two-digit number written at index `i` of `s`. */
  function Number2(s: string, i: nat): nat
    requires i + 2 <= |s|
  {
    DigitValue(s[i]) * 10 + DigitValue(s[i + 1])
  }

  /** The four-digit number written at index `i` of `s`. */
  function Number4(s: string, i: nat): nat
    requires i + 4 <= |s|
  {
    Number2(s, i) * 100 + Number2(s, i + 2)
  }

  /** What `datetime.strptime` makes of the matched groups (with format
      `%Y-%m-%d_%H`, `%Y-%m-%d` or `%Y-%m`); `None` is its `ValueError`. */
  function Strptime(s: string, i: nat, p: Pattern): (r: Option<CivilTime>)
    requires MatchesAt(s, i, p)
    ensures r.Some? ==> ValidCivil(r.value)
  {
    var year, month := Number4(s, i + 1), Number2(s, i + 6);
    var t :=
      match p
      case DateHour => CivilTime(year, month, Number2(s, i + 9), Number2(s, i + 12))
      case DateOnly => CivilTime(year, month, Number2(s, i + 9), 0)
      case YearMonth => CivilTime(year, month, 1, 0);
    if ValidCivil(t) then Some(t) else None
  }

  /** One round of the `for pattern in patterns` loop: the parsed time, or
      `None` when the pattern does not match or the date is invalid. */
  function TryPattern(s: string, p: Pattern): (r: Option<CivilTime>)
    ensures r.Some? ==> ValidCivil(r.value)
  {
    match Search(s, p)
    case None => None
    case Some(i) => Strptime(s, i, p)
  }

  /** The first of `ps` that yields a time. */
  function FirstParse(s: string, ps: seq<Pattern>): (r: Option<CivilTime>)
    ensures r.Some? ==> ValidCivil(r.value)
    decreases |ps|
  {
    if ps == [] then None
    else match TryPattern(s, ps[0])
      case Some(t) => Some(t)
      case None => FirstParse(s, ps[1..])
  }

  /** The timestamp `from_name` extracts from a snapshot name. */
  function ParseStamp(name: string): Option<CivilTime> {
    FirstParse(name, Patterns)
  }

  /** `SnapshotInfo.from_name`. */
  method FromName(name: string) returns (info: SnapshotInfo)
    ensures info.name == name
    ensures info.timestamp == ParseStamp(name)
  {
    var timestamp: Option<CivilTime> := None;
    for k := 0 to |Patterns|
      invariant FirstParse(name, Patterns[k..]) == ParseStamp(name)
      invariant timestamp == None
    {
      var m := Search(name, Patterns[k]);
      if m.Some? {
        var parsed := Strptime(name, m.value, Patterns[k]);
        if parsed.Some? {
          timestamp := parsed;
          break;
        }
      }
      assert Patterns[k..][1..] == Patterns[k + 1..];
    }
    info := SnapshotInfo(name, timestamp);
  }

  // =======================================================================
  // Paths

  /** `_snapshot_base_path`. */
  function SnapshotBasePath(cfg: Settings): string {
    cfg.snapshotDir
  }

  predicate HasNoRootPrefix(cfg: Settings) {
    cfg.s3RootPrefix == "." || cfg.s3RootPrefix == ""
  }

  /** `_snapshot_root`: where the live root is mirrored inside a snapshot. */
  function SnapshotRoot(cfg: Settings, name: string): (r: string)
    ensures StartsWith(r, SnapshotBasePath(cfg) + "/" + name)
  {
    var top := SnapshotBasePath(cfg) + "/" + name;
    if HasNoRootPrefix(cfg) then top else top + "/" + cfg.s3RootPrefix
  }

  /** `_snapshot_object_path`. */
  function SnapshotObjectPath(cfg: Settings, name: string, bucket: string, key: string): (r: string)
    ensures StartsWith(r, SnapshotRoot(cfg, name) + "/")
  {
    SnapshotRoot(cfg, name) + "/" + bucket + "/" + key
  }

  /** `stat_snapshot_object`: `stat` on the object's path inside the
      snapshot, with absent size and mtime read as 0. */
  function StatSnapshotObject(cfg: Settings, name: string, bucket: string, key: string,
                              stat: string -> Option<FileAttrs>): (r: Option<FileInfo>)
    ensures r.Some? <==> stat(SnapshotObjectPath(cfg, name, bucket, key)).Some?
    ensures r.Some? ==> (r.value.path == SnapshotObjectPath(cfg, name, bucket, key)
                         && r.value.isDir == stat(SnapshotObjectPath(cfg, name, bucket, key)).value.isDir)
  {
    var path := SnapshotObjectPath(cfg, name, bucket, key);
    match stat(path)
    case None => None
    case Some(a) =>
      Some(FileInfo(path, PosixPath.Name(PosixPath.Parse(key)),
                    SizeOrZero(a), FromTimestamp(MtimeOrZero(a)), a.isDir))
  }

  function SizeOrZero(a: FileAttrs): nat {
    match a.size case Some(n) => n case None => 0
  }

  function MtimeOrZero(a: FileAttrs): nat {
    match a.mtime case Some(n) => n case None => 0
  }

  /** `object_exists_in_snapshot`. */
  function ObjectExistsInSnapshot(cfg: Settings, name: string, bucket: string, key: string,
                                  stat: string -> Option<FileAttrs>): (r: bool)
    ensures r <==> (var a := stat(SnapshotObjectPath(cfg, name, bucket, key));
                    a.Some? && !a.value.isDir)
  {
    var info := StatSnapshotObject(cfg, name, bucket, key, stat);
    info.Some? && !info.value.isDir
  }

  // =======================================================================
  // list_snapshots

  /** A directory entry that `list_snapshots` keeps: not a dot entry, and its
      mirrored root can be stat'ed and is a directory. */
  predicate IsSnapshotEntry(cfg: Settings, e: DirEntry, stat: string -> Option<FileAttrs>) {
    && !StartsWith(e.filename, ".")
    && stat(SnapshotRoot(cfg, e.filename)).Some?
    && stat(SnapshotRoot(cfg, e.filename)).value.isDir
  }

  /** `SnapshotInfo.from_name(entry.filename)`. */
  function SnapshotOf(e: DirEntry): SnapshotInfo {
    SnapshotInfo(e.filename, ParseStamp(e.filename))
  }

  function KeepsSnapshot(cfg: Settings, stat: string -> Option<FileAttrs>): DirEntry -> bool {
    e => IsSnapshotEntry(cfg, e, stat)
  }

  /** The snapshots gathered from `es`, in listing order, before sorting. */
  function Candidates(cfg: Settings, es: seq<DirEntry>, stat: string -> Option<FileAttrs>): (r: seq<SnapshotInfo>)
    ensures |r| <= |es|
    decreases |es|
  {
    if es == [] then []
    else
      var e := es[|es| - 1];
      Candidates(cfg, es[..|es| - 1], stat)
        + (if IsSnapshotEntry(cfg, e, stat) then [SnapshotOf(e)] else [])
  }

  /** The sort key of `list_snapshots`: `(timestamp is not None, timestamp)`
      with `reverse=True`, as an ascending integer key. */
  function NewestFirstKey(s: SnapshotInfo): int {
    match s.timestamp
    case None => 0
    case Some(t) => -(CivilKey(t) + 1)
  }

  /** `list_snapshots`. */
  method ListSnapshots(cfg: Settings, listing: Option<seq<DirEntry>>, stat: string -> Option<FileAttrs>)
    returns (snapshots: seq<SnapshotInfo>)
    ensures listing.None? ==> snapshots == []
    ensures listing.Some? ==> snapshots == SortBy(Candidates(cfg, listing.value, stat), NewestFirstKey)
  {
    snapshots := [];
    if listing.Some? {
      var entries := listing.value;
      for k := 0 to |entries|
        invariant snapshots == Candidates(cfg, entries[..k], stat)
      {
        var entry := entries[k];
        assert entries[..k + 1][..k] == entries[..k];
        if StartsWith(entry.filename, ".") {
          continue;
        }
        var snapshotPath := SnapshotBasePath(cfg) + "/" + entry.filename;
        if !HasNoRootPrefix(cfg) {
          snapshotPath := snapshotPath + "/" + cfg.s3RootPrefix;
        }
        assert snapshotPath == SnapshotRoot(cfg, entry.filename);
        var attrs := stat(snapshotPath);
        if attrs.Some? && attrs.value.isDir {
          var info := FromName(entry.filename);
          snapshots := snapshots + [info];
        }
      }
      assert entries[..|entries|] == entries;
    }
    snapshots := SortBy(snapshots, NewestFirstKey);
    assert SortBy([], NewestFirstKey) == [];
  }

  // =======================================================================
  // list_snapshot_objects

  /** The directory `list_snapshot_objects` reads. */
  function ObjectsBase(cfg: Settings, name: string, bucket: string, prefix: string): string {
    var base := SnapshotRoot(cfg, name) + "/" + bucket;
    if prefix != "" then base + "/" + RStrip(prefix, '/') else base
  }

  predicate IsVisible(e: DirEntry) {
    !StartsWith(e.filename, ".")
  }

  function EntryInfoAt(base: string): DirEntry -> FileInfo {
    e => EntryInfo(base, e)
  }

  function EntryInfo(base: string, e: DirEntry): FileInfo {
    FileInfo(base + "/" + e.filename, e.filename, SizeOrZero(e.attrs),
             FromTimestamp(MtimeOrZero(e.attrs)), e.attrs.isDir)
  }

  /** The objects listed from `es`, in listing order. */
  function ObjectsOf(base: string, es: seq<DirEntry>): (r: seq<FileInfo>)
    ensures |r| <= |es|
    decreases |es|
  {
    if es == [] then []
    else
      var e := es[|es| - 1];
      ObjectsOf(base, es[..|es| - 1])
        + (if StartsWith(e.filename, ".") then [] else [EntryInfo(base, e)])
  }

  /** `list_snapshot_objects`. */
  method ListSnapshotObjects(cfg: Settings, name: string, bucket: string, prefix: string,
                             listing: Option<seq<DirEntry>>)
    returns (objects: seq<FileInfo>)
    ensures listing.None? ==> objects == []
    ensures listing.Some? ==> objects == ObjectsOf(ObjectsBase(cfg, name, bucket, prefix), listing.value)
  {
    var basePath := SnapshotRoot(cfg, name) + "/" + bucket;
    if prefix != "" {
      basePath := basePath + "/" + RStrip(prefix, '/');
    }
    objects := [];
    if listing.Some? {
      var entries := listing.value;
      for k := 0 to |entries|
        invariant objects == ObjectsOf(basePath, entries[..k])
      {
        var entry := entries[k];
        assert entries[..k + 1][..k] == entries[..k];
        if StartsWith(entry.filename, ".") {
          continue;
        }
        objects := objects + [EntryInfo(basePath, entry)];
      }
      assert entries[..|entries|] == entries;
    }
  }

  // =======================================================================
  // Properties of from_name

  /** The largest matching index below `hi` is the one `LastMatchIn` finds. */
  lemma {:induction false} LastMatchInIs(s: string, p: Pattern, lo: nat, hi: nat, i: nat)
    requires lo <= i < hi && MatchesAt(s, i, p)
    requires forall j :: i < j < hi ==> !MatchesAt(s, j, p)
    ensures LastMatchIn(s, p, lo, hi) == Some(i)
    decreases hi
  {
    if hi - 1 != i {
      LastMatchInIs(s, p, lo, hi - 1, i);
    }
  }

  /** On a one-line name the greedy `.*` makes the search pick the LAST
      position where the pattern fits, and it finds one whenever there is
      one. */
  lemma SearchSingleLine(s: string, p: Pattern)
    requires '\n' !in s
    ensures Search(s, p) == LastMatchIn(s, p, 0, |s|)
    ensures Search(s, p).Some? ==> forall j :: Search(s, p).value < j < |s| ==> !MatchesAt(s, j, p)
    ensures Search(s, p).None? <==> forall j :: 0 <= j < |s| ==> !MatchesAt(s, j, p)
  {
    assert LineEnd(s, 0) == |s|;
  }

  /** A name without `_` carries no timestamp. */
  lemma NoUnderscoreNoStamp(name: string)
    requires '_' !in name
    ensures ParseStamp(name) == None
  {
    forall p: Pattern ensures Search(name, p) == None {
    }
  }

  /** Every pattern starts with `_DDDD-DD`: a name that yields a timestamp
      contains a year-month group after an underscore. */
  lemma StampNeedsYearMonth(name: string)
    requires ParseStamp(name).Some?
    ensures exists i :: MatchesAt(name, i, YearMonth)
  {
    var p :| p in Patterns && Search(name, p).Some?;
    var i := Search(name, p).value;
    assert forall k :: 0 <= k < |Shape(YearMonth)| ==> Shape(YearMonth)[k] == Shape(p)[k];
    assert MatchesAt(name, i, YearMonth);
  }

  /** The search result on a one-line name whose last match is at `i`. */
  lemma SearchAt(s: string, p: Pattern, i: nat)
    requires '\n' !in s
    requires MatchesAt(s, i, p)
    requires forall j :: i < j < |s| ==> !MatchesAt(s, j, p)
    ensures Search(s, p) == Some(i)
    ensures TryPattern(s, p) == Strptime(s, i, p)
  {
    LastMatchInIs(s, p, 0, |s|, i);
    assert LineEnd(s, 0) == |s|;
  }

  /** `ParseStamp` tries the patterns in order. */
  lemma ParseStampInOrder(s: string)
    ensures ParseStamp(s) ==
      if TryPattern(s, DateHour).Some? then TryPattern(s, DateHour)
      else if TryPattern(s, DateOnly).Some? then TryPattern(s, DateOnly)
      else TryPattern(s, YearMonth)
  {
    assert Patterns[1..] == [DateOnly, YearMonth];
    assert Patterns[1..][1..] == [YearMonth];
  }

  // -----------------------------------------------------------------------
  // Round trips: names written in the documented formats

  /** A snapshot label such as `daily`, `hourly` or `custom_backup`: one
      line, and no `_` in it is followed by a digit, so that no pattern
      can match inside it. */
  predicate IsKind(kind: string) {
    && '\n' !in kind
    && forall k :: 0 <= k < |kind| - 1 && kind[k] == '_' ==> !IsDigit(kind[k + 1])
  }

  function Pad2(n: nat): string
    requires n < 100
  {
    [Digit(n / 10), Digit(n % 10)]
  }

  function Pad4(n: nat): string
    requires n < 10000
  {
    Pad2(n / 100) + Pad2(n % 100)
  }

  /** `YYYY-MM`. */
  function MonthText(t: CivilTime): string
    requires ValidCivil(t)
  {
    Pad4(t.year) + "-" + Pad2(t.month)
  }

  /** `YYYY-MM-DD`. */
  function DateText(t: CivilTime): string
    requires ValidCivil(t)
  {
    MonthText(t) + "-" + Pad2(t.day)
  }

  /** `YYYY-MM-DD_HH`, for any two-digit hour. */
  function HourText(t: CivilTime, hour: nat): string
    requires ValidCivil(t) && hour < 100
  {
    DateText(t) + "_" + Pad2(hour)
  }

  lemma DigitRoundTrip(d: nat)
    requires d < 10
    ensures IsDigit(Digit(d)) && DigitValue(Digit(d)) == d
  {
  }

  lemma Pad2Read(s: string, i: nat, n: nat)
    requires n < 100 && i + 2 <= |s| && s[i] == Pad2(n)[0] && s[i + 1] == Pad2(n)[1]
    ensures Number2(s, i) == n
    ensures IsDigit(s[i]) && IsDigit(s[i + 1])
  {
    DigitRoundTrip(n / 10);
    DigitRoundTrip(n % 10);
  }

  /** The text after `kind_` in each name format, and where the `_` of a
      date-with-hour name sits. */
  lemma {:induction false} StampTextShape(t: CivilTime, hour: nat)
    requires ValidCivil(t) && hour < 100
    ensures |MonthText(t)| == 7 && |DateText(t)| == 10
    ensures forall k :: 0 <= k < 7 ==> FitsChar(MonthText(t)[k], Shape(YearMonth)[k])
    ensures forall k :: 0 <= k < 10 ==> FitsChar(DateText(t)[k], Shape(DateOnly)[k])
    ensures var h := DateText(t) + "_" + Pad2(hour);
      forall k :: 0 <= k < 13 ==> FitsChar(h[k], Shape(DateHour)[k])
  {
    var y, m, d := Pad4(t.year), Pad2(t.month), Pad2(t.day);
    forall n: nat | n < 10 ensures IsDigit(Digit(n)) {
      DigitRoundTrip(n);
    }
  }

  /** The written forms contain no `_` of their own, except the one
      before the hour. */
  lemma {:induction false} TextUnderscores(t: CivilTime, hour: nat)
    requires ValidCivil(t) && hour < 100
    ensures '_' !in MonthText(t) && '_' !in DateText(t)
    ensures |MonthText(t)| == 7 && |DateText(t)| == 10 && |HourText(t, hour)| == 13
    ensures '\n' !in MonthText(t) && '\n' !in DateText(t) && '\n' !in HourText(t, hour)
    ensures forall k :: 0 <= k < |HourText(t, hour)| && HourText(t, hour)[k] == '_' ==> k == 10
  {
    forall n: nat | n < 100 ensures '_' !in Pad2(n) && '\n' !in Pad2(n) {
      DigitRoundTrip(n / 10);
      DigitRoundTrip(n % 10);
    }
    var y := Pad4(t.year);
    assert y == Pad2(t.year / 100) + Pad2(t.year % 100);
    assert '_' !in y && '\n' !in y;
    assert MonthText(t) == y + "-" + Pad2(t.month);
    assert DateText(t) == MonthText(t) + "-" + Pad2(t.day);
    assert '_' !in Pad2(hour) && '\n' !in Pad2(hour);
  }

  /** A name `kind_` followed by `body`, where `body` has no `_` except
      possibly one that leaves fewer than seven characters after it. */
  lemma {:induction false} OnlyMatchAfterLabel(kind: string, body: string, p: Pattern)
    requires IsKind(kind) && '\n' !in body
    requires forall k :: 0 <= k < |body| && body[k] == '_' ==> |body| - k - 1 < 7
    ensures var s := kind + "_" + body;
      forall j :: |kind| < j < |s| ==> !MatchesAt(s, j, p)
    ensures var s := kind + "_" + body;
      forall j :: 0 <= j < |kind| ==> !MatchesAt(s, j, p)
  {
    var s := kind + "_" + body;
    forall j | |kind| < j < |s| ensures !MatchesAt(s, j, p) {
      if s[j] == '_' {
        assert s[j] == body[j - |kind| - 1];
      }
    }
    forall j | 0 <= j < |kind| ensures !MatchesAt(s, j, p) {
      assert s[j] == kind[j];
      if s[j] == '_' {
        assert Shape(p)[0] == 'D';
        if j < |kind| - 1 {
          assert s[j + 1] == kind[j + 1];
        } else {
          assert s[j + 1] == '_';
        }
      }
    }
  }

  /** The characters of `kind_` + `body` after the `_`. */
  lemma AfterKind(kind: string, body: string)
    ensures forall k :: 0 <= k < |body| ==> (kind + "_" + body)[|kind| + 1 + k] == body[k]
  {
  }

  lemma HourNameMatches(kind: string, t: CivilTime, hour: nat)
    requires IsKind(kind) && ValidCivil(t) && hour < 100
    ensures MatchesAt(kind + "_" + HourText(t, hour), |kind|, DateHour)
    ensures MatchesAt(kind + "_" + HourText(t, hour), |kind|, DateOnly)
  {
    TextUnderscores(t, hour);
    StampTextShape(t, hour);
    AfterKind(kind, HourText(t, hour));
  }

  /** In `kind_YYYY-MM-DD_HH` both date patterns match right after the
      kind. */
  lemma DateHourMatch(kind: string, t: CivilTime, hour: nat, p: Pattern)
    requires IsKind(kind) && ValidCivil(t) && hour < 100 && p != YearMonth
    ensures var s := kind + "_" + HourText(t, hour);
      MatchesAt(s, |kind|, p) && TryPattern(s, p) == Strptime(s, |kind|, p)
  {
    var body := HourText(t, hour);
    var s := kind + "_" + body;
    var i := |kind|;
    HourNameMatches(kind, t, hour);
    assert forall j :: i < j < |s| ==> !MatchesAt(s, j, p) by {
      TextUnderscores(t, hour);
      OnlyMatchAfterLabel(kind, body, p);
    }
    assert '\n' !in s by {
      TextUnderscores(t, hour);
    }
    SearchAt(s, p, i);
  }

  /** In `kind_YYYY-MM-DD_HH` the groups read back as the written numbers. */
  lemma DateHourNumbers(kind: string, t: CivilTime, hour: nat)
    requires ValidCivil(t) && hour < 100
    ensures var s := kind + "_" + HourText(t, hour);
      && |s| == |kind| + 14
      && Number4(s, |kind| + 1) == t.year && Number2(s, |kind| + 6) == t.month
      && Number2(s, |kind| + 9) == t.day && Number2(s, |kind| + 12) == hour
  {
    var body := HourText(t, hour);
    var s := kind + "_" + body;
    var i := |kind|;
    AfterKind(kind, body);
    assert forall k :: 0 <= k < 10 ==> body[k] == DateText(t)[k];
    ReadDate(s, i, t);
    assert s[i + 12] == body[11] && s[i + 13] == body[12];
    Pad2Read(s, i + 12, hour);
  }

  /** Reading back a time written as `kind_YYYY-MM-DD_HH`. */
  lemma HourlyRoundTrip(kind: string, t: CivilTime)
    requires IsKind(kind) && ValidCivil(t)
    ensures ParseStamp(kind + "_" + HourText(t, t.hour)) == Some(t)
  {
    DateHourMatch(kind, t, t.hour, DateHour);
    DateHourNumbers(kind, t, t.hour);
    ParseStampInOrder(kind + "_" + HourText(t, t.hour));
  }

  /** An hour outside 00..23 makes `strptime` fail on the first pattern,
      and the date-only pattern then reads the date from the same name. */
  lemma BadHourFallsBack(kind: string, t: CivilTime, hour: nat)
    requires IsKind(kind) && ValidCivil(t) && 24 <= hour < 100
    ensures ParseStamp(kind + "_" + HourText(t, hour)) == Some(CivilTime(t.year, t.month, t.day, 0))
  {
    DateHourMatch(kind, t, hour, DateHour);
    DateHourMatch(kind, t, hour, DateOnly);
    DateHourNumbers(kind, t, hour);
    ParseStampInOrder(kind + "_" + HourText(t, hour));
  }

  /** A pattern that matches nowhere yields no time. */
  lemma NoMatchNoStamp(s: string, p: Pattern)
    requires forall j :: 0 <= j < |s| ==> !MatchesAt(s, j, p)
    ensures TryPattern(s, p) == None
  {
  }

  /** Reading back a date written as `kind_YYYY-MM-DD`. */
  lemma DailyRoundTrip(kind: string, t: CivilTime)
    requires IsKind(kind) && ValidCivil(t)
    ensures ParseStamp(kind + "_" + DateText(t)) == Some(CivilTime(t.year, t.month, t.day, 0))
  {
    DateHasNoHour(kind, t);
    DateNameMatches(kind, t);
    DateMatchAfterLabel(kind, t);
    DateReadAfterLabel(kind, t);
    ParseStampInOrder(kind + "_" + DateText(t));
  }

  /** The date pattern matches at the `_` after the label. */
  lemma DateNameMatches(kind: string, t: CivilTime)
    requires ValidCivil(t)
    ensures MatchesAt(kind + "_" + DateText(t), |kind|, DateOnly)
  {
    StampTextShape(t, 0);
    AfterKind(kind, DateText(t));
  }

  /** `strptime` on the date after the label gives that date at midnight. */
  lemma DateReadAfterLabel(kind: string, t: CivilTime)
    requires ValidCivil(t) && MatchesAt(kind + "_" + DateText(t), |kind|, DateOnly)
    ensures Strptime(kind + "_" + DateText(t), |kind|, DateOnly) == Some(CivilTime(t.year, t.month, t.day, 0))
  {
    AfterKind(kind, DateText(t));
    ReadDate(kind + "_" + DateText(t), |kind|, t);
  }

  /** `kind_YYYY-MM-DD` has no `_DD_HH` anywhere. */
  lemma DateHasNoHour(kind: string, t: CivilTime)
    requires IsKind(kind) && ValidCivil(t)
    ensures TryPattern(kind + "_" + DateText(t), DateHour) == None
  {
    var body := DateText(t);
    var s := kind + "_" + body;
    TextUnderscores(t, 0);
    OnlyMatchAfterLabel(kind, body, DateHour);
    assert !MatchesAt(s, |kind|, DateHour);
    NoMatchNoStamp(s, DateHour);
  }

  /** In `kind_YYYY-MM-DD` the date pattern is found right after the label. */
  lemma DateMatchAfterLabel(kind: string, t: CivilTime)
    requires IsKind(kind) && ValidCivil(t)
    requires MatchesAt(kind + "_" + DateText(t), |kind|, DateOnly)
    ensures var s := kind + "_" + DateText(t); TryPattern(s, DateOnly) == Strptime(s, |kind|, DateOnly)
  {
    var body := DateText(t);
    var s := kind + "_" + body;
    var i := |kind|;
    StampTextShape(t, 0);
    AfterKind(kind, body);
    assert forall k :: 0 <= k < |body| ==> body[k] != '_';
    assert MatchesAt(s, i, DateOnly);
    OnlyMatchAfterLabel(kind, body, DateOnly);
    SearchAt(s, DateOnly, i);
  }

  /** Reading back a month written as `kind_YYYY-MM`: the first of the
      month at midnight. */
  lemma MonthlyRoundTrip(kind: string, t: CivilTime)
    requires IsKind(kind) && ValidCivil(t)
    ensures ParseStamp(kind + "_" + MonthText(t)) == Some(CivilTime(t.year, t.month, 1, 0))
  {
    MonthHasNoDate(kind, t);
    MonthNameMatches(kind, t);
    MonthMatchAfterLabel(kind, t);
    MonthReadAfterLabel(kind, t);
    ParseStampInOrder(kind + "_" + MonthText(t));
  }

  /** `kind_YYYY-MM` has no `_YYYY-MM-DD` anywhere. */
  lemma MonthHasNoDate(kind: string, t: CivilTime)
    requires IsKind(kind) && ValidCivil(t)
    ensures TryPattern(kind + "_" + MonthText(t), DateHour) == None
    ensures TryPattern(kind + "_" + MonthText(t), DateOnly) == None
  {
    var body := MonthText(t);
    var s := kind + "_" + body;
    TextUnderscores(t, 0);
    OnlyMatchAfterLabel(kind, body, DateHour);
    OnlyMatchAfterLabel(kind, body, DateOnly);
    assert !MatchesAt(s, |kind|, DateHour) && !MatchesAt(s, |kind|, DateOnly);
    NoMatchNoStamp(s, DateHour);
    NoMatchNoStamp(s, DateOnly);
  }

  /** In `kind_YYYY-MM` the month pattern is found right after the label. */
  lemma MonthMatchAfterLabel(kind: string, t: CivilTime)
    requires IsKind(kind) && ValidCivil(t)
    requires MatchesAt(kind + "_" + MonthText(t), |kind|, YearMonth)
    ensures var s := kind + "_" + MonthText(t); TryPattern(s, YearMonth) == Strptime(s, |kind|, YearMonth)
  {
    var body := MonthText(t);
    var s := kind + "_" + body;
    var i := |kind|;
    StampTextShape(t, 0);
    AfterKind(kind, body);
    assert forall k :: 0 <= k < |body| ==> body[k] != '_';
    assert MatchesAt(s, i, YearMonth);
    OnlyMatchAfterLabel(kind, body, YearMonth);
    SearchAt(s, YearMonth, i);
  }

  /** The month pattern matches at the `_` after the label. */
  lemma MonthNameMatches(kind: string, t: CivilTime)
    requires ValidCivil(t)
    ensures MatchesAt(kind + "_" + MonthText(t), |kind|, YearMonth)
  {
    StampTextShape(t, 0);
    AfterKind(kind, MonthText(t));
  }

  /** `strptime` on the month after the label gives its first day. */
  lemma MonthReadAfterLabel(kind: string, t: CivilTime)
    requires ValidCivil(t) && MatchesAt(kind + "_" + MonthText(t), |kind|, YearMonth)
    ensures Strptime(kind + "_" + MonthText(t), |kind|, YearMonth) == Some(CivilTime(t.year, t.month, 1, 0))
  {
    AfterKind(kind, MonthText(t));
    ReadMonth(kind + "_" + MonthText(t), |kind|, t);
  }

  /** The names of the unit tests of `from_name` read back as the dates
      those tests expect, labels with `_` included. */
  lemma CustomPrefixName()
    ensures ParseStamp("custom_backup_2025-11-15") == Some(CivilTime(2025, 11, 15, 0))
  {
    var t := CivilTime(2025, 11, 15, 0);
    CustomPrefixText();
    DailyRoundTrip("custom_backup", t);
  }

  lemma CustomPrefixText()
    ensures IsKind("custom_backup") && ValidCivil(CivilTime(2025, 11, 15, 0))
    ensures "custom_backup" + "_" + DateText(CivilTime(2025, 11, 15, 0)) == "custom_backup_2025-11-15"
  {
    var kind := "custom_backup";
    forall k | 0 <= k < |kind| - 1 && kind[k] == '_' ensures !IsDigit(kind[k + 1]) {
      assert k == 6;
    }
    assert DateText(CivilTime(2025, 11, 15, 0)) == "2025-11-15";
  }

  lemma MultipleUnderscoresName()
    ensures ParseStamp("auto_daily_backup_2025-06-15") == Some(CivilTime(2025, 6, 15, 0))
  {
    var t := CivilTime(2025, 6, 15, 0);
    MultipleUnderscoresText();
    DailyRoundTrip("auto_daily_backup", t);
  }

  lemma MultipleUnderscoresText()
    ensures IsKind("auto_daily_backup") && ValidCivil(CivilTime(2025, 6, 15, 0))
    ensures "auto_daily_backup" + "_" + DateText(CivilTime(2025, 6, 15, 0)) == "auto_daily_backup_2025-06-15"
  {
    var kind := "auto_daily_backup";
    forall k | 0 <= k < |kind| - 1 && kind[k] == '_' ensures !IsDigit(kind[k + 1]) {
      assert k == 4 || k == 10;
    }
    assert DateText(CivilTime(2025, 6, 15, 0)) == "2025-06-15";
  }

  lemma HourlyName()
    ensures ParseStamp("hourly_2025-12-01_14") == Some(CivilTime(2025, 12, 1, 14))
  {
    var t := CivilTime(2025, 12, 1, 14);
    HourlyText();
    HourlyRoundTrip("hourly", t);
  }

  lemma HourlyText()
    ensures IsKind("hourly") && ValidCivil(CivilTime(2025, 12, 1, 14))
    ensures "hourly" + "_" + HourText(CivilTime(2025, 12, 1, 14), 14) == "hourly_2025-12-01_14"
  {
    assert HourText(CivilTime(2025, 12, 1, 14), 14) == "2025-12-01_14";
  }

  /** The year, month and day written at `i + 1` of `s` read back. */
  lemma ReadDate(s: string, i: nat, t: CivilTime)
    requires ValidCivil(t)
    requires i + 11 <= |s| && forall k :: 0 <= k < 10 ==> s[i + 1 + k] == DateText(t)[k]
    ensures Number4(s, i + 1) == t.year && Number2(s, i + 6) == t.month && Number2(s, i + 9) == t.day
  {
    assert forall k :: 0 <= k < 7 ==> DateText(t)[k] == MonthText(t)[k];
    ReadMonth(s, i, t);
    assert s[i + 9] == DateText(t)[8] && s[i + 10] == DateText(t)[9];
    Pad2Read(s, i + 9, t.day);
  }

  /** The year and month written at `i + 1` of `s` read back. */
  lemma ReadMonth(s: string, i: nat, t: CivilTime)
    requires ValidCivil(t)
    requires i + 8 <= |s| && forall k :: 0 <= k < 7 ==> s[i + 1 + k] == MonthText(t)[k]
    ensures Number4(s, i + 1) == t.year && Number2(s, i + 6) == t.month
  {
    var m := MonthText(t);
    assert s[i + 1] == m[0] && s[i + 2] == m[1] && s[i + 3] == m[2] && s[i + 4] == m[3];
    assert s[i + 6] == m[5] && s[i + 7] == m[6];
    Pad2Read(s, i + 1, t.year / 100);
    Pad2Read(s, i + 3, t.year % 100);
    Pad2Read(s, i + 6, t.month);
  }

  // =======================================================================
  // Properties of list_snapshots

  /** The gathering loop keeps exactly the snapshot entries, in listing
      order. */
  lemma {:induction false} CandidatesAreKeptEntries(cfg: Settings, es: seq<DirEntry>, stat: string -> Option<FileAttrs>)
    ensures Candidates(cfg, es, stat) == Map(Filter(es, KeepsSnapshot(cfg, stat)), SnapshotOf)
    decreases |es|
  {
    if es != [] {
      var init, e := es[..|es| - 1], es[|es| - 1];
      CandidatesAreKeptEntries(cfg, init, stat);
      assert es == init + [e];
      FilterAppend(init, [e], KeepsSnapshot(cfg, stat));
      MapAppend(Filter(init, KeepsSnapshot(cfg, stat)), Filter([e], KeepsSnapshot(cfg, stat)), SnapshotOf);
    }
  }

  /** The valid timestamps of the gathered snapshots: each one is what
      `from_name` makes of an entry that `list_snapshots` keeps. */
  lemma CandidatesFromEntries(cfg: Settings, es: seq<DirEntry>, stat: string -> Option<FileAttrs>)
    ensures forall x :: x in Candidates(cfg, es, stat) <==>
      exists e :: e in es && IsSnapshotEntry(cfg, e, stat) && x == SnapshotOf(e)
  {
    var keep := KeepsSnapshot(cfg, stat);
    var f := Filter(es, keep);
    CandidatesAreKeptEntries(cfg, es, stat);
    FilterSubset(es, keep);
    FilterComplete(es, keep);
    forall x | x in Candidates(cfg, es, stat)
      ensures exists e :: e in es && IsSnapshotEntry(cfg, e, stat) && x == SnapshotOf(e)
    {
      var i :| 0 <= i < |f| && x == Map(f, SnapshotOf)[i];
      assert f[i] in f && keep(f[i]);
    }
    forall e | e in es && IsSnapshotEntry(cfg, e, stat)
      ensures SnapshotOf(e) in Candidates(cfg, es, stat)
    {
      assert keep(e);
      var i :| 0 <= i < |f| && f[i] == e;
      assert Map(f, SnapshotOf)[i] == SnapshotOf(e);
    }
  }

  /** What `list_snapshots` returns: exactly the snapshots of the kept
      entries; dated ones before undated ones; dated ones newest first;
      and snapshots that compare equal (all undated ones, or two with the
      same time) in listing order, since Python's sort is stable. */
  lemma ListedSnapshots(cfg: Settings, es: seq<DirEntry>, stat: string -> Option<FileAttrs>)
    ensures var r := SortBy(Candidates(cfg, es, stat), NewestFirstKey);
      forall x :: x in r <==> exists e :: e in es && IsSnapshotEntry(cfg, e, stat) && x == SnapshotOf(e)
    ensures var r := SortBy(Candidates(cfg, es, stat), NewestFirstKey);
      forall i, j :: 0 <= i < j < |r| && r[i].timestamp.None? ==> r[j].timestamp.None?
    ensures var r := SortBy(Candidates(cfg, es, stat), NewestFirstKey);
      forall i, j :: 0 <= i < j < |r| && r[i].timestamp.Some? && r[j].timestamp.Some? ==>
        !CivilBefore(r[i].timestamp.value, r[j].timestamp.value)
    ensures var c := Candidates(cfg, es, stat);
      forall k :: WithKey(SortBy(c, NewestFirstKey), NewestFirstKey, k) == WithKey(c, NewestFirstKey, k)
  {
    var c := Candidates(cfg, es, stat);
    var r := SortBy(c, NewestFirstKey);
    SortByCorrect(c, NewestFirstKey);
    CandidatesFromEntries(cfg, es, stat);
    assert forall x :: x in r <==> x in c by {
      forall x ensures x in r <==> x in c {
        assert x in r <==> x in multiset(r);
        assert x in c <==> x in multiset(c);
      }
    }
    assert forall i :: 0 <= i < |r| && r[i].timestamp.Some? ==> ValidCivil(r[i].timestamp.value) by {
      forall i | 0 <= i < |r| && r[i].timestamp.Some? ensures ValidCivil(r[i].timestamp.value) {
        assert r[i] in r;
        var e :| e in es && IsSnapshotEntry(cfg, e, stat) && r[i] == SnapshotOf(e);
      }
    }
    forall i, j | 0 <= i < j < |r| && r[i].timestamp.Some? && r[j].timestamp.Some?
      ensures !CivilBefore(r[i].timestamp.value, r[j].timestamp.value)
    {
      CivilKeyOrder(r[i].timestamp.value, r[j].timestamp.value);
      assert NewestFirstKey(r[i]) <= NewestFirstKey(r[j]);
    }
    forall i, j | 0 <= i < j < |r| && r[i].timestamp.None?
      ensures r[j].timestamp.None?
    {
      assert NewestFirstKey(r[i]) <= NewestFirstKey(r[j]);
      if r[j].timestamp.Some? {
        CivilKeyOrder(r[j].timestamp.value, r[j].timestamp.value);
      }
    }
    forall k ensures WithKey(r, NewestFirstKey, k) == WithKey(c, NewestFirstKey, k) {
      SortByStable(c, NewestFirstKey, k);
    }
  }

  // =======================================================================
  // Properties of list_snapshot_objects

  /** The listing keeps exactly the visible entries, in listing order. */
  lemma {:induction false} ObjectsAreVisibleEntries(base: string, es: seq<DirEntry>)
    ensures ObjectsOf(base, es) == Map(Filter(es, IsVisible), EntryInfoAt(base))
    decreases |es|
  {
    if es != [] {
      var init, e := es[..|es| - 1], es[|es| - 1];
      ObjectsAreVisibleEntries(base, init);
      assert es == init + [e];
      FilterAppend(init, [e], IsVisible);
      MapAppend(Filter(init, IsVisible), Filter([e], IsVisible), EntryInfoAt(base));
    }
  }

  /** Each listed object is a visible entry, named after it, at
      `base/<name>`, and every visible entry is listed. */
  lemma ListedObjects(base: string, es: seq<DirEntry>)
    ensures forall o :: o in ObjectsOf(base, es) ==>
      && o.path == base + "/" + o.name
      && !StartsWith(o.name, ".")
      && exists e :: e in es && e.filename == o.name && o == EntryInfo(base, e)
    ensures forall e :: e in es && IsVisible(e) ==> EntryInfo(base, e) in ObjectsOf(base, es)
  {
    var f := Filter(es, IsVisible);
    ObjectsAreVisibleEntries(base, es);
    FilterSubset(es, IsVisible);
    FilterComplete(es, IsVisible);
    forall o | o in ObjectsOf(base, es)
      ensures && o.path == base + "/" + o.name
              && !StartsWith(o.name, ".")
              && exists e :: e in es && e.filename == o.name && o == EntryInfo(base, e)
    {
      var i :| 0 <= i < |f| && o == Map(f, EntryInfoAt(base))[i];
      assert f[i] in f && IsVisible(f[i]);
    }
    forall e | e in es && IsVisible(e)
      ensures EntryInfo(base, e) in ObjectsOf(base, es)
    {
      var i :| 0 <= i < |f| && f[i] == e;
      assert Map(f, EntryInfoAt(base))[i] == EntryInfo(base, e);
    }
  }

  /** A listed object lies where `stat_snapshot_object` looks for the key
      `prefix + name`, when the prefix is empty or ends in one `/`. */
  lemma ListedPathIsObjectPath(cfg: Settings, name: string, bucket: string, prefix: string, e: DirEntry)
    requires prefix == "" || (EndsWith(prefix, "/") && !EndsWith(prefix, "//"))
    ensures EntryInfo(ObjectsBase(cfg, name, bucket, prefix), e).path
         == SnapshotObjectPath(cfg, name, bucket, prefix + e.filename)
  {
    if prefix != "" {
      var p := prefix[..|prefix| - 1];
      assert prefix == p + "/";
      assert RStrip(prefix, '/') == p by {
        assert prefix[..|prefix| - 1] == p;
        if |prefix| >= 2 {
          assert prefix[|prefix| - 2..] != "//";
          assert p[|p| - 1] == prefix[|prefix| - 2];
        }
      }
    }
  }

  /** Two snapshots never share an object path for the same key. */
  lemma ObjectPathNamesSnapshot(cfg: Settings, n1: string, n2: string, bucket: string, key: string)
    requires SnapshotObjectPath(cfg, n1, bucket, key) == SnapshotObjectPath(cfg, n2, bucket, key)
    ensures n1 == n2
  {
    var base := SnapshotBasePath(cfg) + "/";
    var tail := (if HasNoRootPrefix(cfg) then "" else "/" + cfg.s3RootPrefix) + "/" + bucket + "/" + key;
    assert SnapshotObjectPath(cfg, n1, bucket, key) == base + n1 + tail;
    assert SnapshotObjectPath(cfg, n2, bucket, key) == base + n2 + tail;
    MiddleDetermined(base, n1, n2, tail);
  }

  /** Equal strings with the same head and tail have the same middle. */
  lemma MiddleDetermined(a: string, x: string, y: string, b: string)
    requires a + x + b == a + y + b
    ensures x == y
  {
    assert |x| == |y|;
    assert x == (a + x + b)[|a|..|a| + |x|];
    assert y == (a + y + b)[|a|..|a| + |y|];
  }
}
