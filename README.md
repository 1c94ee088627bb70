# rsync-s3 browser: version history and listing logic in Dafny

This project models the core of the rsync-s3 web browser. The browser shows
objects stored through an S3 gateway, together with the older copies of
each object that survive in the storage provider's filesystem snapshots.
The model covers:

- **Version history** (`versions.dfy`, `browser/app/version_mapper.py`):
  - fetch the live record (`head_object`) and one record per snapshot
    that holds the object as a file;
  - sort the snapshot records by mtime, oldest first;
  - drop every snapshot record whose `(size, mtime truncated to the
    second)` signature was already seen or equals the live record's;
  - append the live record, number the records `v1` … `vN` from the
    oldest (the live one gets `vN (current)`), and return them newest
    first;
  - `get_version_content`, which routes an id to the live store or to a
    snapshot file, and `to_dict`.
- **Snapshot catalogue** (`snapshots.dfy`, `browser/app/sftp_client.py`):
  - the timestamp `SnapshotInfo.from_name` reads out of a snapshot name:
    the three `re.search` patterns tried in order, the greedy `.*`, and
    `strptime` validation;
  - the paths of a snapshot's mirrored root and of an object inside it;
  - `list_snapshots`: filter the entries, then sort dated snapshots
    newest first and undated ones last;
  - `stat_snapshot_object`, `object_exists_in_snapshot`,
    `list_snapshot_objects`.
- **Listing shaping** (`s3_listing.dfy`, `browser/app/s3_client.py`):
  - the `ListObjectsV2` parameters;
  - the folders made from `CommonPrefixes`;
  - the files made from `Contents`, skipping the prefix's own folder
    marker and unnamed keys;
  - `head_object`'s record.
- **Front-end decisions** (`browser.dfy`, `browser/app/main.py`):
  - the `get_current_user` decision table;
  - `build_breadcrumbs`;
  - the folder prefix of an object's detail page;
  - pagination with Python's floor division and slice semantics;
  - the choice between the live object and a snapshot file in
    `download_object`.

Supporting modules:

- `text.dfy`: Python string helpers (`split`, `join`, `rstrip`, `strip`,
  decimal rendering) with their round-trip lemmas.
- `lists.dfy`: filter, map, and a stable insertion sort standing in for
  Python's stable `list.sort`.
- `clock.dfy`: instants as microseconds since `datetime.min`, second
  truncation, and civil times.
- `posix_path.dfy`: the parts of `PurePosixPath` the browser uses.
- `wrappers.dfy`: `Option` and `Result`.

Remote calls are inputs to the model:

- the `head_object` result;
- the `readdir` listing, `None` when it raised;
- `stat`, a function from a path to attributes, `None` when it raised;
- the bytes read, `None` when reading raised.

Most operations are functions. Each loop of the source is a method with
loop invariants, proved equal to a specification function. Those methods
are `ListObjectVersions` with `DeduplicateSnapshots` and `NumberVersions`,
`FromName`, `ListSnapshots`, `ListSnapshotObjects`, `ShapeListing`,
`RequestParams` and `BuildBreadcrumbs`. The lemmas then state what the
source promises about those functions.

Where the code and the design description of the system differ, the model
follows the code:

- Ids are renumbered: history ids are `v1` … `vN` by position, not the
  snapshot names.
- Snapshot records are deduplicated by `(size, second-truncated mtime)`.
  A snapshot equal to the live record is dropped.
- Order and ties follow the code:
  - records are ordered only by mtime (a stable sort);
  - there is no tie-break on the snapshot name;
  - records with equal signatures collapse to the first in sorted order.
- Duplicates keep the newest snapshot. `list_snapshots` returns the
  newest snapshot first and the sort is stable, so among records with the
  same mtime the one kept comes from the newest snapshot. The source's
  own comment says the oldest.
- A snapshot that cannot be read or stat-ed inside an open SFTP session is
  skipped, not reported as a failure. A failure to open the session is not
  caught (see "## Left out").
- `get_version_content` does not reject an unknown id. Any id that is not
  `current` and does not end in `(current)` is read as a snapshot name.

## Model

| member | source | states |
|---|---|---|
| Clock.NormalizeDatetime | browser/app/version_mapper.py:16-24 | `None` stays `None`; otherwise the result is a whole second at most one second below the input |
| Clock.NormalizeSameSecond | browser/app/version_mapper.py:16-24 | two instants normalise alike exactly when they lie in the same second |
| Clock.NormalizeIdempotent | browser/app/version_mapper.py:16-24 | normalising twice equals normalising once |
| Clock.NormalizeMonotone | browser/app/version_mapper.py:16-24 | truncation never reorders two instants |
| Clock.FromTimestamp | browser/app/sftp_client.py:160 | an SFTP mtime in seconds becomes an instant with no microseconds |
| Clock.CivilKeyOrder | browser/app/sftp_client.py:141-145 | on valid calendar times the integer sort key orders chronologically, and equal keys mean equal times |
| Snapshots.SearchFrom | browser/app/sftp_client.py:39 | `re.search` with a leading `.*` finds a position where the pattern matches, and finds none only when no position matches |
| Snapshots.SearchSingleLine | browser/app/sftp_client.py:39 | on a one-line name the search picks the last position where the pattern fits |
| Snapshots.Strptime | browser/app/sftp_client.py:40-56 | a parsed time is a valid calendar date (years 1..9999, real days, hours 0..23); an invalid one is the caught `ValueError` |
| Snapshots.FirstParse | browser/app/sftp_client.py:38-56 | any time found by the first pattern that yields one is valid |
| Snapshots.FromName | browser/app/sftp_client.py:25-58 | the loop over the patterns returns the name and the timestamp of the first pattern that yields one |
| Snapshots.ParseStampInOrder | browser/app/sftp_client.py:38-56 | the date-with-hour pattern is tried first, then date-only, then year-month |
| Snapshots.NoUnderscoreNoStamp | browser/app/sftp_client.py:32-36 | a name without `_` has no timestamp |
| Snapshots.StampNeedsYearMonth | browser/app/sftp_client.py:32-36 | a name with a timestamp contains `_YYYY-MM` |
| Snapshots.HourlyRoundTrip | browser/app/sftp_client.py:31-47 | `kind_YYYY-MM-DD_HH` reads back as the written date and hour, for every one-line label in which no `_` is followed by a digit (`hourly`, `custom_backup`) |
| Snapshots.BadHourFallsBack | browser/app/sftp_client.py:38-56 | an hour 24..99 fails `strptime`, and the date-only pattern then gives the date at midnight, for the same labels |
| Snapshots.DailyRoundTrip | browser/app/sftp_client.py:31-51 | `kind_YYYY-MM-DD` reads back as that date at midnight, for every one-line label in which no `_` is followed by a digit (`daily`, `auto_daily_backup`) |
| Snapshots.CustomPrefixName | browser/tests/test_version_mapper.py:42-46 | `custom_backup_2025-11-15` is dated 2025-11-15 |
| Snapshots.MultipleUnderscoresName | browser/tests/test_sftp_client.py:58-62 | `auto_daily_backup_2025-06-15` is dated 2025-06-15 |
| Snapshots.HourlyName | browser/tests/test_version_mapper.py:30-34 | `hourly_2025-12-01_14` is dated 2025-12-01 at 14:00 |
| Snapshots.MonthlyRoundTrip | browser/app/sftp_client.py:31-53 | `kind_YYYY-MM` reads back as the first of that month, for the same labels |
| Snapshots.SnapshotRoot | browser/app/sftp_client.py:103-107 | the mirrored root lies under the snapshot's own directory |
| Snapshots.SnapshotObjectPath | browser/app/sftp_client.py:109-113 | an object path lies under the snapshot's mirrored root |
| Snapshots.ObjectPathNamesSnapshot | browser/app/sftp_client.py:109-113 | two snapshot names give the same object path only when they are the same name |
| Snapshots.StatSnapshotObject | browser/app/sftp_client.py:148-164 | a record exists exactly when `stat` of the object path succeeds; it carries that path and the directory flag |
| Snapshots.ObjectExistsInSnapshot | browser/app/sftp_client.py:166-171 | true exactly when `stat` succeeds and reports no directory |
| Snapshots.ListSnapshots | browser/app/sftp_client.py:115-146 | a failed `readdir` gives no snapshots; otherwise the result is the stable sort of the kept entries' snapshots by the newest-first key |
| Snapshots.CandidatesAreKeptEntries | browser/app/sftp_client.py:119-135 | the gathering loop keeps exactly the snapshot entries, in listing order |
| Snapshots.CandidatesFromEntries | browser/app/sftp_client.py:119-135 | a snapshot is gathered exactly when it comes from an entry that is not a dot entry and whose mirrored root is a directory |
| Snapshots.ListedSnapshots | browser/app/sftp_client.py:115-146 | same members as the kept entries; undated snapshots after dated ones; dated ones newest first; snapshots that compare equal stay in listing order |
| Snapshots.ListSnapshotObjects | browser/app/sftp_client.py:195-227 | a failed `readdir` gives nothing; otherwise one record per visible entry under the prefix's directory, in listing order |
| Snapshots.ObjectsAreVisibleEntries | browser/app/sftp_client.py:205-224 | the listing equals the visible entries mapped to their records |
| Snapshots.ListedObjects | browser/app/sftp_client.py:205-224 | each record is a visible entry at `base/name` with its size and mtime defaulting to 0; every visible entry is listed |
| Snapshots.ListedPathIsObjectPath | browser/app/sftp_client.py:195-213 | for a folder prefix, a listed entry's path is the object path `stat_snapshot_object` uses for `prefix + name` |
| S3Listing.RequestParams | browser/app/s3_client.py:65-72 | bucket and max-keys are always sent; prefix and delimiter are sent exactly when non-empty |
| S3Listing.StripETag | browser/app/s3_client.py:105 | the stored ETag neither starts nor ends with a quote; an absent ETag is empty |
| S3Listing.BareETagKept | browser/app/s3_client.py:105 | stripping leaves an unquoted ETag unchanged |
| S3Listing.ShapeListing | browser/app/s3_client.py:76-115 | the two loops build the folders, the kept files, the truncation flag (default false) and the prefix |
| S3Listing.ListedFolders | browser/app/s3_client.py:78-88 | one folder per common prefix, in order, named by the prefix's last component |
| S3Listing.FolderNameShape | browser/app/s3_client.py:81 | a folder name holds no `/` and is the last component of the prefix with its trailing `/`s removed |
| S3Listing.ListedFiles | browser/app/s3_client.py:90-108 | every file comes from a listed object; it is not the prefix's folder marker; its name is non-empty, has no `/` and ends the key; its ETag is unquoted |
| S3Listing.AllListedObjectsShown | browser/app/s3_client.py:90-108 | every object that is not the folder marker and has a name appears as a file |
| S3Listing.ListedFileShape | browser/app/s3_client.py:92-108 | the file entry of one kept object: its key, a non-empty last component as name, an unquoted ETag |
| S3Listing.MarkerOnlyListing | browser/app/s3_client.py:92-108 | a response holding only the prefix's folder marker lists no file and no folder |
| S3Listing.HeadObject | browser/app/s3_client.py:117-131 | a client error gives `None`; otherwise the record has the key, the metadata, an unquoted ETag, and the default content type when none is given |
| Versions.ToDictRoundTrip | browser/app/version_mapper.py:46-58 | `to_dict` loses nothing: reading the dictionary back gives the record |
| Versions.CurrentVersion | browser/app/version_mapper.py:162-177 | a live record exists exactly when `head_object` found the object; it is `current`, marked current, with head's size, mtime and ETag |
| Versions.SnapshotVersion | browser/app/version_mapper.py:179-196 | a snapshot record exists exactly when the object is a file in that snapshot; it is named after the snapshot |
| Versions.ListObjectVersions | browser/app/version_mapper.py:74-160 | the sort, deduplication, append, numbering and reverse steps compute the history of the fetched records |
| Versions.DeduplicateSnapshots | browser/app/version_mapper.py:133-146 | the deduplication loop keeps the first record of each signature, skipping the live signature |
| Versions.NumberVersions | browser/app/version_mapper.py:152-157 | the numbering loop gives record `i` the id `v{i+1}`, with ` (current)` on the live record |
| Versions.DedupMembers | browser/app/version_mapper.py:133-146 | a record is kept exactly when it is the first of its signature, that signature was not seen before, and it is not the live signature |
| Versions.DedupUnique | browser/app/version_mapper.py:133-146 | the kept records have pairwise different signatures, none seen before and none equal to the live one |
| Versions.DedupSorted | browser/app/version_mapper.py:112-146 | deduplication keeps an input sorted by mtime sorted |
| Versions.DedupSubset | browser/app/version_mapper.py:133-146 | every kept record comes from the input, and there are no more of them |
| Versions.FetchedInputsWellFormed | browser/app/version_mapper.py:162-196 | the fetched live record is a live record, and every fetched snapshot record is a snapshot record named after its snapshot |
| Versions.SortedSnapshotsFacts | browser/app/version_mapper.py:110-117 | the sorted snapshot records are ordered by mtime and are exactly the present results |
| Versions.MergeFacts | browser/app/version_mapper.py:133-150 | the live record, if any, comes last; the others are kept snapshot records with distinct signatures in ascending mtime order |
| Versions.HistoryIsReversedMerge | browser/app/version_mapper.py:152-160 | returned record `i` is merged record `n-1-i` under the id `v{n-i}` |
| Versions.HistoryCurrentFirst | browser/app/version_mapper.py:148-160 | at most one record is live; it comes first exactly when the object exists live and carries the highest number; every other record is a fetched snapshot record |
| Versions.HistorySnapshots | browser/app/version_mapper.py:112-160 | the snapshot records have pairwise different signatures, none equal to the live one, and run newest first |
| Versions.HistoryKeepsFirstOfEachSignature | browser/app/version_mapper.py:110-160 | a fetched snapshot record appears exactly when it is the first of its signature in mtime order and differs from the live signature |
| Versions.HistoryIds | browser/app/version_mapper.py:152-160 | the ids read `vN` … `v1` in returned order, with ` (current)` on the live record only |
| Versions.VersionIdInjective | browser/app/version_mapper.py:154-157 | different positions or flags give different ids |
| Versions.HistoryIdsDistinct | browser/app/version_mapper.py:152-160 | no two records of a history share an id |
| Versions.ReadRoute | browser/app/version_mapper.py:206-235 | a live read returns the live bytes and a `current` record; a snapshot read returns the file at that snapshot's object path; size is the content length; read failures are errors |
| Versions.GetVersionContent | browser/app/version_mapper.py:198-235 | `current` and ids ending in `(current)` read the live object; every other id is used as a snapshot name |
| Versions.VersionIdRoute | browser/app/version_mapper.py:206 | a numbered id selects the live store exactly when it carries ` (current)` |
| Versions.HistoryIdsRouteLive | browser/app/version_mapper.py:206 | on the ids of a history, the live-store test holds exactly for the live record |
| Versions.RenumberedIdReadsWrongSnapshot | browser/app/version_mapper.py:219-235 | one snapshot record and no live object: the record is listed as `v1`, and reading `v1` opens a snapshot named `v1`, not the record's own snapshot |
| Versions.Lookup | browser/app/version_mapper.py:198-205 | a found record is in the history with that id; none is found only when no record has it |
| Versions.LookupFinds | browser/app/version_mapper.py:152-160 | with distinct ids, looking up a record's id returns that record |
| Versions.GetHistoryVersionContent | browser/app/version_mapper.py:198-235 | reads through the route resolved in the history, with the same success and error cases as the live and snapshot reads |
| Versions.ResolvedHistoryIds | browser/app/version_mapper.py:198-235 | every id of a listed history resolves to the live store for the live record and to the record's own snapshot for every other |
| Browser.CurrentUser | browser/app/main.py:55-106 | mode `none`: anonymous. Mode `cloudflare`: the email header, else `cloudflare-user` when the IP header is given, else 403. Otherwise: 401 without credentials, and success exactly when both username and password match |
| Browser.AuthModesIndependent | browser/app/main.py:68-106 | only basic mode reads credentials, only Cloudflare mode reads its headers, and only Cloudflare mode refuses with 403 |
| Browser.BuildBreadcrumbs | browser/app/main.py:123-137 | the loop builds the `Buckets` and bucket crumbs, then one crumb per prefix component linking to the prefix so far |
| Browser.BreadcrumbsShape | browser/app/main.py:123-137 | two fixed crumbs first; one more per component; names without `/`; the last crumb links to the prefix with its trailing `/`s reduced to one |
| Browser.FolderPrefixCrumbs | browser/app/main.py:123-137 | for a folder prefix the components are read back exactly, and crumb `k` links to the first `k` components |
| Browser.DetailPrefixOfKey | browser/app/main.py:333-337 | the prefix followed by the name is the key; the prefix is empty at top level, else the key up to its last `/` |
| Browser.DetailBreadcrumbNames | browser/app/main.py:333-339 | the detail trail names the key's components in order, and the last crumb has no link |
| Browser.Paginate | browser/app/main.py:198-221 | an error exactly for a page below 1 or a zero page size; otherwise total pages at least 1, the page clamped to them, and for a positive page size the total pages are the fewest that hold every item (all items fit, and the last page is non-empty unless it is the only one) |
| Browser.TotalPages | browser/app/main.py:208 | for a positive page size, `max(1, ceil(total / per_page))`: every item fits, and only a lone page may be empty |
| Browser.PageContents | browser/app/main.py:207-221 | the page's folders then files rejoin to the page slice, and a page holds at most `per_page` entries |
| Browser.SplitByType | browser/app/main.py:220-221 | splitting folders-first items by type and joining the parts gives the items back |
| Browser.EntryOnItsPage | browser/app/main.py:207-217 | entry `i` is entry `i % per_page` of page `i // per_page + 1`, and that page is accepted unclamped |
| Browser.TotalPagesBound | browser/app/main.py:208 | the page of every entry is within the total page count |
| Browser.DownloadSourceOf | browser/app/main.py:266-269 | a current id reads the live object; otherwise a given snapshot name wins; otherwise an empty version reads the live object and any other is used as a snapshot name |
| Browser.DownloadOfListedVersion | browser/app/main.py:266-269 | downloading a listed record with its id and snapshot name reads the live object for the live record and its own snapshot for the others |

## Left out

- Network and filesystem I/O is not modelled: the S3 gateway session, the
  SFTP connection, streaming in 64 KiB chunks, and the bounded
  `asyncio.gather`. Their results are parameters, and concurrency does not
  change the result, since results are gathered in snapshot order.
- `format_size`, `isoformat` rendering, templates, MIME type guessing and
  the FastAPI routing and error responses are not modelled. The pagination
  model returns a `PageError` where FastAPI would answer 422 or 500.
- `load_remote_config`, bucket filtering and the configuration singletons
  are not modelled. The settings used are parameters, including
  `page_size_options` and `default_page_size`.
- Browser.CurrentUser: `compare_digest` is modelled as plain equality. Its
  constant-time behaviour and the UTF-8 encoding step are not modelled.
- Snapshots.Strptime: `\d` is read as an ASCII digit only. Python's `\d`
  in a str pattern, both in the name patterns and inside `strptime`,
  matches any Unicode decimal digit, and `int()` reads such digits. So the
  source dates a name such as `daily_٢٠٢٥-12-01` as 2025-12-01, while the
  model leaves it undated.
- An SFTP connection failure is not modelled. `get_sftp` connects at
  browser/app/sftp_client.py:91, outside any `try`. A failed connection in
  `stat_snapshot_object` or `list_snapshots` is therefore raised, not
  caught, and `asyncio.gather` (browser/app/version_mapper.py:109) passes it
  on, so `list_object_versions` fails. The model has only the failures
  caught inside an open session (a `stat` or `readdir` that gives `None` or
  nothing).
- Clock.FromTimestamp: time zones are not modelled. Every instant is UTC,
  as the SFTP client produces it. The naive `datetime` from `from_name` is
  compared only with other snapshot names.
- Mutation of the `VersionInfo` objects in place is modelled as building
  renamed copies in a sequence. No reference to the objects survives the
  call, so aliasing is not observable.
- `get_object_content` and `open_snapshot_file_stream` are not modelled:
  only whole-content reads are. The snapshot byte stream of the download
  route is the same path read as in `get_version_content`.
- The bundled tests expect raw snapshot ids and no deduplication. They
  describe an earlier behaviour, and the model follows the current code.

## Findings

| source | as written | input that shows it | evidently intended | confidence | as-written member | corrected member |
|---|---|---|---|---|---|---|
| browser/app/version_mapper.py:206-235 | `get_version_content` treats every id not marked `(current)` as a snapshot name, but `list_object_versions` hands out renumbered ids `v1` … `vN` | no live object and one snapshot `daily_2025-12-01` holding the key: the history is `[v1]`, and reading `v1` opens `<snapshot_dir>/v1/…`, which is not that snapshot | an id from the history reads that record's own snapshot, or the live object for the live record | not executed | Versions.RenumberedIdReadsWrongSnapshot | Versions.ResolvedHistoryIds |
