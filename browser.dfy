/** The decision and arithmetic helpers of the web front end
    (browser/app/main.py): who the caller is, the breadcrumb trail, the
    prefix of an object's detail page, one page of a listing, and where a
    download is read from. Requests, headers and settings are inputs. */
module Browser {
  import opened Wrappers
  import opened Text
  import opened Lists
  import opened PosixPath
  import opened S3Listing
  import opened Versions

  // =======================================================================
  // get_current_user

  datatype Credentials = Credentials(username: string, password: string)

  const Unauthorized: int := 401
  const Forbidden: int := 403

  /** A header value that is present and not empty (Python truthiness). */
  predicate Given(h: Option<string>) {
    h.Some? && h.value != ""
  }

  /** `get_current_user`: the user name, or the HTTP status of the refusal.
      `credentials` is `None` when the request has no Basic credentials;
      `compare_digest` on the UTF-8 encodings is string equality. */
  function CurrentUser(authMode: string, cfEmail: Option<string>, cfConnectingIp: Option<string>,
                       credentials: Option<Credentials>, authUsername: string, authPassword: string)
    : (r: Result<string, int>)
    ensures r.Err? ==> r.error == Unauthorized || r.error == Forbidden
    ensures authMode == "none" ==> r == Ok("anonymous")
    ensures authMode == "cloudflare" ==>
      r == (if Given(cfEmail) then Ok(cfEmail.value)
            else if Given(cfConnectingIp) then Ok("cloudflare-user")
            else Err(Forbidden))
    ensures authMode != "none" && authMode != "cloudflare" ==>
      && (credentials.None? ==> r == Err(Unauthorized))
      && (r.Ok? <==> credentials.Some? && credentials.value == Credentials(authUsername, authPassword))
      && (r.Ok? ==> r.value == authUsername)
  {
    if authMode == "none" then Ok("anonymous")
    else if authMode == "cloudflare" then
      if cfEmail.Some? && cfEmail.value != "" then Ok(cfEmail.value)
      else if cfConnectingIp.None? || cfConnectingIp.value == "" then Err(Forbidden)
      else Ok("cloudflare-user")
    else
      match credentials
      case None => Err(Unauthorized)
      case Some(c) =>
        var correctUsername := c.username == authUsername;
        var correctPassword := c.password == authPassword;
        if !(correctUsername && correctPassword) then Err(Unauthorized)
        else Ok(c.username)
  }

  /** Only the basic mode looks at credentials, and only the Cloudflare mode
      refuses with 403. */
  lemma AuthModesIndependent(authMode: string, cfEmail: Option<string>, cfConnectingIp: Option<string>,
                             c1: Option<Credentials>, c2: Option<Credentials>, user: string, password: string)
    ensures authMode == "none" || authMode == "cloudflare" ==>
      CurrentUser(authMode, cfEmail, cfConnectingIp, c1, user, password)
      == CurrentUser(authMode, cfEmail, cfConnectingIp, c2, user, password)
    ensures authMode != "none" && authMode != "cloudflare" ==>
      CurrentUser(authMode, cfEmail, cfConnectingIp, c1, user, password)
      == CurrentUser(authMode, None, None, c1, user, password)
    ensures CurrentUser(authMode, cfEmail, cfConnectingIp, c1, user, password) == Err(Forbidden) ==>
      authMode == "cloudflare"
  {
  }

  // =======================================================================
  // build_breadcrumbs

  datatype Crumb = Crumb(name: string, url: Option<string>)

  /** The crumb of the `k`-th prefix component: its URL lists the prefix
      made of the first `k + 1` components, each followed by `/`. */
  function PartCrumb(bucket: string, parts: seq<string>, k: nat): Crumb
    requires k < |parts|
  {
    Crumb(parts[k], Some("/b/" + bucket + "?prefix=" + JoinTerminated(parts[..k + 1], '/')))
  }

  /** The components of a prefix once its trailing `/`s are gone. */
  function PrefixParts(prefix: string): seq<string> {
    Split(RStrip(prefix, '/'), '/')
  }

  /** The trail `build_breadcrumbs` returns. */
  function Breadcrumbs(bucket: string, prefix: string): seq<Crumb> {
    [Crumb("Buckets", Some("/buckets")), Crumb(bucket, Some("/b/" + bucket))]
    + if prefix == "" then []
      else seq(|PrefixParts(prefix)|, k requires 0 <= k < |PrefixParts(prefix)| => PartCrumb(bucket, PrefixParts(prefix), k))
  }

  /** `build_breadcrumbs`. */
  method BuildBreadcrumbs(bucket: string, prefix: string) returns (crumbs: seq<Crumb>)
    ensures crumbs == Breadcrumbs(bucket, prefix)
  {
    crumbs := [Crumb("Buckets", Some("/buckets"))];
    crumbs := crumbs + [Crumb(bucket, Some("/b/" + bucket))];
    if prefix != "" {
      var parts := Split(RStrip(prefix, '/'), '/');
      var currentPath := "";
      for k := 0 to |parts|
        invariant currentPath == JoinTerminated(parts[..k], '/')
        invariant |crumbs| == 2 + k
        invariant crumbs[..2] == [Crumb("Buckets", Some("/buckets")), Crumb(bucket, Some("/b/" + bucket))]
        invariant forall j :: 0 <= j < k ==> crumbs[2 + j] == PartCrumb(bucket, parts, j)
      {
        var part := parts[k];
        JoinTerminatedAppend(parts[..k], part, '/');
        assert parts[..k + 1] == parts[..k] + [part];
        currentPath := currentPath + part + "/";
        crumbs := crumbs + [Crumb(part, Some("/b/" + bucket + "?prefix=" + currentPath))];
      }
    }
  }

  /** The trail starts with the `Buckets` and bucket crumbs, has one more
      crumb per component of the prefix, named by that component, and the
      last crumb links to the whole prefix with its trailing `/`s reduced
      to one. */
  lemma BreadcrumbsShape(bucket: string, prefix: string)
    ensures |Breadcrumbs(bucket, prefix)| >= 2
    ensures Breadcrumbs(bucket, prefix)[0] == Crumb("Buckets", Some("/buckets"))
    ensures Breadcrumbs(bucket, prefix)[1] == Crumb(bucket, Some("/b/" + bucket))
    ensures prefix == "" ==> |Breadcrumbs(bucket, prefix)| == 2
    ensures prefix != "" ==>
      && |Breadcrumbs(bucket, prefix)| == 2 + |PrefixParts(prefix)|
      && (forall k :: 2 <= k < |Breadcrumbs(bucket, prefix)| ==>
            '/' !in Breadcrumbs(bucket, prefix)[k].name && Breadcrumbs(bucket, prefix)[k].url.Some?)
      && Breadcrumbs(bucket, prefix)[|Breadcrumbs(bucket, prefix)| - 1].url
         == Some("/b/" + bucket + "?prefix=" + RStrip(prefix, '/') + "/")
  {
    if prefix != "" {
      var parts := PrefixParts(prefix);
      SplitPartsFree(RStrip(prefix, '/'), '/');
      JoinTerminatedSplit(RStrip(prefix, '/'), '/');
      assert parts[..|parts|] == parts;
      var base := "/b/" + bucket + "?prefix=";
      assert base + JoinTerminated(parts, '/') == base + RStrip(prefix, '/') + "/";
    }
  }

  /** A folder prefix as listings produce it (components followed by one
      `/` each) is linked by its own last crumb, and each crumb before it
      links to the prefix of the enclosing folder. */
  lemma FolderPrefixCrumbs(bucket: string, parts: seq<string>)
    requires |parts| >= 1
    requires forall k :: 0 <= k < |parts| ==> parts[k] != "" && '/' !in parts[k]
    ensures PrefixParts(JoinTerminated(parts, '/')) == parts
    ensures |Breadcrumbs(bucket, JoinTerminated(parts, '/'))| == 2 + |parts|
    ensures forall k :: 2 <= k < |Breadcrumbs(bucket, JoinTerminated(parts, '/'))| ==>
      Breadcrumbs(bucket, JoinTerminated(parts, '/'))[k] == PartCrumb(bucket, parts, k - 2)
  {
    JoinTerminatedIsJoin(parts);
    RStripJoined(parts);
    SplitJoin(parts, '/');
  }

  /** A terminated join is the plain join followed by one `/`. */
  lemma {:induction false} JoinTerminatedIsJoin(parts: seq<string>)
    requires |parts| >= 1
    ensures JoinTerminated(parts, '/') == Join(parts, '/') + "/"
    decreases |parts|
  {
    if |parts| > 1 {
      JoinTerminatedIsJoin(parts[1..]);
    }
  }

  /** Stripping the `/` after a join of non-empty components gives the
      join back. */
  lemma RStripJoined(parts: seq<string>)
    requires |parts| >= 1
    requires forall k :: 0 <= k < |parts| ==> parts[k] != "" && '/' !in parts[k]
    ensures RStrip(Join(parts, '/') + "/", '/') == Join(parts, '/')
  {
    var j := Join(parts, '/');
    JoinEndsWithLast(parts);
    var last := parts[|parts| - 1];
    assert j[|j| - 1] == last[|last| - 1];
    assert last[|last| - 1] in last;
    assert (j + "/")[..|j + "/"| - 1] == j;
  }

  /** A join ends with its last component. */
  lemma {:induction false} JoinEndsWithLast(parts: seq<string>)
    requires |parts| >= 1
    ensures EndsWith(Join(parts, '/'), parts[|parts| - 1])
    decreases |parts|
  {
    if |parts| > 1 {
      JoinEndsWithLast(parts[1..]);
      assert parts[1..][|parts[1..]| - 1] == parts[|parts| - 1];
    }
  }

  // =======================================================================
  // object_detail_page: the prefix of the enclosing folder

  /** `str(PurePosixPath(path).parent)`, with `.` read as `""` and a `/`
      added otherwise. */
  function DetailPrefix(path: string): string {
    var parent := PosixPath.Str(Parent(Parse(path)));
    if parent == "." then "" else parent + "/"
  }

  /** The trail of an object's detail page: the trail of its folder, then
      the object's name without a link. */
  function DetailBreadcrumbs(bucket: string, path: string): seq<Crumb> {
    Breadcrumbs(bucket, DetailPrefix(path)) + [Crumb(Name(Parse(path)), None)]
  }

  /** For an object key made of real components the prefix is `""` at the
      top level and otherwise the key up to and including its last `/`;
      the prefix followed by the name is the key. */
  lemma DetailPrefixOfKey(key: string)
    requires IsPlainKey(key)
    ensures DetailPrefix(key) + Name(Parse(key)) == key
    ensures '/' !in key ==> DetailPrefix(key) == ""
    ensures '/' in key ==> DetailPrefix(key) == JoinTerminated(Split(key, '/')[..|Split(key, '/')| - 1], '/')
  {
    var parts := Split(key, '/');
    PlainKeyParts(key);
    var n := |parts|;
    if n == 1 {
      JoinSplit(key, '/');
      SplitPartsFree(key, '/');
      assert '/' !in key;
    } else {
      var init := parts[..n - 1];
      assert parts == init + [parts[n - 1]];
      JoinSnoc(init, parts[n - 1], '/');
      JoinSplit(key, '/');
      assert PosixPath.Str(Parent(Parse(key))) == Join(init, '/');
      assert forall k :: 0 <= k < |init| ==> IsKeptPart(init[k]) by {
        forall k | 0 <= k < |init| ensures IsKeptPart(init[k]) {
          assert init[k] == parts[k] && parts[k] in parts;
        }
      }
      JoinTerminatedIsJoin(init);
      assert '/' in key by {
        assert key == Join(init, '/') + "/" + parts[n - 1];
        assert key[|Join(init, '/')|] == '/';
      }
    }
    if '/' !in key {
      SplitNoSep(key, '/');
    }
  }

  /** The detail trail of an object key names its components in order,
      the last one without a link. */
  lemma DetailBreadcrumbNames(bucket: string, key: string)
    requires IsPlainKey(key)
    ensures |DetailBreadcrumbs(bucket, key)| == 2 + |Split(key, '/')|
    ensures forall k :: 2 <= k < |DetailBreadcrumbs(bucket, key)| ==>
      DetailBreadcrumbs(bucket, key)[k].name == Split(key, '/')[k - 2]
    ensures DetailBreadcrumbs(bucket, key)[|DetailBreadcrumbs(bucket, key)| - 1].url.None?
  {
    var parts := Split(key, '/');
    PlainKeyParts(key);
    DetailPrefixOfKey(key);
    var d := DetailBreadcrumbs(bucket, key);
    var e := Breadcrumbs(bucket, DetailPrefix(key)) + [Crumb(parts[|parts| - 1], None)];
    assert d == e;
    if '/' in key {
      InitParts(key);
      PrefixTrailThenName(bucket, parts, DetailPrefix(key), e);
    } else {
      SplitNoSep(key, '/');
    }
    forall k | 2 <= k < |d| ensures d[k].name == parts[k - 2] {
      assert d[k] == e[k];
    }
  }

  /** The trail of the folder holding the last of `parts`, followed by a
      crumb for that last component, names the components in order. */
  lemma PrefixTrailThenName(bucket: string, parts: seq<string>, prefix: string, d: seq<Crumb>)
    requires |parts| >= 2
    requires forall k :: 0 <= k < |parts| - 1 ==> parts[k] != "" && '/' !in parts[k]
    requires prefix == JoinTerminated(parts[..|parts| - 1], '/')
    requires d == Breadcrumbs(bucket, prefix) + [Crumb(parts[|parts| - 1], None)]
    ensures |d| == 2 + |parts|
    ensures forall k :: 2 <= k < |d| ==> d[k].name == parts[k - 2]
  {
    var init := parts[..|parts| - 1];
    assert parts == init + [parts[|parts| - 1]];
    FolderPrefixCrumbs(bucket, init);
    TrailNames(bucket, Breadcrumbs(bucket, prefix), init, parts[|parts| - 1]);
  }

  /** A folder trail followed by a name crumb names the folder's
      components, then the name. */
  lemma TrailNames(bucket: string, trail: seq<Crumb>, init: seq<string>, last: string)
    requires |trail| == 2 + |init|
    requires forall k :: 2 <= k < |trail| ==> trail[k] == PartCrumb(bucket, init, k - 2)
    ensures forall k :: 2 <= k < |trail + [Crumb(last, None)]| ==>
      (trail + [Crumb(last, None)])[k].name == (init + [last])[k - 2]
  {
    var d := trail + [Crumb(last, None)];
    forall k | 2 <= k < |d| ensures d[k].name == (init + [last])[k - 2] {
      if k < |trail| {
        assert d[k] == trail[k];
      }
    }
  }

  /** A key with a `/` has at least two components, and all but the last
      are non-empty names without `/`. */
  lemma InitParts(key: string)
    requires IsPlainKey(key) && '/' in key
    ensures |Split(key, '/')| >= 2
    ensures forall k :: 0 <= k < |Split(key, '/')| - 1 ==> Split(key, '/')[k] != "" && '/' !in Split(key, '/')[k]
  {
    var parts := Split(key, '/');
    SplitPartsFree(key, '/');
    if |parts| == 1 {
      JoinSplit(key, '/');
      assert false;
    }
    forall k | 0 <= k < |parts| - 1 ensures parts[k] != "" && '/' !in parts[k] {
      assert parts[k] in parts;
    }
  }

  // =======================================================================
  // list_objects_page: pagination

  /** An entry of the combined listing, tagged with its `type`. */
  datatype Item = FolderItem(folder: Folder) | FileItem(file: FileEntry)

  function FolderItemOf(f: Folder): Item { FolderItem(f) }
  function FileItemOf(f: FileEntry): Item { FileItem(f) }

  /** `result["folders"] + result["files"]`. */
  function AllItems(folders: seq<Folder>, files: seq<FileEntry>): seq<Item> {
    Map(folders, FolderItemOf) + Map(files, FileItemOf)
  }

  /** `[item for item in items if item.get("type") == "folder"]`. */
  function FoldersIn(items: seq<Item>): (r: seq<Folder>)
    ensures |r| <= |items|
    decreases |items|
  {
    if items == [] then []
    else (if items[0].FolderItem? then [items[0].folder] else []) + FoldersIn(items[1..])
  }

  /** `[item for item in items if item.get("type") == "file"]`. */
  function FilesIn(items: seq<Item>): (r: seq<FileEntry>)
    ensures |r| <= |items|
    decreases |items|
  {
    if items == [] then []
    else (if items[0].FileItem? then [items[0].file] else []) + FilesIn(items[1..])
  }

  /** Python's floor division `a // b`. */
  function FloorDiv(a: int, b: int): int
    requires b != 0
  {
    if b > 0 then a / b else (-a) / (-b)
  }

  /** A slice index as Python resolves it against a length `n`. */
  function SliceIndex(i: int, n: nat): (r: nat)
    ensures r <= n
  {
    if i < 0 then (if i + n < 0 then 0 else i + n)
    else if i > n then n else i
  }

  /** Python's `s[a:b]`. */
  function PySlice<T>(s: seq<T>, a: int, b: int): (r: seq<T>)
    ensures |r| <= |s|
  {
    var lo, hi := SliceIndex(a, |s|), SliceIndex(b, |s|);
    if lo >= hi then [] else s[lo..hi]
  }

  datatype Page = Page(folders: seq<Folder>, files: seq<FileEntry>, page: int, perPage: int,
                       totalItems: nat, totalPages: int)

  /** Why no page is produced: a page number below 1 is rejected by the
      query validation, a page size of 0 fails on the division. */
  datatype PageError = PageBelowOne | ZeroPageSize

  /** The page size used: the requested one when it is an allowed option,
      the default otherwise. */
  function PageSize(requested: Option<int>, options: seq<int>, defaultSize: int): int {
    if requested.None? || requested.value !in options then defaultSize else requested.value
  }

  /** `max(1, (total + per_page - 1) // per_page)`: for a positive page
      size, the fewest pages that hold every item, so that only a lone
      page may be empty. */
  function TotalPages(totalItems: nat, perPage: int): (r: int)
    requires perPage != 0
    ensures r >= 1
    ensures perPage > 0 ==> totalItems <= r * perPage
    ensures perPage > 0 ==> r == 1 || (r - 1) * perPage < totalItems
  {
    var q := FloorDiv(totalItems + perPage - 1, perPage);
    if perPage > 0 then
      CeilingBounds(totalItems, perPage);
      if q > 1 then q else 1
    else if q > 1 then q else 1
  }

  /** `(n + d - 1) / d` is the ceiling of `n / d`. */
  lemma CeilingBounds(n: nat, d: int)
    requires d > 0
    ensures var q := (n + d - 1) / d; (q - 1) * d < n <= q * d && (q <= 1 ==> n <= d)
  {
    var x := n + d - 1;
    var q, rem := x / d, x % d;
    assert x == q * d + rem;
    assert (q - 1) * d == q * d - d;
    if q <= 1 {
      assert q == 0 || q == 1;
    }
  }

  /** `all_items[start_idx:end_idx]` for a page. */
  function PageSlice(allItems: seq<Item>, page: int, perPage: int): seq<Item> {
    var startIdx := (page - 1) * perPage;
    var endIdx := startIdx + perPage;
    PySlice(allItems, startIdx, endIdx)
  }

  /** The pagination block of `list_objects_page`. */
  function Paginate(folders: seq<Folder>, files: seq<FileEntry>, page: int, requested: Option<int>,
                    options: seq<int>, defaultSize: int): (r: Result<Page, PageError>)
    ensures r.Err? <==> page < 1 || PageSize(requested, options, defaultSize) == 0
    ensures r.Ok? ==>
      && r.value.perPage == PageSize(requested, options, defaultSize)
      && r.value.totalItems == |folders| + |files|
      && r.value.totalPages >= 1
      && 1 <= r.value.page <= r.value.totalPages
      && r.value.page == (if page <= r.value.totalPages then page else r.value.totalPages)
    ensures r.Ok? && r.value.perPage > 0 ==>
      && r.value.totalItems <= r.value.totalPages * r.value.perPage
      && (r.value.totalPages == 1 || (r.value.totalPages - 1) * r.value.perPage < r.value.totalItems)
  {
    if page < 1 then Err(PageBelowOne)
    else
      var perPage := PageSize(requested, options, defaultSize);
      if perPage == 0 then Err(ZeroPageSize)
      else
        var allItems := AllItems(folders, files);
        var totalItems := |allItems|;
        var totalPages := TotalPages(totalItems, perPage);
        var p := if page < totalPages then page else totalPages;
        var items := PageSlice(allItems, p, perPage);
        Ok(Page(FoldersIn(items), FilesIn(items), p, perPage, totalItems, totalPages))
  }

  /** Folders come before files. */
  predicate FoldersFirst(items: seq<Item>) {
    forall i, j :: 0 <= i < j < |items| && items[i].FileItem? ==> items[j].FileItem?
  }

  /** Splitting items with the folders first by type and joining the parts
      back gives the items. */
  lemma {:induction false} SplitByType(items: seq<Item>)
    requires FoldersFirst(items)
    ensures Map(FoldersIn(items), FolderItemOf) + Map(FilesIn(items), FileItemOf) == items
    decreases |items|
  {
    if items != [] {
      var rest := items[1..];
      assert FoldersFirst(rest) by {
        forall i, j | 0 <= i < j < |rest| && rest[i].FileItem? ensures rest[j].FileItem? {
          assert items[i + 1].FileItem?;
        }
      }
      SplitByType(rest);
      if items[0].FolderItem? {
        MapAppend([items[0].folder], FoldersIn(rest), FolderItemOf);
      } else {
        assert forall j :: 0 <= j < |items| ==> items[j].FileItem?;
        NoFolders(rest);
        MapAppend([items[0].file], FilesIn(rest), FileItemOf);
      }
    }
  }

  lemma {:induction false} NoFolders(items: seq<Item>)
    requires forall j :: 0 <= j < |items| ==> items[j].FileItem?
    ensures FoldersIn(items) == []
    decreases |items|
  {
    if items != [] {
      NoFolders(items[1..]);
    }
  }

  /** The combined listing has its folders first, and so has every slice
      of it. */
  lemma SlicesKeepFoldersFirst(folders: seq<Folder>, files: seq<FileEntry>, a: int, b: int)
    ensures FoldersFirst(AllItems(folders, files))
    ensures FoldersFirst(PySlice(AllItems(folders, files), a, b))
  {
    var all := AllItems(folders, files);
    assert forall i :: 0 <= i < |all| ==> (all[i].FileItem? <==> i >= |folders|);
    var lo, hi := SliceIndex(a, |all|), SliceIndex(b, |all|);
    if lo < hi {
      var s := all[lo..hi];
      assert forall i :: 0 <= i < |s| ==> s[i] == all[lo + i];
    }
  }

  /** The page's folders and files are its slice of the combined listing
      split by type, in order; with a positive page size the page holds at
      most `per_page` entries. */
  lemma PageContents(folders: seq<Folder>, files: seq<FileEntry>, page: int, requested: Option<int>,
                     options: seq<int>, defaultSize: int)
    requires Paginate(folders, files, page, requested, options, defaultSize).Ok?
    ensures var pg := Paginate(folders, files, page, requested, options, defaultSize).value;
      Map(pg.folders, FolderItemOf) + Map(pg.files, FileItemOf)
      == PageSlice(AllItems(folders, files), pg.page, pg.perPage)
    ensures var pg := Paginate(folders, files, page, requested, options, defaultSize).value;
      pg.perPage > 0 ==> |pg.folders| + |pg.files| <= pg.perPage
  {
    var pg := Paginate(folders, files, page, requested, options, defaultSize).value;
    var start := (pg.page - 1) * pg.perPage;
    SlicesKeepFoldersFirst(folders, files, start, start + pg.perPage);
    SplitByType(PageSlice(AllItems(folders, files), pg.page, pg.perPage));
  }

  /** With a positive page size every entry of the listing is on the page
      its position says: entry `i` is entry `i % per_page` of page
      `i / per_page + 1`, and that page is not clamped. */
  lemma EntryOnItsPage(folders: seq<Folder>, files: seq<FileEntry>, i: nat, perPage: int,
                       options: seq<int>, defaultSize: int)
    requires i < |folders| + |files|
    requires perPage > 0 && perPage in options
    ensures Paginate(folders, files, i / perPage + 1, Some(perPage), options, defaultSize).Ok?
    ensures Paginate(folders, files, i / perPage + 1, Some(perPage), options, defaultSize).value.page == i / perPage + 1
    ensures i % perPage < |PageSlice(AllItems(folders, files), i / perPage + 1, perPage)|
    ensures PageSlice(AllItems(folders, files), i / perPage + 1, perPage)[i % perPage] == AllItems(folders, files)[i]
  {
    var n := |folders| + |files|;
    var p := i / perPage + 1;
    TotalPagesBound(i, n, perPage);
    var lo := PageStart(i, perPage);
    var all := AllItems(folders, files);
    assert PageSlice(all, p, perPage) == all[lo..SliceIndex(lo + perPage, n)];
  }

  /** Where the page of entry `i` starts. */
  lemma PageStart(i: nat, d: int) returns (lo: int)
    requires d > 0
    ensures lo == (i / d + 1 - 1) * d
    ensures 0 <= lo <= i < lo + d
    ensures i % d == i - lo
  {
    lo := i / d * d;
    assert i == i / d * d + i % d;
  }

  /** `i / d + 1` is within `(n + d - 1) / d` pages for every `i < n`. */
  lemma TotalPagesBound(i: nat, n: nat, d: int)
    requires i < n && d > 0
    ensures i / d + 1 <= TotalPages(n, d)
  {
    DivMonotone(i, n - 1, d);
    DivShift(n - 1, d);
  }

  lemma {:induction false} MulAtLeast(x: int, d: int)
    requires x >= 1 && d > 0
    ensures x * d >= d
    decreases x
  {
    if x > 1 {
      MulAtLeast(x - 1, d);
      assert x * d == (x - 1) * d + d;
    }
  }

  lemma DivUnique(x: int, d: int, q: int, r: int)
    requires d > 0 && 0 <= r < d && x == q * d + r
    ensures x / d == q
  {
    var q0, r0 := x / d, x % d;
    assert x == q0 * d + r0;
    if q0 < q {
      MulAtLeast(q - q0, d);
    } else if q0 > q {
      MulAtLeast(q0 - q, d);
    }
  }

  lemma DivMonotone(a: nat, b: nat, d: int)
    requires a <= b && d > 0
    ensures a / d <= b / d
  {
    var qa, qb := a / d, b / d;
    assert a == qa * d + a % d && b == qb * d + b % d;
    if qa > qb {
      MulAtLeast(qa - qb, d);
    }
  }

  lemma DivShift(a: int, d: int)
    requires d > 0
    ensures (a + d) / d == a / d + 1
  {
    var q, r := a / d, a % d;
    assert a == q * d + r;
    assert (q + 1) * d == q * d + d;
    DivUnique(a + d, d, q + 1, r);
  }

  // =======================================================================
  // download_object: which store a download reads

  datatype DownloadSource = LiveObject | SnapshotFile(name: string)

  /** The choice `download_object` makes from its `version` and `snapshot`
      query parameters. */
  function DownloadSourceOf(version: string, snapshot: Option<string>): (r: DownloadSource)
    ensures IsCurrentId(version) ==> r == LiveObject
    ensures !IsCurrentId(version) && Given(snapshot) ==> r == SnapshotFile(snapshot.value)
    ensures !IsCurrentId(version) && !Given(snapshot) ==>
      r == (if version == "" then LiveObject else SnapshotFile(version))
  {
    var isCurrent := version == "current" || EndsWith(version, "(current)");
    var snapshotName := if snapshot.Some? && snapshot.value != "" then snapshot
                        else if isCurrent then None else Some(version);
    if isCurrent || snapshotName.None? || snapshotName.value == "" then LiveObject
    else SnapshotFile(snapshotName.value)
  }

  /** Downloading a listed version with its id and snapshot name reads the
      live object for the live record and the record's own snapshot for
      every other. */
  lemma DownloadOfListedVersion(current: Option<VersionInfo>, results: seq<Option<VersionInfo>>, i: nat)
    requires WellFormedInputs(current, results)
    requires i < |History(current, results)|
    requires Given(History(current, results)[i].snapshotName) || History(current, results)[i].isCurrent
    ensures History(current, results)[i].isCurrent ==>
      DownloadSourceOf(History(current, results)[i].versionId, History(current, results)[i].snapshotName) == LiveObject
    ensures !History(current, results)[i].isCurrent ==>
      DownloadSourceOf(History(current, results)[i].versionId, History(current, results)[i].snapshotName)
      == SnapshotFile(History(current, results)[i].snapshotName.value)
  {
    HistoryIdsRouteLive(current, results);
  }
}
