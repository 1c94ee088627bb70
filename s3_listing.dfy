/** The result shaping of the S3 client (browser/app/s3_client.py): the
    parameters of a `ListObjectsV2` request, the folder and file entries
    made from its response, and the metadata record of `head_object`. The
    gateway itself is not modelled: responses are inputs, and an absent
    response field is an absent `Option` or an empty sequence. */
module S3Listing {
  import opened Wrappers
  import opened Text
  import opened Lists
  import opened Clock

  // =======================================================================
  // Request parameters

  datatype ParamValue = Str(s: string) | Int(n: int)

  /** The `params` dict of `list_objects`. */
  method RequestParams(bucket: string, prefix: string, delimiter: string, maxKeys: int)
    returns (params: map<string, ParamValue>)
    ensures params.Keys <= {"Bucket", "MaxKeys", "Prefix", "Delimiter"}
    ensures "Bucket" in params && params["Bucket"] == Str(bucket)
    ensures "MaxKeys" in params && params["MaxKeys"] == Int(maxKeys)
    ensures "Prefix" in params <==> prefix != ""
    ensures "Prefix" in params ==> params["Prefix"] == Str(prefix)
    ensures "Delimiter" in params <==> delimiter != ""
    ensures "Delimiter" in params ==> params["Delimiter"] == Str(delimiter)
  {
    params := map["Bucket" := Str(bucket), "MaxKeys" := Int(maxKeys)];
    if prefix != "" {
      params := params["Prefix" := Str(prefix)];
    }
    if delimiter != "" {
      params := params["Delimiter" := Str(delimiter)];
    }
  }

  // =======================================================================
  // Response shaping

  /** One element of `Contents`; absent fields are `None`. */
  datatype S3Object = S3Object(key: string, size: Option<nat>, lastModified: Option<Instant>, etag: Option<string>)

  /** The fields of a `ListObjectsV2` response that are read: the `Prefix`
      of every `CommonPrefixes` element, the `Contents`, `IsTruncated`. */
  datatype ListResponse = ListResponse(commonPrefixes: seq<string>, contents: seq<S3Object>, isTruncated: Option<bool>)

  datatype Folder = Folder(name: string, prefix: string)

  datatype FileEntry = FileEntry(name: string, key: string, size: nat, lastModified: Option<Instant>, etag: string)

  datatype Listing = Listing(folders: seq<Folder>, files: seq<FileEntry>, isTruncated: bool, prefix: string)

  /** The last component of a common prefix once its trailing `/`s are gone. */
  function FolderName(commonPrefix: string): string {
    LastComponent(RStrip(commonPrefix, '/'), '/')
  }

  function FolderOf(commonPrefix: string): Folder {
    Folder(FolderName(commonPrefix), commonPrefix)
  }

  /** `value.strip('"')` for an ETag, `""` when absent. */
  function StripETag(etag: Option<string>): (r: string)
    ensures r == [] || (r[0] != '"' && r[|r| - 1] != '"')
  {
    var raw := match etag case Some(e) => e case None => "";
    StripShape(raw, '"');
    Strip(raw, '"')
  }

  function FileName(key: string): string {
    LastComponent(key, '/')
  }

  /** An object that becomes a file entry: not the folder marker of the
      requested prefix, and with a non-empty last component. */
  predicate IsListedObject(prefix: string, o: S3Object) {
    o.key != prefix && FileName(o.key) != ""
  }

  function ListedUnder(prefix: string): S3Object -> bool {
    o => IsListedObject(prefix, o)
  }

  function FileOf(o: S3Object): FileEntry {
    FileEntry(FileName(o.key), o.key, match o.size case Some(n) => n case None => 0,
              o.lastModified, StripETag(o.etag))
  }

  /** The listing `list_objects` returns for a response. */
  function ShapedListing(prefix: string, response: ListResponse): Listing {
    Listing(Map(response.commonPrefixes, FolderOf),
            Map(Filter(response.contents, ListedUnder(prefix)), FileOf),
            match response.isTruncated case Some(b) => b case None => false,
            prefix)
  }

  /** The two loops of `list_objects` over a response. */
  method ShapeListing(prefix: string, response: ListResponse) returns (listing: Listing)
    ensures listing == ShapedListing(prefix, response)
  {
    var folders: seq<Folder> := [];
    for k := 0 to |response.commonPrefixes|
      invariant folders == Map(response.commonPrefixes[..k], FolderOf)
    {
      var folderPrefix := response.commonPrefixes[k];
      var folderName := LastComponent(RStrip(folderPrefix, '/'), '/');
      folders := folders + [Folder(folderName, folderPrefix)];
      MapAppend(response.commonPrefixes[..k], [folderPrefix], FolderOf);
      assert response.commonPrefixes[..k + 1] == response.commonPrefixes[..k] + [folderPrefix];
    }
    assert response.commonPrefixes[..|response.commonPrefixes|] == response.commonPrefixes;

    var files: seq<FileEntry> := [];
    var contents := response.contents;
    for k := 0 to |contents|
      invariant files == Map(Filter(contents[..k], ListedUnder(prefix)), FileOf)
    {
      var obj := contents[k];
      assert contents[..k + 1] == contents[..k] + [obj];
      FilterAppend(contents[..k], [obj], ListedUnder(prefix));
      MapAppend(Filter(contents[..k], ListedUnder(prefix)), Filter([obj], ListedUnder(prefix)), FileOf);
      if obj.key == prefix {
        continue;
      }
      var name := LastComponent(obj.key, '/');
      if name != "" {
        var size := match obj.size case Some(n) => n case None => 0;
        files := files + [FileEntry(name, obj.key, size, obj.lastModified, StripETag(obj.etag))];
      }
    }
    assert contents[..|contents|] == contents;

    var truncated := match response.isTruncated case Some(b) => b case None => false;
    listing := Listing(folders, files, truncated, prefix);
  }

  // -----------------------------------------------------------------------
  // Properties of the shaped listing

  /** A folder's name is the last component of its prefix without the
      trailing `/`s: it holds no `/`, and ends the stripped prefix right
      after a `/` or is all of it. */
  lemma FolderNameShape(commonPrefix: string)
    ensures var stripped, n := RStrip(commonPrefix, '/'), FolderName(commonPrefix);
      && '/' !in n
      && EndsWith(stripped, n)
      && (n == stripped || stripped[|stripped| - |n| - 1] == '/')
      && StartsWith(commonPrefix, stripped)
  {
    LastComponentShape(RStrip(commonPrefix, '/'), '/');
    RStripShape(commonPrefix, '/');
  }

  /** Every folder comes from the common prefix at the same position, and
      is named after it. */
  lemma ListedFolders(prefix: string, response: ListResponse)
    ensures var fs := ShapedListing(prefix, response).folders;
      && |fs| == |response.commonPrefixes|
      && forall i :: 0 <= i < |fs| ==>
           fs[i].prefix == response.commonPrefixes[i] && fs[i].name == FolderName(fs[i].prefix)
  {
  }

  /** The files are exactly the listed objects, in response order: none is
      the folder marker of the prefix, none has an empty name, each is
      named by the last component of its key, carries a bare ETag and a
      size defaulting to 0. */
  lemma ListedFiles(prefix: string, response: ListResponse)
    ensures forall f :: f in ShapedListing(prefix, response).files ==>
      && f.key != prefix
      && f.name != ""
      && '/' !in f.name
      && EndsWith(f.key, f.name)
      && (f.etag == [] || (f.etag[0] != '"' && f.etag[|f.etag| - 1] != '"'))
      && exists o :: o in response.contents && f == FileOf(o)
  {
    var kept := Filter(response.contents, ListedUnder(prefix));
    var files := ShapedListing(prefix, response).files;
    FilterSubset(response.contents, ListedUnder(prefix));
    forall f | f in files
      ensures && f.key != prefix
              && f.name != ""
              && '/' !in f.name
              && EndsWith(f.key, f.name)
              && (f.etag == [] || (f.etag[0] != '"' && f.etag[|f.etag| - 1] != '"'))
              && exists o :: o in response.contents && f == FileOf(o)
    {
      var i :| 0 <= i < |files| && files[i] == f;
      assert f == FileOf(kept[i]);
      assert kept[i] in kept;
      assert IsListedObject(prefix, kept[i]);
      ListedFileShape(prefix, kept[i]);
    }
  }

  /** Every object that is not the folder marker and has a name is listed
      as a file. */
  lemma AllListedObjectsShown(prefix: string, response: ListResponse)
    ensures forall o :: o in response.contents && IsListedObject(prefix, o) ==>
      FileOf(o) in ShapedListing(prefix, response).files
  {
    var kept := Filter(response.contents, ListedUnder(prefix));
    var files := ShapedListing(prefix, response).files;
    FilterComplete(response.contents, ListedUnder(prefix));
    forall o | o in response.contents && IsListedObject(prefix, o)
      ensures FileOf(o) in files
    {
      var i :| 0 <= i < |kept| && kept[i] == o;
      assert files[i] == FileOf(o);
    }
  }

  /** The file entry of one listed object. */
  lemma ListedFileShape(prefix: string, o: S3Object)
    requires IsListedObject(prefix, o)
    ensures var f := FileOf(o);
      && f.key == o.key && f.key != prefix
      && f.name != ""
      && '/' !in f.name
      && EndsWith(f.key, f.name)
      && (f.etag == [] || (f.etag[0] != '"' && f.etag[|f.etag| - 1] != '"'))
  {
    LastComponentShape(o.key, '/');
  }

  /** A response holding only the folder marker of the prefix yields no
      file, and one without common prefixes yields no folder. */
  lemma MarkerOnlyListing(prefix: string, marker: S3Object, truncated: Option<bool>)
    requires marker.key == prefix
    ensures var l := ShapedListing(prefix, ListResponse([], [marker], truncated));
      l.folders == [] && l.files == [] && l.prefix == prefix
      && l.isTruncated == (truncated == Some(true))
  {
    assert Filter([marker], ListedUnder(prefix)) == Filter([marker][1..], ListedUnder(prefix));
  }

  // =======================================================================
  // head_object

  /** The fields of a `HeadObject` response that are read. */
  datatype HeadResponse = HeadResponse(contentLength: Option<nat>, lastModified: Option<Instant>,
                                       etag: Option<string>, contentType: Option<string>,
                                       metadata: map<string, string>)

  datatype ObjectMeta = ObjectMeta(key: string, size: nat, lastModified: Option<Instant>, etag: string,
                                   contentType: string, metadata: map<string, string>)

  const DefaultContentType: string := "application/octet-stream"

  /** `head_object`; a response of `None` is the client error it catches. */
  function HeadObject(key: string, response: Option<HeadResponse>): (r: Option<ObjectMeta>)
    ensures r.None? <==> response.None?
    ensures r.Some? ==> r.value.key == key && r.value.metadata == response.value.metadata
    ensures r.Some? ==> (r.value.etag == [] || (r.value.etag[0] != '"' && r.value.etag[|r.value.etag| - 1] != '"'))
    ensures r.Some? ==> (response.value.contentType.None? ==> r.value.contentType == DefaultContentType)
  {
    match response
    case None => None
    case Some(h) =>
      Some(ObjectMeta(key, match h.contentLength case Some(n) => n case None => 0,
                      h.lastModified, StripETag(h.etag),
                      match h.contentType case Some(c) => c case None => DefaultContentType,
                      h.metadata))
  }

  /** An ETag returned unquoted is kept as it is. */
  lemma BareETagKept(etag: string)
    requires etag == [] || (etag[0] != '"' && etag[|etag| - 1] != '"')
    ensures StripETag(Some(etag)) == etag
  {
    StripUnquoted(etag, '"');
  }
}
