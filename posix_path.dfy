/** `pathlib.PurePosixPath`, as far as the browser uses it: parsing a
    string into an anchor and components, `.name`, `.parent` and `str()`.
    Empty components and `.` components are dropped; exactly two leading
    slashes form their own anchor, one or three or more form `/`. */
module PosixPath {
  import opened Text
  import opened Lists

  datatype PurePath = PurePath(root: string, parts: seq<string>)

  predicate IsKeptPart(c: string) {
    c != "" && c != "."
  }

  function Root(p: string): string {
    if StartsWith(p, "//") && !StartsWith(p, "///") then "//"
    else if StartsWith(p, "/") then "/"
    else ""
  }

  function Parse(p: string): (r: PurePath)
    ensures forall k :: 0 <= k < |r.parts| ==> IsKeptPart(r.parts[k])
  {
    PurePath(Root(p), Filter(Split(p, '/'), IsKeptPart))
  }

  /** `.name`: the last component, or `""` when there is none. */
  function Name(p: PurePath): string {
    if p.parts == [] then "" else p.parts[|p.parts| - 1]
  }

  /** `.parent`: the path without its last component (an anchor or `.` is
      its own parent). */
  function Parent(p: PurePath): PurePath {
    if p.parts == [] then p else PurePath(p.root, p.parts[..|p.parts| - 1])
  }

  /** `str(path)`. */
  function Str(p: PurePath): string {
    if p.root == "" && p.parts == [] then "." else p.root + Join(p.parts, '/')
  }

  /** A relative object key whose every component is a real name: what
      `PurePosixPath` leaves unchanged. */
  predicate IsPlainKey(k: string) {
    && k != ""
    && k[0] != '/'
    && forall c :: c in Split(k, '/') ==> IsKeptPart(c)
  }

  lemma {:induction false} JoinSnoc(parts: seq<string>, last: string, sep: char)
    requires parts != []
    ensures Join(parts + [last], sep) == Join(parts, sep) + [sep] + last
    decreases |parts|
  {
    if |parts| == 1 {
      assert parts + [last] == [parts[0], last];
      assert [parts[0], last][1..] == [last];
    } else {
      assert (parts + [last])[1..] == parts[1..] + [last];
      JoinSnoc(parts[1..], last, sep);
    }
  }

  /** `str(PurePosixPath(k)) == k` for a plain key, and its parts are the
      split of the key. */
  lemma PlainKeyParts(k: string)
    requires IsPlainKey(k)
    ensures Parse(k).root == ""
    ensures Parse(k).parts == Split(k, '/')
    ensures Str(Parse(k)) == k
  {
    var parts := Split(k, '/');
    assert forall i :: 0 <= i < |parts| ==> IsKeptPart(parts[i]) by {
      forall i | 0 <= i < |parts| ensures IsKeptPart(parts[i]) {
        assert parts[i] in parts;
      }
    }
    FilterAll(parts, IsKeptPart);
    JoinSplit(k, '/');
  }
}
