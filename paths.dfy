/**
 * The path helpers of the directory browser (`open_connection`) and of the
 * download view (`get_file`).
 *
 * A remote path travels inside one URL segment as a token in which every
 * `/` has been replaced by `^`. There is no escaping: a path that itself
 * holds `^` does not survive the round trip.
 */
module Paths {

  /** `s.replace(x, y)` for one-character arguments: every `x` becomes `y`. */
  function Replace(s: string, x: char, y: char): (r: string)
    ensures |r| == |s|
    ensures forall i :: 0 <= i < |s| ==> r[i] == (if s[i] == x then y else s[i])
  {
    if s == [] then [] else [if s[0] == x then y else s[0]] + Replace(s[1..], x, y)
  }

  /** The token that stands for `path` in a URL. */
  function Encode(path: string): (token: string)
    ensures |token| == |path| && '/' !in token
    ensures forall i :: 0 <= i < |path| ==> (token[i] == '^' <==> path[i] == '/' || path[i] == '^')
  {
    Replace(path, '/', '^')
  }

  /** The path a URL token stands for. */
  function Decode(token: string): (path: string)
    ensures |path| == |token| && '^' !in path
    ensures forall i :: 0 <= i < |token| ==> (path[i] == '/' <==> token[i] == '/' || token[i] == '^')
  {
    Replace(token, '^', '/')
  }

  lemma DecodeEncode(path: string)
    requires '^' !in path
    ensures Decode(Encode(path)) == path
  {
    assert forall i :: 0 <= i < |path| ==> Decode(Encode(path))[i] == path[i];
  }

  /** A token read from one URL segment holds no `/`, and such a token is re-encoded to itself. */
  lemma EncodeDecode(token: string)
    requires '/' !in token
    ensures Encode(Decode(token)) == token
  {
    assert forall i :: 0 <= i < |token| ==> Encode(Decode(token))[i] == token[i];
  }

  /** Without escaping, a path holding `^` shares its token with another path. */
  lemma EncodeCollision()
    ensures Encode("a/b") == Encode("a^b") == "a^b"
  {
  }

  /** `s.rfind(c)`: the index of the last `c` in `s`, or -1 when there is none. */
  function RFind(s: string, c: char): (k: int)
    ensures -1 <= k < |s|
    ensures k == -1 <==> c !in s
    ensures 0 <= k ==> s[k] == c && c !in s[k + 1..]
  {
    if s == [] then -1
    else if s[|s| - 1] == c then |s| - 1
    else
      assert s == s[..|s| - 1] + [s[|s| - 1]];
      RFind(s[..|s| - 1], c)
  }

  /** The stop index Python uses for `s[:k]` on a string of length `n`: a negative `k` counts from the end. */
  function SliceStop(k: int, n: nat): (j: nat)
    ensures j <= n
    ensures 0 <= k <= n ==> j == k
    ensures -(n as int) <= k < 0 ==> j == n + k
  {
    if k < 0 then (if n + k < 0 then 0 else n + k)
    else if k < n then k else n
  }

  /** `path[path.rfind("/") + 1:]`: the name under which a file is downloaded. */
  function Filename(path: string): (name: string)
    ensures '/' !in name
    ensures |name| <= |path| && name == path[|path| - |name|..]
    ensures |name| < |path| ==> path[|path| - |name| - 1] == '/'
  {
    path[RFind(path, '/') + 1..]
  }

  /** The file name of a path built as `dir + "/" + name` is `name`. */
  lemma FilenameOfChild(dir: string, name: string)
    requires '/' !in name
    ensures Filename(dir + "/" + name) == name
  {
    var p := dir + "/" + name;
    var f := Filename(p);
    assert p[|dir|] == '/' && p[|dir| + 1..] == name;
    if |f| > |name| {
      assert false;
    } else if |f| < |name| {
      assert false;
    }
  }

  lemma FilenameExample()
    ensures Filename("docs/a.pdf") == "a.pdf"
  {
    assert '/' !in "a.pdf";
    FilenameOfChild("docs", "a.pdf");
    assert "docs" + "/" + "a.pdf" == "docs/a.pdf";
  }

  /** The `Content-Disposition` header of a download of `path`. */
  function Disposition(path: string): (header: string)
    ensures |header| == 21 + |Filename(path)|
    ensures header[..21] == "attachment; filename=" && header[21..] == Filename(path)
    ensures '/' !in header[21..]
  {
    "attachment; filename=" + Filename(path)
  }

  /**
   * The `previous_dir` token of the browser: `"."` stays `"."`, any other
   * path is cut before its last `/` and encoded. A path without `/` has
   * `rfind` equal to -1, so `current_dir[:-1]` drops its last character.
   */
  function PreviousDir(currentDir: string): (t: string)
    ensures currentDir == "." ==> t == "."
    ensures currentDir != "." && '/' !in currentDir ==>
              t == Encode(currentDir[..if currentDir == [] then 0 else |currentDir| - 1])
    ensures currentDir != "." && '/' in currentDir ==>
              t == Encode(currentDir[..|currentDir| - |Filename(currentDir)| - 1])
  {
    if currentDir == "." then "."
    else
      ParentStop(currentDir);
      Encode(currentDir[..SliceStop(RFind(currentDir, '/'), |currentDir|)])
  }

  /** Where `current_dir[:current_dir.rfind("/")]` stops. */
  lemma ParentStop(s: string)
    ensures '/' !in s ==> SliceStop(RFind(s, '/'), |s|) == if s == [] then 0 else |s| - 1
    ensures '/' in s ==> SliceStop(RFind(s, '/'), |s|) == |s| - |Filename(s)| - 1
  {
    var k := RFind(s, '/');
    if 0 <= k {
      assert Filename(s) == s[k + 1..];
      assert SliceStop(k, |s|) == k == |s| - |Filename(s)| - 1;
    } else {
      assert SliceStop(k, |s|) == if s == [] then 0 else |s| - 1;
    }
  }

  /** Going up from `dir + "/" + name` leads to the token of `dir`. */
  lemma PreviousDirOfChild(dir: string, name: string)
    requires '/' !in name
    ensures PreviousDir(dir + "/" + name) == Encode(dir)
  {
    var p := dir + "/" + name;
    assert p != "." by { assert p[|dir|] == '/'; }
    assert '/' in p by { assert p[|dir|] == '/'; }
    FilenameOfChild(dir, name);
    assert p[..|dir|] == dir;
  }

  /** A path holding neither `/` nor `^` is its own token. */
  lemma EncodePlain(path: string)
    requires '/' !in path && '^' !in path
    ensures Encode(path) == path
  {
    assert forall i :: 0 <= i < |path| ==> Encode(path)[i] == path[i];
  }

  lemma PreviousDirExamples()
    ensures PreviousDir("a/b/c") == "a^b"
    ensures PreviousDir(".") == "."
  {
    PreviousDirOfChild("a/b", "c");
    assert "a/b" + "/" + "c" == "a/b/c";
    assert Encode("a/b") == "a^b" by {
      assert Encode("a/b")[1] == '^';
      assert Encode("a/b")[0] == 'a' && Encode("a/b")[2] == 'b';
    }
  }

  /** A top-level directory name loses its last character. */
  lemma PreviousDirWithoutSlash()
    ensures PreviousDir("home") == "hom"
  {
    assert '/' !in "home";
    assert "home"[..3] == "hom";
    EncodePlain("hom");
  }

  /** One element of `listdir_attr`: the name and `st_size` of a remote entry. */
  datatype Entry = Entry(filename: string, size: nat)

  /** A listed entry together with the token of its full path. */
  datatype Listed = Listed(token: string, entry: Entry)

  /** The folder test of the listing: size zero and no `.` in the name. */
  predicate IsFolder(e: Entry) {
    e.size == 0 && '.' !in e.filename
  }

  /** The file test of the listing: a positive size, or a `.` somewhere in the name. */
  predicate IsFile(e: Entry) {
    e.size > 0 || '.' in e.filename
  }

  /** Every entry is a folder or a file, never both. */
  lemma FolderOrFile(e: Entry)
    ensures IsFolder(e) != IsFile(e)
  {
  }

  lemma ClassificationExamples()
    ensures IsFolder(Entry("data", 0))
    ensures IsFile(Entry("report.txt", 0)) && !IsFolder(Entry("report.txt", 0))
    ensures IsFile(Entry("image.png", 1024)) && !IsFolder(Entry("image.png", 1024))
  {
    assert "report.txt"[6] == '.';
    assert "image.png"[5] == '.';
  }

  /** The token of the entry `filename` of directory `dir`. */
  function ChildToken(dir: string, filename: string): (token: string)
    ensures |token| == |dir| + 1 + |filename| && '/' !in token
    ensures token[|dir|] == '^'
  {
    assert (dir + "/" + filename)[|dir|] == '/';
    Encode(dir + "/" + filename)
  }

  /** A child token decodes back to the child's path when neither part holds `^`. */
  lemma ChildTokenRoundTrip(dir: string, filename: string)
    requires '^' !in dir && '^' !in filename
    ensures Decode(ChildToken(dir, filename)) == dir + "/" + filename
  {
    DecodeEncode(dir + "/" + filename);
  }

  /** The `folders` comprehension. */
  function Folders(dir: string, elms: seq<Entry>): (r: seq<Listed>)
    ensures |r| <= |elms|
    ensures forall l :: l in r ==> l.entry in elms && IsFolder(l.entry) && l.token == ChildToken(dir, l.entry.filename)
    ensures forall e :: e in elms && IsFolder(e) ==> Listed(ChildToken(dir, e.filename), e) in r
  {
    if elms == [] then []
    else
      var head := if IsFolder(elms[0]) then [Listed(ChildToken(dir, elms[0].filename), elms[0])] else [];
      head + Folders(dir, elms[1..])
  }

  /** The `files` comprehension. */
  function Files(dir: string, elms: seq<Entry>): (r: seq<Listed>)
    ensures |r| <= |elms|
    ensures forall l :: l in r ==> l.entry in elms && IsFile(l.entry) && l.token == ChildToken(dir, l.entry.filename)
    ensures forall e :: e in elms && IsFile(e) ==> Listed(ChildToken(dir, e.filename), e) in r
  {
    if elms == [] then []
    else
      var head := if IsFile(elms[0]) then [Listed(ChildToken(dir, elms[0].filename), elms[0])] else [];
      head + Files(dir, elms[1..])
  }

  /** The entries of a list of listed entries, in order. */
  function Entries(ls: seq<Listed>): (es: seq<Entry>)
    ensures |es| == |ls|
    ensures forall i :: 0 <= i < |ls| ==> es[i] == ls[i].entry
  {
    if ls == [] then [] else [ls[0].entry] + Entries(ls[1..])
  }

  /** `s` is a merge of `a` and `b`: each element of `s` is taken, in order, from the front of one of them. */
  predicate Interleaves<T(==)>(s: seq<T>, a: seq<T>, b: seq<T>)
    decreases |s|
  {
    if s == [] then a == [] && b == []
    else
      (a != [] && a[0] == s[0] && Interleaves(s[1..], a[1..], b))
      || (b != [] && b[0] == s[0] && Interleaves(s[1..], a, b[1..]))
  }

  /** A merge holds each element exactly as often as its two parts together. */
  lemma {:induction false} InterleavesMultiset<T>(s: seq<T>, a: seq<T>, b: seq<T>)
    requires Interleaves(s, a, b)
    ensures multiset(s) == multiset(a) + multiset(b)
    decreases |s|
  {
    if s != [] {
      assert s == [s[0]] + s[1..];
      if a != [] && a[0] == s[0] && Interleaves(s[1..], a[1..], b) {
        InterleavesMultiset(s[1..], a[1..], b);
        assert a == [a[0]] + a[1..];
      } else {
        InterleavesMultiset(s[1..], a, b[1..]);
        assert b == [b[0]] + b[1..];
      }
    }
  }

  /**
   * The listing is a merge of the folders and the
   * files: every entry lands in exactly one of the two lists, and both keep
   * the listing's order.
   */
  lemma {:induction false} ListingPartition(dir: string, elms: seq<Entry>)
    ensures Interleaves(elms, Entries(Folders(dir, elms)), Entries(Files(dir, elms)))
    ensures multiset(elms) == multiset(Entries(Folders(dir, elms))) + multiset(Entries(Files(dir, elms)))
    decreases |elms|
  {
    if elms != [] {
      ListingPartition(dir, elms[1..]);
      var e := elms[0];
      var l := Listed(ChildToken(dir, e.filename), e);
      FolderOrFile(e);
      if IsFolder(e) {
        assert Folders(dir, elms) == [l] + Folders(dir, elms[1..]);
        assert Files(dir, elms) == Files(dir, elms[1..]);
      } else {
        assert Folders(dir, elms) == Folders(dir, elms[1..]);
        assert Files(dir, elms) == [l] + Files(dir, elms[1..]);
      }
    }
    InterleavesMultiset(elms, Entries(Folders(dir, elms)), Entries(Files(dir, elms)));
  }

  /** What the browser page shows for one directory listing. */
  datatype Browsing = Browsing(folders: seq<Listed>, files: seq<Listed>, currentDirectory: string, previousDir: string)

  /**
   * The listing page of `open_connection` for the directory `token` stands
   * for, given the entries the server returned for it.
   */
  function Browse(token: string, elms: seq<Entry>): (b: Browsing)
    ensures b.currentDirectory == Decode(token) + "/"
    ensures forall l :: l in b.folders + b.files && '^' !in l.entry.filename ==>
              Decode(l.token) == b.currentDirectory + l.entry.filename
  {
    var dir := Decode(token);
    ListedTokensDecode(dir, Folders(dir, elms) + Files(dir, elms));
    Browsing(Folders(dir, elms), Files(dir, elms), dir + "/", PreviousDir(dir))
  }

  lemma ListedTokensDecode(dir: string, ls: seq<Listed>)
    requires '^' !in dir
    requires forall l :: l in ls ==> l.token == ChildToken(dir, l.entry.filename)
    ensures forall l :: l in ls && '^' !in l.entry.filename ==> Decode(l.token) == dir + "/" + l.entry.filename
  {
    forall l | l in ls && '^' !in l.entry.filename
      ensures Decode(l.token) == dir + "/" + l.entry.filename
    {
      ChildTokenRoundTrip(dir, l.entry.filename);
    }
  }

  /**
   * Opening a listed entry and then going up returns to the token of the
   * directory it was listed in.
   */
  lemma UpReturnsToParent(token: string, name: string, elms: seq<Entry>)
    requires '/' !in token && '/' !in name && '^' !in name
    ensures Browse(ChildToken(Decode(token), name), elms).previousDir == token
  {
    var dir := Decode(token);
    ChildTokenRoundTrip(dir, name);
    PreviousDirOfChild(dir, name);
    EncodeDecode(token);
  }

  /** Downloading a listed entry's token offers the entry's own name. */
  lemma DownloadNameOfListed(dir: string, name: string)
    requires '^' !in dir && '^' !in name && '/' !in name
    ensures Filename(Decode(ChildToken(dir, name))) == name
    ensures Disposition(Decode(ChildToken(dir, name))) == "attachment; filename=" + name
  {
    ChildTokenRoundTrip(dir, name);
    FilenameOfChild(dir, name);
  }
}
