/** The storage service's filesystem operations (dir, getFileData, upload, mkdir, rm and the
    recursive deleteDirectory) over a directory tree. The tree maps each existing entry,
    named by its resolved segment list, to a file with its bytes or to a directory; a string
    path reaches the entry its Segments designate, as the operating system resolves it. */
module FileSystem {
  import opened Http
  import opened Paths

  type Path = seq<string>

  datatype Node = File(content: seq<Byte>) | Dir

  type Tree = map<Path, Node>

  /** What a real directory tree looks like: names are proper segments and every entry other
      than the root sits inside a directory. */
  ghost predicate WellFormed(t: Tree) {
    && (forall p :: p in t ==> AllProper(p))
    && (forall p {:trigger InDir(t, p)} :: p in t ==> InDir(t, p))
  }

  /** p is the root or its parent is a directory. */
  predicate InDir(t: Tree, p: Path) {
    p == [] || IsDir(t, p[..|p| - 1])
  }

  predicate IsDir(t: Tree, p: Path) {
    p in t && t[p] == Dir
  }

  predicate IsFile(t: Tree, p: Path) {
    p in t && t[p].File?
  }

  /** What an operation returns, and the tree it leaves behind. */
  datatype Effect<+T> = Effect(result: Result<T>, tree: Tree)

  const DirExists := "Директория уже существует"
  const DirNotFound := "Директория не найдена: "
  const FileNotFound := "Файл не найден: "
  const NothingToRemove := "Файл или директория не найдены: "
  const UploadFailed := "Ошибка при загрузке файла: "
  const DefaultMime := "application/octet-stream"

  // ---------------------------------------------------------------------------
  // mkdir

  /** Some proper prefix of p is a file: a recursive mkdir of p cannot get past it. */
  predicate BlockedByFile(t: Tree, p: Path) {
    exists i :: 0 <= i < |p| && IsFile(t, p[..i])
  }

  function Prefixes(p: Path): set<Path> {
    set i | 0 <= i <= |p| :: p[..i]
  }

  /** The tree after a recursive mkdir of p: p and each of its missing parents added as
      directories. */
  function WithDirs(t: Tree, p: Path): Tree {
    t + map q | q in Prefixes(p) && q !in t :: Dir
  }

  /** mkdir: 409 when anything exists at the path; otherwise PHP's recursive mkdir, which
      creates the directory and every missing parent, and reports false (changing nothing)
      when a parent is a file. */
  function MkdirEffect(t: Tree, path: string): Effect<bool> {
    var p := Segments(path);
    if p in t then Effect(Err(409, DirExists), t)
    else if BlockedByFile(t, p) then Effect(Ok(false), t)
    else Effect(Ok(true), WithDirs(t, p))
  }

  lemma WithDirsCreates(t: Tree, p: Path)
    requires p !in t && !BlockedByFile(t, p)
    ensures forall i :: 0 <= i <= |p| ==> IsDir(WithDirs(t, p), p[..i])
  {
    forall i | 0 <= i <= |p| ensures IsDir(WithDirs(t, p), p[..i]) {
      assert p[..i] in Prefixes(p);
      if i < |p| {
        assert !IsFile(t, p[..i]);
      } else {
        assert p[..i] == p;
      }
    }
  }

  lemma WithDirsAddsOnlyParents(t: Tree, p: Path)
    ensures forall q :: q in t ==> q in WithDirs(t, p) && WithDirs(t, p)[q] == t[q]
    ensures forall q :: q in WithDirs(t, p) && q !in t ==> q <= p
  {
    forall q | q in WithDirs(t, p) && q !in t ensures q <= p {
      var i :| 0 <= i <= |p| && q == p[..i];
    }
  }

  lemma WithDirsWellFormed(t: Tree, p: Path)
    requires WellFormed(t) && AllProper(p) && !BlockedByFile(t, p)
    ensures WellFormed(WithDirs(t, p))
  {
    var t' := WithDirs(t, p);
    forall q | q in t' ensures AllProper(q) {
      if q !in t {
        var i :| 0 <= i <= |p| && q == p[..i];
        assert forall j :: 0 <= j < |q| ==> q[j] == p[j];
      }
    }
    forall q | q in t' ensures InDir(t', q) {
      if q in t {
        assert InDir(t, q);
      } else if q != [] {
        var i :| 0 <= i <= |p| && q == p[..i];
        assert q[..|q| - 1] == p[..i - 1];
        assert p[..i - 1] in Prefixes(p);
        assert !IsFile(t, p[..i - 1]);
      }
    }
  }

  /** mkdir's three outcomes: 409 exactly when something exists at the path; false and no
      change when a parent is a file; otherwise the path and all its parents are directories
      afterwards, every old entry is kept as it was, only parents of the path are added, and
      the tree stays well formed. */
  lemma MkdirOutcome(t: Tree, path: string)
    requires WellFormed(t)
    ensures var p, e := Segments(path), MkdirEffect(t, path);
      && (e.result.Err? <==> p in t)
      && (e.result.Err? ==> e.result.code == 409 && e.tree == t)
      && (e.result == Ok(false) <==> p !in t && BlockedByFile(t, p))
      && (e.result == Ok(false) ==> e.tree == t)
      && (e.result == Ok(true) ==>
            && (forall i :: 0 <= i <= |p| ==> IsDir(e.tree, p[..i]))
            && (forall q :: q in t ==> q in e.tree && e.tree[q] == t[q])
            && (forall q :: q in e.tree && q !in t ==> q <= p))
      && WellFormed(e.tree)
  {
    var p := Segments(path);
    if p !in t && !BlockedByFile(t, p) {
      WithDirsCreates(t, p);
      WithDirsAddsOnlyParents(t, p);
      WithDirsWellFormed(t, p);
    }
  }

  // ---------------------------------------------------------------------------
  // rm and deleteDirectory

  /** The tree without p and everything below it. */
  function Prune(t: Tree, p: Path): (t': Tree)
    ensures forall q :: q in t' <==> q in t && !(p <= q)
    ensures forall q :: q in t' ==> t'[q] == t[q]
  {
    map q | q in t && !(p <= q) :: t[q]
  }

  /** rm: 404 when nothing exists at the path; otherwise the file, or the directory with
      everything below it, is gone. */
  function RmEffect(t: Tree, path: string): Effect<bool> {
    var p := Segments(path);
    if p !in t then Effect(Err(404, NothingToRemove + path), t)
    else Effect(Ok(true), Prune(t, p))
  }

  /** Every proper prefix of an entry is a directory. */
  lemma {:induction false} AncestorIsDir(t: Tree, q: Path, k: nat)
    requires WellFormed(t) && q in t && k < |q|
    ensures IsDir(t, q[..k])
    decreases |q| - k
  {
    var parent := q[..|q| - 1];
    assert InDir(t, q);
    if k < |parent| {
      AncestorIsDir(t, parent, k);
      assert parent[..k] == q[..k];
    }
  }

  /** Nothing lies below a file. */
  lemma FileIsLeaf(t: Tree, p: Path)
    requires WellFormed(t) && IsFile(t, p)
    ensures Prune(t, p) == t - {p}
  {
    forall q | q in t && p <= q && q != p ensures false {
      assert q[..|p|] == p;
      AncestorIsDir(t, q, |p|);
    }
  }

  lemma PruneKeepsWellFormed(t: Tree, p: Path)
    requires WellFormed(t)
    ensures WellFormed(Prune(t, p))
  {
    var t' := Prune(t, p);
    forall q | q in t' ensures InDir(t', q) {
      assert InDir(t, q);
      if q != [] {
        assert p <= q[..|q| - 1] ==> p <= q;
      }
    }
  }

  /** rm's two outcomes: 404 and no change exactly when nothing exists at the path; otherwise
      the path and what lies below it are gone (only the path itself for a file), everything
      else is kept as it was, and the tree stays well formed. */
  lemma RmOutcome(t: Tree, path: string)
    requires WellFormed(t)
    ensures var p, e := Segments(path), RmEffect(t, path);
      && (e.result.Err? <==> p !in t)
      && (e.result.Err? ==> e.result.code == 404 && e.tree == t)
      && (e.result.Ok? ==>
            && (forall q :: q in e.tree <==> q in t && !(p <= q))
            && (forall q :: q in e.tree ==> e.tree[q] == t[q])
            && (IsFile(t, p) ==> e.tree == t - {p}))
      && WellFormed(e.tree)
  {
    var p := Segments(path);
    PruneKeepsWellFormed(t, p);
    if IsFile(t, p) {
      FileIsLeaf(t, p);
    }
  }

  /** Every entry at or below p. */
  function Subtree(t: Tree, p: Path): set<Path> {
    set q | q in t && p <= q
  }

  /** The names of the entries directly inside directory p. */
  function Children(t: Tree, p: Path): set<string> {
    set q | q in t && |q| == |p| + 1 && q[..|p|] == p :: q[|p|]
  }

  /** The tree after deleteDirectory(d) has handled the children named in done. */
  function PruneBelow(t: Tree, d: Path, done: set<string>): Tree {
    map q | q in t && !(|q| > |d| && q[..|d|] == d && q[|d|] in done) :: t[q]
  }

  lemma ChildEntry(t: Tree, d: Path, n: string)
    requires n in Children(t, d)
    ensures d + [n] in t
  {
    var q :| q in t && |q| == |d| + 1 && q[..|d|] == d && q[|d|] == n;
    assert q == d + [n];
  }

  /** Removing the subtree of child n extends the children handled so far by n. */
  lemma PruneChildStep(t: Tree, d: Path, done: set<string>, n: string)
    ensures Prune(PruneBelow(t, d, done), d + [n]) == PruneBelow(t, d, done + {n})
  {
    var c := d + [n];
    var a, b := Prune(PruneBelow(t, d, done), c), PruneBelow(t, d, done + {n});
    forall q ensures q in a <==> q in b {
      if |q| > |d| {
        assert q[..|c|] == q[..|d|] + [q[|d|]];
        assert c <= q <==> q[..|d|] == d && q[|d|] == n;
      }
    }
  }

  /** Once every child is handled, only d itself is left of its subtree. */
  lemma PruneAllChildren(t: Tree, d: Path)
    requires WellFormed(t)
    ensures PruneBelow(t, d, Children(t, d)) - {d} == Prune(t, d)
  {
    var kids := Children(t, d);
    var a, b := PruneBelow(t, d, kids) - {d}, Prune(t, d);
    forall q | q in t ensures q in a <==> q in b {
      if |q| >= |d| {
        assert d <= q <==> q[..|d|] == d;
      }
      if |q| > |d| && q[..|d|] == d {
        AncestorOrSelf(t, q, |d| + 1);
        var c := q[..|d| + 1];
        assert c in t && |c| == |d| + 1;
        assert c[..|d|] == d && c[|d|] == q[|d|];
        assert q[|d|] in kids;
        assert q !in a && q !in b;
      } else {
        assert q in PruneBelow(t, d, kids);
        assert q in b <==> q != d;
      }
    }
    assert a.Keys == b.Keys;
  }

  lemma AncestorOrSelf(t: Tree, q: Path, k: nat)
    requires WellFormed(t) && q in t && k <= |q|
    ensures q[..k] in t
  {
    if k < |q| {
      AncestorIsDir(t, q, k);
    } else {
      assert q[..k] == q;
    }
  }

  lemma PruneBelowKeepsWellFormed(t: Tree, d: Path, done: set<string>)
    requires WellFormed(t)
    ensures WellFormed(PruneBelow(t, d, done))
  {
    var t' := PruneBelow(t, d, done);
    forall q | q in t' ensures InDir(t', q) {
      assert InDir(t, q);
      if q != [] {
        var r := q[..|q| - 1];
        if |r| > |d| {
          assert r[..|d|] == q[..|d|] && r[|d|] == q[|d|];
        }
      }
    }
  }

  // ---------------------------------------------------------------------------
  // dir: the listing in scandir's order

  /** strcmp($a, $b) <= 0: code-point order, a proper prefix first. */
  predicate NotAfter(a: string, b: string)
    decreases |a|
  {
    a == [] || (b != [] && (a[0] < b[0] || (a[0] == b[0] && NotAfter(a[1..], b[1..]))))
  }

  lemma {:induction false} NotAfterTotal(a: string, b: string)
    ensures NotAfter(a, b) || NotAfter(b, a)
    decreases |a|
  {
    if a != [] && b != [] && a[0] == b[0] {
      NotAfterTotal(a[1..], b[1..]);
    }
  }

  lemma {:induction false} NotAfterAntisymmetric(a: string, b: string)
    requires NotAfter(a, b) && NotAfter(b, a)
    ensures a == b
    decreases |a|
  {
    if a != [] {
      NotAfterAntisymmetric(a[1..], b[1..]);
      assert a == [a[0]] + a[1..] && b == [b[0]] + b[1..];
    }
  }

  lemma {:induction false} NotAfterTransitive(a: string, b: string, c: string)
    requires NotAfter(a, b) && NotAfter(b, c)
    ensures NotAfter(a, c)
    decreases |a|
  {
    if a != [] && a[0] == b[0] && b[0] == c[0] {
      NotAfterTransitive(a[1..], b[1..], c[1..]);
    }
  }

  predicate IsLeast(m: string, s: set<string>) {
    m in s && forall x :: x in s ==> NotAfter(m, x)
  }

  lemma {:induction false} LeastExists(s: set<string>)
    requires s != {}
    ensures exists m :: IsLeast(m, s)
    decreases |s|
  {
    var x :| x in s;
    if s - {x} == {} {
      assert s == {x};
      NotAfterTotal(x, x);
      assert IsLeast(x, s);
    } else {
      LeastExists(s - {x});
      var m :| IsLeast(m, s - {x});
      NotAfterTotal(m, x);
      if NotAfter(m, x) {
        assert IsLeast(m, s);
      } else {
        forall y | y in s ensures NotAfter(x, y) {
          if y != x {
            NotAfterTransitive(x, m, y);
          } else {
            NotAfterTotal(x, x);
          }
        }
        assert IsLeast(x, s);
      }
    }
  }

  /** The names of s in ascending strcmp order: the least first, then the rest. */
  ghost function Sorted(s: set<string>): (r: seq<string>)
    ensures |r| == |s|
    decreases |s|
  {
    if s == {} then []
    else
      LeastExists(s);
      var m :| IsLeast(m, s);
      [m] + Sorted(s - {m})
  }

  lemma SortedUnfold(s: set<string>)
    requires s != {}
    ensures IsLeast(Sorted(s)[0], s)
    ensures Sorted(s) == [Sorted(s)[0]] + Sorted(s - {Sorted(s)[0]})
  {
  }

  /** Sorted lists each name of s exactly once, in ascending order. */
  lemma {:induction false} SortedSpec(s: set<string>)
    ensures forall x :: x in s <==> x in Sorted(s)
    ensures forall i, j :: 0 <= i < j < |Sorted(s)| ==> NotAfter(Sorted(s)[i], Sorted(s)[j]) && Sorted(s)[i] != Sorted(s)[j]
    decreases |s|
  {
    if s != {} {
      SortedUnfold(s);
      var r := Sorted(s);
      var m, tail := r[0], Sorted(s - {r[0]});
      SortedSpec(s - {m});
      assert r == [m] + tail;
      forall i, j | 0 <= i < j < |r| ensures NotAfter(r[i], r[j]) && r[i] != r[j] {
        if i > 0 {
          assert r[i] == tail[i - 1] && r[j] == tail[j - 1];
        } else {
          assert r[j] == tail[j - 1] && tail[j - 1] in tail;
        }
      }
    }
  }

  /** Any least element is the one Sorted puts first. */
  lemma SortedFirst(s: set<string>, m: string)
    requires IsLeast(m, s)
    ensures Sorted(s) == [m] + Sorted(s - {m})
  {
    SortedUnfold(s);
    var first := Sorted(s)[0];
    NotAfterAntisymmetric(m, first);
  }

  /** scandir's ascending sort of the entry names. */
  method SortNames(names: set<string>) returns (r: seq<string>)
    ensures r == Sorted(names)
  {
    r := [];
    var rest := names;
    while rest != {}
      invariant r + Sorted(rest) == Sorted(names)
      decreases |rest|
    {
      LeastExists(rest);
      var m :| IsLeast(m, rest);
      SortedFirst(rest, m);
      assert (r + [m]) + Sorted(rest - {m}) == r + Sorted(rest);
      r := r + [m];
      rest := rest - {m};
    }
  }

  /** dir: 404 unless the path is a directory; otherwise its entry names (scandir without "."
      and "..") in ascending order, joined by single spaces. */
  ghost function DirResult(t: Tree, path: string): Result<string> {
    var p := Segments(path);
    if !IsDir(t, p) then Err(404, DirNotFound + path)
    else Ok(Implode(" ", Sorted(Children(t, p))))
  }

  /** The names a listing joins are the directory's entries, never "." or "..", each once
      and in ascending order. */
  lemma ListingNames(t: Tree, p: Path)
    requires WellFormed(t)
    ensures var names := Sorted(Children(t, p));
      && (forall n :: n in names <==> p + [n] in t)
      && (forall i :: 0 <= i < |names| ==> names[i] != "." && names[i] != "..")
      && (forall i, j :: 0 <= i < j < |names| ==> NotAfter(names[i], names[j]) && names[i] != names[j])
  {
    var names := Sorted(Children(t, p));
    SortedSpec(Children(t, p));
    forall n ensures n in names <==> p + [n] in t {
      if p + [n] in t {
        var q := p + [n];
        assert q[..|p|] == p && q[|p|] == n;
      } else if n in Children(t, p) {
        ChildEntry(t, p, n);
      }
    }
    forall i | 0 <= i < |names| ensures names[i] != "." && names[i] != ".." {
      var n := names[i];
      assert n in Children(t, p);
      ChildEntry(t, p, n);
      assert AllProper(p + [n]);
      assert (p + [n])[|p|] == n;
    }
  }

  // ---------------------------------------------------------------------------
  // getFileData and upload

  datatype FileData = FileData(mime: string, size: nat, filename: string, content: seq<Byte>)

  /** basename of a path: its last piece once trailing slashes are dropped. */
  function Basename(path: string): (name: string)
    ensures '/' !in name
  {
    var parts := Explode(TrimRight(path));
    parts[|parts| - 1]
  }

  /** getFileData: 404 unless the path is a file; otherwise the sniffed MIME type (the
      generic binary type when sniffing gives nothing), the size, the base name and the bytes. */
  function FileDataResult(t: Tree, path: string, sniff: seq<Byte> -> string): (r: Result<FileData>)
    ensures r.Ok? <==> IsFile(t, Segments(path))
    ensures r.Err? ==> r.code == 404
    ensures r.Ok? ==> r.value.content == t[Segments(path)].content && r.value.size == |r.value.content|
    ensures r.Ok? ==> r.value.mime != ""
  {
    var p := Segments(path);
    if !IsFile(t, p) then Err(404, FileNotFound + path)
    else
      var content := t[p].content;
      var sniffed := sniff(content);
      Ok(FileData(if sniffed == "" then DefaultMime else sniffed, |content|, Basename(path), content))
  }

  /** upload (UploadedFile::moveTo): the file lands at the entry the path designates when its
      parent is a directory and the entry is not a directory (an existing file is replaced);
      otherwise 400. */
  function UploadEffect(t: Tree, path: string, content: seq<Byte>): Effect<bool> {
    var p := Segments(path);
    if p != [] && IsDir(t, p[..|p| - 1]) && !IsDir(t, p) then Effect(Ok(true), t[p := File(content)])
    else Effect(Err(400, UploadFailed + path), t)
  }

  /** A successful upload writes exactly one file, keeps every other entry, and keeps the
      tree well formed; a failed one changes nothing. */
  lemma UploadOutcome(t: Tree, path: string, content: seq<Byte>)
    requires WellFormed(t)
    ensures var p, e := Segments(path), UploadEffect(t, path, content);
      && (e.result.Err? ==> e.result.code == 400 && e.tree == t)
      && (e.result.Ok? ==>
            && e.tree[p] == File(content)
            && (forall q :: q in e.tree && q != p <==> q in t && q != p)
            && (forall q :: q in t && q != p ==> e.tree[q] == t[q]))
      && WellFormed(e.tree)
  {
    var p, e := Segments(path), UploadEffect(t, path, content);
    if e.result.Ok? {
      forall q | q in e.tree ensures InDir(e.tree, q) {
        if q != p {
          assert q in t && InDir(t, q);
        }
      }
    }
  }

  // ---------------------------------------------------------------------------
  // the filesystem as state

  class Disk {
    var entries: Tree

    ghost predicate Valid()
      reads this
    {
      WellFormed(entries)
    }

    constructor (t: Tree)
      requires WellFormed(t)
      ensures Valid() && entries == t
    {
      entries := t;
    }

    method Mkdir(path: string) returns (r: Result<bool>)
      requires Valid()
      modifies this
      ensures Valid()
      ensures Effect(r, entries) == MkdirEffect(old(entries), path)
    {
      MkdirOutcome(entries, path);
      var p := Segments(path);
      if p in entries {
        return Err(409, DirExists);
      }
      if BlockedByFile(entries, p) {
        return Ok(false);
      }
      entries := WithDirs(entries, p);
      r := Ok(true);
    }

    method Rm(path: string) returns (r: Result<bool>)
      requires Valid()
      modifies this
      ensures Valid()
      ensures Effect(r, entries) == RmEffect(old(entries), path)
    {
      var p := Segments(path);
      if p !in entries {
        return Err(404, NothingToRemove + path);
      }
      if entries[p] == Dir {
        var ok := DeleteDirectory(p);
        return Ok(ok);
      }
      FileIsLeaf(entries, p);
      PruneKeepsWellFormed(entries, p);
      entries := entries - {p};
      r := Ok(true);
    }

    /** deleteDirectory: false when d is not a directory; otherwise each entry inside is
        unlinked (a file) or deleted recursively (a directory), then d itself is removed. */
    method DeleteDirectory(d: Path) returns (ok: bool)
      requires Valid()
      modifies this
      ensures Valid()
      ensures ok == IsDir(old(entries), d)
      ensures entries == if ok then Prune(old(entries), d) else old(entries)
      decreases Subtree(entries, d)
    {
      if !IsDir(entries, d) {
        return false;
      }
      ghost var t0 := entries;
      var names := Children(entries, d);
      var pending := names;
      while pending != {}
        invariant pending <= names
        invariant entries == PruneBelow(t0, d, names - pending)
        invariant Valid()
        decreases pending
      {
        var n :| n in pending;
        var c := d + [n];
        ChildEntry(t0, d, n);
        assert !(|c| > |d| && c[..|d|] == d && c[|d|] in names - pending);
        assert c in entries && entries[c] == t0[c];
        if entries[c] == Dir {
          assert Subtree(entries, c) < Subtree(t0, d) by {
            assert d in Subtree(t0, d) && d !in Subtree(entries, c);
            forall q | q in Subtree(entries, c) ensures q in Subtree(t0, d) {
              assert q[..|d|] == c[..|d|] == d;
            }
          }
          var _ := DeleteDirectory(c);
        } else {
          FileIsLeaf(entries, c);
          entries := entries - {c};
        }
        PruneChildStep(t0, d, names - pending, n);
        assert (names - pending) + {n} == names - (pending - {n});
        pending := pending - {n};
        PruneBelowKeepsWellFormed(t0, d, names - pending);
      }
      assert names - pending == names;
      PruneAllChildren(t0, d);
      PruneKeepsWellFormed(t0, d);
      entries := entries - {d};
      ok := true;
    }

    method ListDir(path: string) returns (r: Result<string>)
      requires Valid()
      ensures r == DirResult(entries, path)
    {
      var p := Segments(path);
      if !IsDir(entries, p) {
        return Err(404, DirNotFound + path);
      }
      var names := SortNames(Children(entries, p));
      r := Ok(Implode(" ", names));
    }

    method GetFileData(path: string, sniff: seq<Byte> -> string) returns (r: Result<FileData>)
      requires Valid()
      ensures r == FileDataResult(entries, path, sniff)
    {
      var p := Segments(path);
      if !IsFile(entries, p) {
        return Err(404, FileNotFound + path);
      }
      var content := entries[p].content;
      var mime := sniff(content);
      if mime == "" {
        mime := DefaultMime;
      }
      r := Ok(FileData(mime, |content|, Basename(path), content));
    }

    method Upload(path: string, content: seq<Byte>) returns (r: Result<bool>)
      requires Valid()
      modifies this
      ensures Valid()
      ensures Effect(r, entries) == UploadEffect(old(entries), path, content)
    {
      UploadOutcome(entries, path, content);
      var p := Segments(path);
      if p != [] && IsDir(entries, p[..|p| - 1]) && !IsDir(entries, p) {
        entries := entries[p := File(content)];
        return Ok(true);
      }
      r := Err(400, UploadFailed + path);
    }
  }
}
