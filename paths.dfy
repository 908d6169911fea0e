/** The pure path functions of the storage service: rtrim/ltrim on '/', joinPath, PHP's
    explode and implode, and normalizePath, which splits a path on '/' and replays its
    segments on a stack ("" and "." are skipped, ".." pops, anything else is pushed). */
module Paths {

  /** rtrim($s, '/'): s without its trailing slashes. */
  function TrimRight(s: string): (r: string)
    ensures |r| <= |s| && r == s[..|r|]
    ensures forall i :: |r| <= i < |s| ==> s[i] == '/'
    ensures r == [] || r[|r| - 1] != '/'
  {
    if s == [] || s[|s| - 1] != '/' then s else TrimRight(s[..|s| - 1])
  }

  /** ltrim($s, '/'): s without its leading slashes. */
  function TrimLeft(s: string): (r: string)
    ensures |r| <= |s| && r == s[|s| - |r|..]
    ensures forall i :: 0 <= i < |s| - |r| ==> s[i] == '/'
    ensures r == [] || r[0] != '/'
  {
    if s == [] || s[0] != '/' then s else TrimLeft(s[1..])
  }

  /** joinPath: the base without its trailing slashes, exactly one '/', then the path
      without its leading slashes. */
  function JoinPath(base: string, path: string): (r: string)
    ensures var k := |TrimRight(base)|;
      && |r| == k + 1 + |TrimLeft(path)|
      && r[..k] == base[..k] && r[k] == '/'
      && r[k + 1..] == path[|path| - |TrimLeft(path)|..]
      && (k == 0 || r[k - 1] != '/')
      && (k + 1 == |r| || r[k + 1] != '/')
  {
    TrimRight(base) + "/" + TrimLeft(path)
  }

  /** explode('/', s): the pieces of s between its slashes; there is always at least one. */
  function Explode(s: string): (parts: seq<string>)
    ensures |parts| >= 1
    ensures forall i :: 0 <= i < |parts| ==> '/' !in parts[i]
    decreases |s|
  {
    if s == [] then [""]
    else
      var rest := Explode(s[1..]);
      if s[0] == '/' then [""] + rest
      else [[s[0]] + rest[0]] + rest[1..]
  }

  /** implode($sep, $parts). */
  function Implode(sep: string, parts: seq<string>): string
    decreases |parts|
  {
    if parts == [] then ""
    else if |parts| == 1 then parts[0]
    else parts[0] + sep + Implode(sep, parts[1..])
  }

  /** A segment that normalizePath keeps on its stack. */
  predicate ProperSegment(seg: string) {
    seg != "" && seg != "." && seg != ".." && '/' !in seg
  }

  predicate AllProper(segs: seq<string>) {
    forall i :: 0 <= i < |segs| ==> ProperSegment(segs[i])
  }

  /** One turn of normalizePath's loop: skip "" and ".", pop on ".." (a pop of the empty
      stack does nothing), push anything else. */
  function Step(stack: seq<string>, part: string): seq<string> {
    if part == "" || part == "." then stack
    else if part == ".." then (if stack == [] then [] else stack[..|stack| - 1])
    else stack + [part]
  }

  /** The stack after replaying parts onto stack. */
  function Collapse(stack: seq<string>, parts: seq<string>): (r: seq<string>)
    ensures AllProper(stack) && (forall i :: 0 <= i < |parts| ==> '/' !in parts[i]) ==> AllProper(r)
    ensures |r| <= |stack| + |parts|
    decreases |parts|
  {
    if parts == [] then stack
    else Step(Collapse(stack, parts[..|parts| - 1]), parts[|parts| - 1])
  }

  /** The directory segments a path designates once "." and ".." are resolved. */
  function Segments(path: string): (segs: seq<string>)
    ensures AllProper(segs)
  {
    Collapse([], Explode(path))
  }

  /** The string normalizePath returns for path. */
  function Normalized(path: string): string {
    "/" + Implode("/", Segments(path))
  }

  /** normalizePath: the loop over the exploded parts with its stack. */
  method NormalizePath(path: string) returns (r: string)
    ensures r == Normalized(path)
  {
    var parts := Explode(path);
    var stack: seq<string> := [];
    var i := 0;
    while i < |parts|
      invariant 0 <= i <= |parts|
      invariant stack == Collapse([], parts[..i])
    {
      var part := parts[i];
      if part == "" || part == "." {
      } else if part == ".." {
        if stack != [] {
          stack := stack[..|stack| - 1];
        }
      } else {
        stack := stack + [part];
      }
      assert parts[..i + 1][..i] == parts[..i];
      i := i + 1;
    }
    assert parts[..i] == parts;
    r := "/" + Implode("/", stack);
  }

  // ---------------------------------------------------------------------------
  // explode and implode are inverse to each other

  lemma {:induction false} ImplodeExplode(s: string)
    ensures Implode("/", Explode(s)) == s
    decreases |s|
  {
    if s != [] {
      var rest := Explode(s[1..]);
      ImplodeExplode(s[1..]);
      if s[0] == '/' {
        assert Explode(s) == [""] + rest;
        assert Implode("/", Explode(s)) == "" + "/" + Implode("/", rest);
      } else if |rest| == 1 {
        assert Explode(s) == [[s[0]] + rest[0]];
      } else {
        var parts := Explode(s);
        assert parts == [[s[0]] + rest[0]] + rest[1..];
        assert parts[1..] == rest[1..];
        assert Implode("/", rest) == rest[0] + "/" + Implode("/", rest[1..]);
      }
    }
  }

  lemma {:induction false} ExplodeWithoutSlash(a: string)
    requires '/' !in a
    ensures Explode(a) == [a]
    decreases |a|
  {
    if a != [] {
      assert '/' !in a[1..] by {
        forall i | 0 <= i < |a[1..]| ensures a[1..][i] != '/' { assert a[1..][i] == a[i + 1]; }
      }
      ExplodeWithoutSlash(a[1..]);
      assert [a[0]] + a[1..] == a;
    }
  }

  /** explode on a string with a known first character. */
  lemma ExplodeCons(c: char, t: string)
    ensures Explode([c] + t) == if c == '/' then [""] + Explode(t) else [[c] + Explode(t)[0]] + Explode(t)[1..]
  {
    assert ([c] + t)[1..] == t;
  }

  /** Splitting at a '/' splits the pieces. */
  lemma {:induction false} ExplodeAround(a: string, b: string)
    ensures Explode(a + "/" + b) == Explode(a) + Explode(b)
    decreases |a|
  {
    if a == [] {
      assert a + "/" + b == ['/'] + b;
      ExplodeCons('/', b);
    } else {
      ExplodeAround(a[1..], b);
      ExplodeAroundStep(a[0], a[1..], b);
      assert a == [a[0]] + a[1..];
    }
  }

  lemma ExplodeAroundStep(c: char, tail: string, b: string)
    requires Explode(tail + "/" + b) == Explode(tail) + Explode(b)
    ensures Explode([c] + tail + "/" + b) == Explode([c] + tail) + Explode(b)
  {
    var t := tail + "/" + b;
    assert [c] + tail + "/" + b == [c] + t;
    ExplodeConsSplit(c, t, Explode(tail), Explode(b));
    ExplodeCons(c, tail);
  }

  lemma ExplodeConsSplit(c: char, t: string, ea: seq<string>, eb: seq<string>)
    requires |ea| >= 1 && Explode(t) == ea + eb
    ensures Explode([c] + t) == (if c == '/' then [""] + ea else [[c] + ea[0]] + ea[1..]) + eb
  {
    ExplodeCons(c, t);
    if c != '/' {
      ConsFirstPiece(c, ea, eb);
    } else {
      assert [""] + (ea + eb) == ([""] + ea) + eb;
    }
  }

  lemma ConsFirstPiece(c: char, ea: seq<string>, eb: seq<string>)
    requires |ea| >= 1
    ensures [[c] + (ea + eb)[0]] + (ea + eb)[1..] == ([[c] + ea[0]] + ea[1..]) + eb
  {
    assert (ea + eb)[0] == ea[0];
    assert (ea + eb)[1..] == ea[1..] + eb;
  }

  /** explode after implode gives back the segments, when none of them holds a '/'. */
  lemma {:induction false} ExplodeImplode(parts: seq<string>)
    requires |parts| >= 1
    requires forall i :: 0 <= i < |parts| ==> '/' !in parts[i]
    ensures Explode(Implode("/", parts)) == parts
    decreases |parts|
  {
    ExplodeWithoutSlash(parts[0]);
    if |parts| > 1 {
      ExplodeImplode(parts[1..]);
      ExplodeAround(parts[0], Implode("/", parts[1..]));
      assert [parts[0]] + parts[1..] == parts;
    }
  }

  lemma {:induction false} ImplodeSnoc(sep: string, parts: seq<string>, last: string)
    requires |parts| >= 1
    ensures Implode(sep, parts + [last]) == Implode(sep, parts) + sep + last
    decreases |parts|
  {
    if |parts| == 1 {
      assert parts + [last] == [parts[0], last];
      assert [parts[0], last][1..] == [last];
    } else {
      assert (parts + [last])[1..] == parts[1..] + [last];
      ImplodeSnoc(sep, parts[1..], last);
    }
  }

  // ---------------------------------------------------------------------------
  // the stack replay

  /** Replaying a concatenation is replaying one part after the other. */
  lemma {:induction false} CollapseAppend(stack: seq<string>, xs: seq<string>, ys: seq<string>)
    ensures Collapse(stack, xs + ys) == Collapse(Collapse(stack, xs), ys)
    decreases |ys|
  {
    if ys == [] {
      assert xs + ys == xs;
    } else {
      var zs := xs + ys;
      assert zs[..|zs| - 1] == xs + ys[..|ys| - 1];
      assert zs[|zs| - 1] == ys[|ys| - 1];
      CollapseAppend(stack, xs, ys[..|ys| - 1]);
    }
  }

  /** Proper segments are all pushed. */
  lemma {:induction false} CollapseProper(stack: seq<string>, segs: seq<string>)
    requires AllProper(segs)
    ensures Collapse(stack, segs) == stack + segs
    decreases |segs|
  {
    if segs != [] {
      CollapseProper(stack, segs[..|segs| - 1]);
      assert stack + segs == (stack + segs[..|segs| - 1]) + [segs[|segs| - 1]];
    }
  }

  /** A canonical string ("/" and proper segments joined by '/') designates its segments. */
  lemma SegmentsOfCanonical(segs: seq<string>)
    requires AllProper(segs)
    ensures Segments("/" + Implode("/", segs)) == segs
  {
    var s := "/" + Implode("/", segs);
    assert s == "" + "/" + Implode("/", segs);
    ExplodeAround("", Implode("/", segs));
    assert Explode("") == [""];
    if segs == [] {
      assert Explode(s) == [""] + [""];
      CollapseAppend([], [""], [""]);
    } else {
      ExplodeImplode(segs);
      assert Explode(s) == [""] + segs;
      CollapseAppend([], [""], segs);
      assert Collapse([], [""]) == [];
      CollapseProper([], segs);
    }
  }

  // ---------------------------------------------------------------------------
  // properties of normalizePath

  /** The result starts with '/', and unless it is "/" itself every segment after that first
      '/' is non-empty, never "." or "..", and free of '/'. */
  lemma NormalizedShape(path: string)
    ensures var r := Normalized(path);
      && |r| >= 1 && r[0] == '/'
      && (r == "/" || forall i :: 0 <= i < |Explode(r[1..])| ==> ProperSegment(Explode(r[1..])[i]))
  {
    var segs := Segments(path);
    var r := Normalized(path);
    assert r[1..] == Implode("/", segs);
    if segs != [] {
      ExplodeImplode(segs);
    }
  }

  /** normalizePath is idempotent. */
  lemma NormalizedIdempotent(path: string)
    ensures Normalized(Normalized(path)) == Normalized(path)
  {
    SegmentsOfCanonical(Segments(path));
  }

  /** A canonical string is its own normal form. */
  lemma NormalizedCanonical(segs: seq<string>)
    requires AllProper(segs)
    ensures Normalized("/" + Implode("/", segs)) == "/" + Implode("/", segs)
  {
    SegmentsOfCanonical(segs);
  }

  /** ".." on an empty stack is absorbed: parts that are all "", "." or ".." leave nothing. */
  lemma {:induction false} CollapseOnlyDots(parts: seq<string>)
    requires forall i :: 0 <= i < |parts| ==> parts[i] in {"", ".", ".."}
    ensures Collapse([], parts) == []
    decreases |parts|
  {
    if parts != [] {
      CollapseOnlyDots(parts[..|parts| - 1]);
    }
  }

  /** A path whose pieces are all "..", "." or empty normalises to "/". */
  lemma NormalizedOnlyDots(path: string)
    requires forall i :: 0 <= i < |Explode(path)| ==> Explode(path)[i] in {"", ".", ".."}
    ensures Normalized(path) == "/"
  {
    CollapseOnlyDots(Explode(path));
  }

  /** A trailing slash does not change the result. */
  lemma NormalizedTrailingSlash(path: string)
    ensures Normalized(path + "/") == Normalized(path)
  {
    ExplodeAround(path, "");
    assert path + "/" == path + "/" + "";
    CollapseAppend([], Explode(path), [""]);
  }

  /** An empty or "." piece between two slashes is skipped. */
  lemma SegmentsSkipPiece(a: string, x: string, b: string)
    requires x == "" || x == "."
    ensures Segments(a + "/" + x + "/" + b) == Segments(a + "/" + b)
  {
    var ea, eb := Explode(a), Explode(b);
    var tail := x + "/" + b;
    ExplodeWithoutSlash(x);
    ExplodeAround(x, b);
    assert a + "/" + x + "/" + b == a + "/" + tail;
    ExplodeAround(a, tail);
    ExplodeAround(a, b);
    var parts := ea + ([x] + eb);
    assert Explode(a + "/" + x + "/" + b) == parts;
    assert parts == (ea + [x]) + eb;
    CollapseAppend([], ea + [x], eb);
    CollapseAppend([], ea, [x]);
    assert [x][..0] == [];
    assert Collapse(Collapse([], ea), [x]) == Step(Collapse(Collapse([], ea), []), x);
    CollapseAppend([], ea, eb);
  }

  /** A doubled slash counts as one, and a "." segment counts for nothing. */
  lemma NormalizedSkipsEmptyAndDot(a: string, b: string)
    ensures Normalized(a + "//" + b) == Normalized(a + "/" + b)
    ensures Normalized(a + "/./" + b) == Normalized(a + "/" + b)
  {
    assert a + "//" + b == a + "/" + "" + "/" + b;
    SegmentsSkipPiece(a, "", b);
    assert a + "/./" + b == a + "/" + "." + "/" + b;
    SegmentsSkipPiece(a, ".", b);
  }

  // ---------------------------------------------------------------------------
  // string prefixes of canonical paths

  /** If the canonical string of xs + [a] is a string prefix of the canonical string of ts,
      then ts starts with xs, and its next segment has a as a string prefix (it need not be
      a itself). */
  lemma {:induction false} CanonicalPrefix(xs: seq<string>, a: string, ts: seq<string>)
    requires AllProper(xs) && ProperSegment(a) && AllProper(ts)
    requires Implode("/", xs + [a]) <= Implode("/", ts)
    ensures |ts| > |xs| && ts[..|xs|] == xs && a <= ts[|xs|]
    decreases |xs|
  {
    var p := Implode("/", xs + [a]);
    var q := Implode("/", ts);
    if ts == [] {
      ImplodeNonEmpty(xs + [a]);
      assert false;
    }
    var t0 := ts[0];
    if xs == [] {
      assert xs + [a] == [a];
      if |ts| > 1 {
        assert q == t0 + "/" + Implode("/", ts[1..]);
        SlashFreePrefix(a, t0, Implode("/", ts[1..]));
      }
    } else {
      var x := xs[0];
      assert (xs + [a])[1..] == xs[1..] + [a];
      assert p == x + "/" + Implode("/", xs[1..] + [a]);
      if |ts| == 1 {
        assert q == t0;
        SlashFreeHasNoSlashPrefix(x, Implode("/", xs[1..] + [a]), t0);
        assert false;
      }
      assert q == t0 + "/" + Implode("/", ts[1..]);
      SameFirstSegment(x, Implode("/", xs[1..] + [a]), t0, Implode("/", ts[1..]));
      assert AllProper(xs[1..]) by {
        forall i | 0 <= i < |xs[1..]| ensures ProperSegment(xs[1..][i]) { assert xs[1..][i] == xs[i + 1]; }
      }
      assert AllProper(ts[1..]) by {
        forall i | 0 <= i < |ts[1..]| ensures ProperSegment(ts[1..][i]) { assert ts[1..][i] == ts[i + 1]; }
      }
      CanonicalPrefix(xs[1..], a, ts[1..]);
      assert ts[..|xs|] == [t0] + ts[1..][..|xs| - 1];
      assert xs == [x] + xs[1..];
    }
  }

  lemma {:induction false} ImplodeNonEmpty(segs: seq<string>)
    requires |segs| >= 1 && ProperSegment(segs[0])
    ensures |Implode("/", segs)| >= 1
  {
    if |segs| > 1 {
      assert Implode("/", segs) == segs[0] + "/" + Implode("/", segs[1..]);
    }
  }

  lemma SlashFreePrefix(a: string, t: string, rest: string)
    requires '/' !in a && a <= t + "/" + rest
    ensures a <= t
  {
    var v := t + "/" + rest;
    assert v[|t|] == '/';
    assert forall i :: 0 <= i < |a| ==> v[i] == a[i] && a[i] != '/';
    assert |a| <= |t|;
    assert a == v[..|a|] == t[..|a|];
  }

  lemma SlashFreeHasNoSlashPrefix(x: string, rest: string, t: string)
    requires '/' !in t
    ensures !(x + "/" + rest <= t)
  {
    var u := x + "/" + rest;
    assert u[|x|] == '/';
    assert forall i :: 0 <= i < |t| ==> t[i] != '/';
  }

  lemma SameFirstSegment(x: string, r1: string, t: string, r2: string)
    requires '/' !in x && '/' !in t && x + "/" + r1 <= t + "/" + r2
    ensures x == t && r1 <= r2
  {
    var u, v := x + "/" + r1, t + "/" + r2;
    assert u[|x|] == '/' && v[|t|] == '/';
    assert forall i :: 0 <= i < |x| ==> u[i] != '/';
    assert forall i :: 0 <= i < |t| ==> v[i] != '/';
    assert forall i :: 0 <= i < |u| ==> u[i] == v[i];
    assert |x| == |t|;
    assert x == u[..|x|] == v[..|x|] == t;
    assert r1 == u[|x| + 1..];
    assert r2 == v[|x| + 1..];
  }
}
