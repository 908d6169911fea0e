/** The storage controller: the per-user root (setBasePath), the resolution of a request path
    with its prefix check (getFullPath), the three request callbacks (read, write with
    uploads, delete), and handleRequest, which turns what a callback returns or raises into
    a response. */
module Storage {
  import opened Http
  import opened Paths
  import opened FileSystem

  /** getFullPath's 403 message, in three pieces so that facts about its characters can be
      established piece by piece. */
  const Forbidden := ForbiddenStart + ForbiddenMiddle + ForbiddenEnd
  const ForbiddenStart := "Доступ запрещен: "
  const ForbiddenMiddle := "попытка выйти за "
  const ForbiddenEnd := "пределы базовой директории."
  const RootRefused := "Невозможно удалить корневой каталог"
  const BadParams := "Ошибка параметров запроса"

  // ---------------------------------------------------------------------------
  // the user id as text

  function DigitChar(d: nat): (c: char)
    requires d < 10
    ensures '0' <= c <= '9'
  {
    (48 + d) as char
  }

  /** The decimal digits of n, most significant first. */
  function DecimalDigits(n: nat): (s: string)
    ensures |s| >= 1
    ensures forall i :: 0 <= i < |s| ==> '0' <= s[i] <= '9'
    decreases n
  {
    if n < 10 then [DigitChar(n)] else DecimalDigits(n / 10) + [DigitChar(n % 10)]
  }

  /** The value of a string of decimal digits. */
  function DigitsValue(s: string): int
    decreases |s|
  {
    if s == [] then 0 else DigitsValue(s[..|s| - 1]) * 10 + (s[|s| - 1] as int - 48)
  }

  /** PHP's conversion of an int to a string, as in "…/" . $userId. */
  function IntToString(n: int): (s: string)
    ensures ProperSegment(s)
  {
    var s := if n < 0 then "-" + DecimalDigits(-n) else DecimalDigits(n);
    assert s[0] == '-' || '0' <= s[0] <= '9';
    assert forall i :: 0 <= i < |s| ==> s[i] != '/';
    s
  }

  function ParseInt(s: string): int {
    if s != [] && s[0] == '-' then -DigitsValue(s[1..]) else DigitsValue(s)
  }

  lemma {:induction false} DigitsRoundTrip(n: nat)
    ensures DigitsValue(DecimalDigits(n)) == n
    decreases n
  {
    if n >= 10 {
      var s := DecimalDigits(n);
      assert s[..|s| - 1] == DecimalDigits(n / 10);
      DigitsRoundTrip(n / 10);
    }
  }

  /** The text of a user id reads back as that id, so different users get different
      directory names. */
  lemma IntToStringRoundTrip(n: int)
    ensures ParseInt(IntToString(n)) == n
  {
    if n < 0 {
      DigitsRoundTrip(-n);
      assert ("-" + DecimalDigits(-n))[1..] == DecimalDigits(-n);
    } else {
      DigitsRoundTrip(n);
    }
  }

  // ---------------------------------------------------------------------------
  // the user's root and the resolution of a request path

  /** setBasePath: the storage root, a slash, then the user id. */
  function BasePath(storagePath: string, userId: int): string {
    storagePath + "/" + IntToString(userId)
  }

  /** getFullPath: the normalised join of the user's root and the request path, accepted
      only when the user's root is a string prefix of it; 403 otherwise. */
  function FullPath(basePath: string, rel: string): Result<string> {
    var normalized := Normalized(JoinPath(basePath, rel));
    if basePath <= normalized then Ok(normalized) else Err(403, Forbidden)
  }

  /** The storage root is the normalised source directory followed by "../../storage/": a
      canonical path whose last segment is "storage". */
  lemma StoragePathShape(sourceDir: string)
    ensures var segs := Segments(sourceDir + "/../../storage/");
      && |segs| >= 1 && segs[|segs| - 1] == "storage"
      && Normalized(sourceDir + "/../../storage/") == "/" + Implode("/", segs)
  {
    var tail := ["..", "..", "storage", ""];
    ExplodeStorage(sourceDir);
    CollapseAppend([], Explode(sourceDir), tail);
    CollapseStorageTail(Collapse([], Explode(sourceDir)));
  }

  lemma ExplodeStorage(sourceDir: string)
    ensures Explode(sourceDir + "/../../storage/") == Explode(sourceDir) + ["..", "..", "storage", ""]
  {
    AppendAssoc(sourceDir, "/", "../../storage/");
    assert "/" + "../../storage/" == "/../../storage/";
    ExplodeAround(sourceDir, "../../storage/");
    StorageTailPieces();
  }

  lemma StorageTailPieces()
    ensures Explode("../../storage/") == ["..", "..", "storage", ""]
  {
    var pieces := ["..", "..", "storage", ""];
    assert Implode("/", pieces) == "../../storage/";
    ExplodeImplode(pieces);
  }

  lemma CollapseStorageTail(stack: seq<string>)
    ensures var r := Collapse(stack, ["..", "..", "storage", ""]);
      |r| >= 1 && r[|r| - 1] == "storage"
  {
    var tail := ["..", "..", "storage", ""];
    assert tail[..3] == ["..", "..", "storage"];
    assert Collapse(stack, tail) == Collapse(stack, tail[..3]);
    assert tail[..3][..2] == ["..", ".."];
    assert Collapse(stack, tail[..3]) == Collapse(stack, ["..", ".."]) + ["storage"];
  }

  /** With a canonical storage root, the user's root is canonical too: the storage root's
      segments followed by the user id. */
  lemma BasePathCanonical(segs: seq<string>, userId: int)
    requires AllProper(segs) && |segs| >= 1
    ensures var u := IntToString(userId);
      && BasePath("/" + Implode("/", segs), userId) == "/" + Implode("/", segs + [u])
      && AllProper(segs + [u])
      && Normalized(BasePath("/" + Implode("/", segs), userId)) == BasePath("/" + Implode("/", segs), userId)
  {
    var u := IntToString(userId);
    ImplodeSnoc("/", segs, u);
    SlashJoin(Implode("/", segs), u);
    assert forall i :: 0 <= i < |segs + [u]| ==> (segs + [u])[i] == if i < |segs| then segs[i] else u;
    NormalizedCanonical(segs + [u]);
  }

  lemma SlashJoin(a: string, u: string)
    ensures "/" + a + "/" + u == "/" + (a + "/" + u)
  {
  }

  lemma AppendAssoc(a: string, b: string, c: string)
    ensures a + b + c == a + (b + c)
  {
  }

  lemma ImplodeNoTrailingSlash(segs: seq<string>)
    requires AllProper(segs) && |segs| >= 1
    ensures var s := Implode("/", segs); |s| >= 1 && s[|s| - 1] != '/'
    decreases |segs|
  {
    if |segs| > 1 {
      ImplodeNoTrailingSlash(segs[1..]);
    }
  }

  /** Both the empty request path and "/" resolve to the user's root, here the canonical
      path of the storage root's segments followed by the user's directory name u. */
  lemma RootResolves(segs: seq<string>, u: string)
    requires AllProper(segs + [u])
    ensures var base := "/" + Implode("/", segs + [u]);
      FullPath(base, "") == Ok(base) && FullPath(base, "/") == Ok(base)
  {
    var base := "/" + Implode("/", segs + [u]);
    NormalizedCanonical(segs + [u]);
    ImplodeNoTrailingSlash(segs + [u]);
    assert TrimRight(base) == base;
    assert JoinPath(base, "") == base + "/";
    assert JoinPath(base, "/") == base + "/";
    NormalizedTrailingSlash(base);
  }

  /** What the prefix check does guarantee: a resolved path is canonical, lies strictly
      inside the storage root, and the first segment below the storage root starts with the
      user's directory name. */
  lemma ResolvedStaysUnderStorage(segs: seq<string>, u: string, rel: string)
    requires AllProper(segs + [u])
    ensures var r := FullPath("/" + Implode("/", segs + [u]), rel);
      r.Ok? ==>
        var v := Segments(r.value);
        && r.value == "/" + Implode("/", v)
        && |v| > |segs| && v[..|segs|] == segs
        && u <= v[|segs|]
  {
    var base := "/" + Implode("/", segs + [u]);
    var r := FullPath(base, rel);
    if r.Ok? {
      var w := Segments(JoinPath(base, rel));
      assert r.value == "/" + Implode("/", w);
      SegmentsOfCanonical(w);
      PrefixCancel("/", Implode("/", segs + [u]), Implode("/", w));
      assert AllProper(segs) by {
        assert forall i :: 0 <= i < |segs| ==> segs[i] == (segs + [u])[i];
      }
      assert (segs + [u])[|segs|] == u;
      CanonicalPrefix(segs, u, w);
    }
  }

  lemma PrefixCancel(p: string, a: string, b: string)
    ensures p + a <= p + b <==> a <= b
  {
    if p + a <= p + b {
      assert a == (p + a)[|p|..] && b[..|a|] == (p + b)[|p|..|p| + |a|];
    }
    if a <= b {
      assert (p + b)[..|p + a|] == p + b[..|a|];
    }
  }

  /** The prefix check lets a sibling of the user's root through whenever the sibling's name
      extends the user's directory name: for user 1, "../12" is accepted and designates user
      12's root. */
  lemma SiblingEscape(segs: seq<string>, u: string, sibling: string)
    requires AllProper(segs) && |segs| >= 1 && ProperSegment(u)
    requires ProperSegment(sibling) && u <= sibling
    ensures FullPath("/" + Implode("/", segs + [u]), "../" + sibling) == Ok("/" + Implode("/", segs + [sibling]))
  {
    var base := "/" + Implode("/", segs + [u]);
    SiblingIsPrefix(segs, u, sibling);
    ProperSnoc(segs, u);
    ProperSnoc(segs, sibling);
    SegmentsEscape(segs, u, sibling);
    Accepted(base, "../" + sibling, segs + [sibling]);
  }

  lemma ProperInit(segs: seq<string>, x: string)
    requires AllProper(segs + [x])
    ensures AllProper(segs) && ProperSegment(x)
  {
    assert forall i :: 0 <= i < |segs| ==> (segs + [x])[i] == segs[i];
    assert (segs + [x])[|segs|] == x;
  }

  lemma ProperSnoc(segs: seq<string>, x: string)
    requires AllProper(segs) && ProperSegment(x)
    ensures AllProper(segs + [x])
  {
    assert forall i :: 0 <= i < |segs| ==> (segs + [x])[i] == segs[i];
  }

  /** A request path whose segments are known is accepted when the user's root is a prefix
      of their canonical text. */
  lemma Accepted(base: string, rel: string, segs: seq<string>)
    requires Segments(JoinPath(base, rel)) == segs && base <= "/" + Implode("/", segs)
    ensures FullPath(base, rel) == Ok("/" + Implode("/", segs))
  {
  }

  lemma SiblingIsPrefix(segs: seq<string>, u: string, sibling: string)
    requires |segs| >= 1 && u <= sibling
    ensures "/" + Implode("/", segs + [u]) <= "/" + Implode("/", segs + [sibling])
  {
    SiblingText(segs, u);
    SiblingText(segs, sibling);
    PrefixCancel("/" + Implode("/", segs) + "/", u, sibling);
  }

  lemma SiblingText(segs: seq<string>, x: string)
    requires |segs| >= 1
    ensures "/" + Implode("/", segs + [x]) == "/" + Implode("/", segs) + "/" + x
  {
    ImplodeSnoc("/", segs, x);
    SlashJoin(Implode("/", segs), x);
  }

  /** The sibling reached that way is neither the user's root nor anything below it. */
  lemma SiblingOutside(segs: seq<string>, u: string, sibling: string)
    requires |segs| >= 1 && u <= sibling && u != sibling && '/' !in sibling
    ensures var base, target := "/" + Implode("/", segs + [u]), "/" + Implode("/", segs + [sibling]);
      target != base && !(base + "/" <= target)
  {
    var p := "/" + Implode("/", segs) + "/";
    var base, target := "/" + Implode("/", segs + [u]), "/" + Implode("/", segs + [sibling]);
    SiblingText(segs, u);
    SiblingText(segs, sibling);
    AppendAssoc(p, u, "/");
    PrefixCancel(p, u + "/", sibling);
    SlashFreeHasNoSlashPrefix(u, "", sibling);
    assert u + "/" + "" == u + "/";
    assert target[|p|..] == sibling && base[|p|..] == u;
  }

  /** A request path or an upload name of the form "../x" taken from the user's root
      designates the entry x next to the user's root. */
  lemma SegmentsEscape(segs: seq<string>, u: string, x: string)
    requires AllProper(segs + [u]) && ProperSegment(x)
    ensures Segments(JoinPath("/" + Implode("/", segs + [u]), "../" + x)) == segs + [x]
  {
    var base := "/" + Implode("/", segs + [u]);
    assert TrimLeft("../" + x) == "../" + x;
    ImplodeNoTrailingSlash(segs + [u]);
    assert TrimRight(base) == base;
    assert JoinPath(base, "../" + x) == base + "/" + ("../" + x);
    ExplodeEscape(base, x);
    CollapseAppend([], Explode(base), ["..", x]);
    SegmentsOfCanonical(segs + [u]);
    CollapseEscape(segs, u, x);
  }

  lemma ExplodeEscape(base: string, x: string)
    requires '/' !in x
    ensures Explode(base + "/" + ("../" + x)) == Explode(base) + ["..", x]
  {
    ExplodeAround(base, "../" + x);
    assert "../" + x == ".." + "/" + x;
    ExplodeAround("..", x);
    ExplodeWithoutSlash(x);
    ExplodeWithoutSlash("..");
  }

  lemma CollapseEscape(segs: seq<string>, u: string, x: string)
    requires ProperSegment(x)
    ensures Collapse(segs + [u], ["..", x]) == segs + [x]
  {
    var stack := segs + [u];
    assert [".."][..0] == [];
    assert Collapse(stack, [".."]) == Step(stack, "..");
    assert stack[..|stack| - 1] == segs;
    assert ["..", x][..1] == [".."];
  }

  /** In terms of the storage root and user ids: a user whose directory name is a proper
      prefix of a sibling's name is handed that sibling's path, which is not the user's root
      and lies outside it. */
  lemma SiblingReached(storagePath: string, segs: seq<string>, userId: int, sibling: string)
    requires AllProper(segs) && |segs| >= 1 && storagePath == "/" + Implode("/", segs)
    requires ProperSegment(sibling) && IntToString(userId) <= sibling && IntToString(userId) != sibling
    ensures var base := BasePath(storagePath, userId);
      && FullPath(base, "../" + sibling) == Ok(storagePath + "/" + sibling)
      && storagePath + "/" + sibling != base && !(base + "/" <= storagePath + "/" + sibling)
  {
    var u := IntToString(userId);
    BasePathCanonical(segs, userId);
    SiblingEscape(segs, u, sibling);
    SiblingOutside(segs, u, sibling);
    SiblingText(segs, sibling);
  }

  lemma IntToStringOne()
    ensures IntToString(1) == "1"
  {
    assert DecimalDigits(1) == [DigitChar(1)];
  }

  /** The concrete case: user 1 is handed user 12's root, "../" + "12", which is neither
      user 1's root nor below it. */
  lemma UserOneReachesUserTwelve(storagePath: string, segs: seq<string>)
    requires AllProper(segs) && |segs| >= 1 && storagePath == "/" + Implode("/", segs)
    ensures var base := BasePath(storagePath, 1);
      && FullPath(base, "../" + "12") == Ok(storagePath + "/" + "12")
      && storagePath + "/" + "12" != base && !(base + "/" <= storagePath + "/" + "12")
  {
    IntToStringOne();
    assert ProperSegment("12") && "1" <= "12" && "1" != "12";
    SiblingReached(storagePath, segs, 1, "12");
  }

  // ---------------------------------------------------------------------------
  // removing the user's root from error messages

  /** str_replace($pat, "", $s): every occurrence of pat found scanning left to right,
      without overlap, is removed. */
  function Strip(s: string, pat: string): (r: string)
    ensures |r| <= |s|
    decreases |s|
  {
    if pat == [] || |s| < |pat| then s
    else if s[..|pat|] == pat then Strip(s[|pat|..], pat)
    else [s[0]] + Strip(s[1..], pat)
  }

  predicate OccursAt(s: string, pat: string, i: nat) {
    i + |pat| <= |s| && s[i..i + |pat|] == pat
  }

  /** A message without an occurrence of pat is left alone. */
  lemma {:induction false} StripAbsent(s: string, pat: string)
    requires forall i: nat :: !OccursAt(s, pat, i)
    ensures Strip(s, pat) == s
    decreases |s|
  {
    if pat != [] && |s| >= |pat| {
      assert !OccursAt(s, pat, 0);
      assert s[..|pat|] == s[0..|pat|];
      forall i: nat ensures !OccursAt(s[1..], pat, i) {
        assert !OccursAt(s, pat, i + 1);
        if i + |pat| <= |s[1..]| {
          assert s[1..][i..i + |pat|] == s[i + 1..i + 1 + |pat|];
        }
      }
      StripAbsent(s[1..], pat);
    }
  }

  /** A leading occurrence is removed. */
  lemma StripLeading(pat: string, w: string)
    requires pat != []
    ensures Strip(pat + w, pat) == Strip(w, pat)
  {
    assert (pat + w)[..|pat|] == pat;
    assert (pat + w)[|pat|..] == w;
  }

  /** Text in which pat's first character never appears passes through untouched. */
  lemma {:induction false} StripKeepsPrefix(p: string, w: string, pat: string)
    requires pat != [] && pat[0] !in p
    ensures Strip(p + w, pat) == p + Strip(w, pat)
    decreases |p|
  {
    if p != [] {
      var s := p + w;
      assert s[0] == p[0];
      if |s| >= |pat| {
        assert s[..|pat|] != pat;
      }
      StripKeepsPrefix(p[1..], w, pat);
      assert s[1..] == p[1..] + w;
      if |s| >= |pat| {
        assert Strip(s, pat) == [p[0]] + (p[1..] + Strip(w, pat));
        assert [p[0]] + (p[1..] + Strip(w, pat)) == ([p[0]] + p[1..]) + Strip(w, pat);
        assert [p[0]] + p[1..] == p;
      } else {
        assert Strip(w, pat) == w;
      }
    } else {
      assert p + w == w;
    }
  }

  /** An error message naming a path below the user's root reaches the client as the
      message's words followed by the rest of the path, when the root does not occur again. */
  lemma ErrorHidesBase(words: string, base: string, w: string)
    requires base != [] && base[0] == '/' && '/' !in words
    requires forall i: nat :: !OccursAt(w, base, i)
    ensures Strip(words + base + w, base) == words + w
  {
    assert words + base + w == words + (base + w);
    StripKeepsPrefix(words, base + w, base);
    StripLeading(base, w);
    StripAbsent(w, base);
  }

  /** A message without a slash is sent as it is: the user's root starts with one. */
  lemma SlashFreeUnstripped(words: string, base: string)
    requires base != [] && base[0] == '/' && '/' !in words
    ensures Strip(words, base) == words
  {
    StripKeepsPrefix(words, "", base);
    assert words + "" == words;
  }

  /** The removal is not a guarantee that the root's text disappears: removing "/s/1" from
      "/s/1/s/s/1/1" leaves "/s/1". */
  lemma StripCanReassembleBase()
    ensures Strip("/s/1/s/s/1/1", "/s/1") == "/s/1"
  {
    var pat := "/s/1";
    assert "/s/1/s/s/1/1" == pat + "/s/s/1/1";
    StripLeading(pat, "/s/s/1/1");
    StripMiddle();
  }

  lemma StripMiddle()
    ensures Strip("/s/s/1/1", "/s/1") == "/s/1"
  {
    var pat := "/s/1";
    StripShortTail();
    assert Strip("s/s/1/1", pat) == "s/1";
  }

  lemma StripShortTail()
    ensures Strip("/s/1/1", "/s/1") == "/1"
  {
    var pat := "/s/1";
    assert Strip("", pat) == "";
    assert Strip("1", pat) == "1";
    assert Strip("/1", pat) == "/1";
  }

  // ---------------------------------------------------------------------------
  // the root-deletion check

  function AsciiLower(c: char): char {
    if 'A' <= c <= 'Z' then (c as int + 32) as char else c
  }

  /** strcasecmp($a, $b) === 0. */
  predicate EqualsIgnoreCase(a: string, b: string) {
    |a| == |b| && forall i :: 0 <= i < |a| ==> AsciiLower(a[i]) == AsciiLower(b[i])
  }

  /** Case does not matter for the delete check: every resolved path starts with the user's
      root, and such a path equals the root ignoring case exactly when it equals the root. */
  lemma RootCheckIsEquality(v: string, base: string)
    requires base <= v
    ensures EqualsIgnoreCase(v, base) <==> v == base
  {
    if EqualsIgnoreCase(v, base) {
      assert v == v[..|base|];
    }
  }
}
