/**
 * Textual path identity (src/workspace-path.ts) and host-to-container translation (src/path-mapper.ts).
 *
 * The reference is the list of segments a path resolves to, reading it as a walk through directories.
 * Containment by text prefix is proved to be the prefix order on those lists.
 */
module Paths {
  import opened Text

  // ---------- Splitting and joining at `/` ----------

  function Split(s: string): (parts: seq<string>)
    ensures parts != []
  {
    if s == "" then [""]
    else
      var rest := Split(s[1..]);
      if s[0] == '/' then [""] + rest else [[s[0]] + rest[0]] + rest[1..]
  }

  function Join(parts: seq<string>): string {
    if parts == [] then ""
    else if |parts| == 1 then parts[0]
    else parts[0] + "/" + Join(parts[1..])
  }

  predicate SlashFree(parts: seq<string>) {
    forall p :: p in parts ==> '/' !in p
  }

  lemma SplitCons(c: char, s: string)
    ensures Split([c] + s) == if c == '/' then [""] + Split(s) else [[c] + Split(s)[0]] + Split(s)[1..]
  {
    assert ([c] + s)[1..] == s;
  }

  lemma HeadOfConcat(c: char, xs: seq<string>, ys: seq<string>)
    requires xs != []
    ensures [[c] + (xs + ys)[0]] + (xs + ys)[1..] == [[c] + xs[0]] + xs[1..] + ys
    ensures [""] + (xs + ys) == [""] + xs + ys
  {
    assert (xs + ys)[1..] == xs[1..] + ys;
  }

  lemma SplitConcatStep(c: char, a: string, b: string)
    requires Split(a + "/" + b) == Split(a) + Split(b)
    ensures Split([c] + (a + "/" + b)) == Split([c] + a) + Split(b)
  {
    SplitCons(c, a + "/" + b);
    SplitCons(c, a);
    HeadOfConcat(c, Split(a), Split(b));
    hide Split;
  }

  lemma {:induction false} SplitConcat(a: string, b: string)
    ensures Split(a + "/" + b) == Split(a) + Split(b)
  {
    if a == "" {
      SplitCons('/', b);
      assert a + "/" + b == ['/'] + b;
    } else {
      SplitConcat(a[1..], b);
      SplitConcatStep(a[0], a[1..], b);
      hide Split;
      assert a == [a[0]] + a[1..];
      assert a + "/" + b == [a[0]] + (a[1..] + "/" + b);
    }
  }

  lemma {:induction false} SplitSlashFree(s: string)
    requires '/' !in s
    ensures Split(s) == [s]
  {
    if s != "" {
      assert forall c :: c in s[1..] ==> c in s;
      assert s[0] in s;
      SplitSlashFree(s[1..]);
      assert s == [s[0]] + s[1..];
    }
  }

  lemma {:induction false} SplitJoin(parts: seq<string>)
    requires parts != [] && SlashFree(parts)
    ensures Split(Join(parts)) == parts
  {
    assert parts[0] in parts;
    SplitSlashFree(parts[0]);
    if |parts| > 1 {
      assert forall p :: p in parts[1..] ==> p in parts;
      SplitJoin(parts[1..]);
      SplitConcat(parts[0], Join(parts[1..]));
      assert parts == [parts[0]] + parts[1..];
    }
  }

  lemma {:induction false} JoinConcat(a: seq<string>, b: seq<string>)
    requires a != [] && b != []
    ensures Join(a + b) == Join(a) + "/" + Join(b)
  {
    if |a| == 1 {
      assert (a + b)[1..] == b;
    } else {
      JoinConcat(a[1..], b);
      assert (a + b)[1..] == a[1..] + b;
    }
  }

  // ---------- Resolving ----------

  predicate IsAbsolute(path: string) {
    path != "" && path[0] == '/'
  }

  /** One segment of the walk: stay, go up, or go down. */
  function Step(at: seq<string>, segment: string, absolute: bool): seq<string> {
    if segment == "" || segment == "." then at
    else if segment != ".." then at + [segment]
    else if at != [] && at[|at| - 1] != ".." then at[..|at| - 1]
    else if absolute then at
    else at + [".."]
  }

  function Walk(at: seq<string>, segments: seq<string>, absolute: bool): seq<string>
    decreases |segments|
  {
    if segments == [] then at else Walk(Step(at, segments[0], absolute), segments[1..], absolute)
  }

  /** The segments a path resolves to. */
  function Resolve(path: string): seq<string> {
    Walk([], Split(path), IsAbsolute(path))
  }

  predicate IsName(segment: string) {
    segment != "" && segment != "." && segment != ".." && '/' !in segment
  }

  /** Fully resolved: names only, except that a relative path may start by going up. */
  predicate Resolved(segments: seq<string>, absolute: bool) {
    forall i :: 0 <= i < |segments| ==>
      IsName(segments[i]) || (segments[i] == ".." && !absolute && forall j :: 0 <= j < i ==> segments[j] == "..")
  }

  /** The canonical spelling of a resolved path. */
  function Spell(segments: seq<string>, absolute: bool): string {
    if absolute then "/" + Join(segments) else if segments == [] then "." else Join(segments)
  }

  /** The source's loop over the segments. */
  method NormalizeSegments(path: string) returns (normal: string)
    ensures normal == Normalize(path)
  {
    var absolute := StartsWith(path, "/");
    var parts := Split(path);
    var at: seq<string> := [];
    for i := 0 to |parts|
      invariant Walk([], parts, absolute) == Walk(at, parts[i..], absolute)
    {
      var segment := parts[i];
      assert parts[i..][0] == segment && parts[i..][1..] == parts[i + 1..];
      if segment == "" || segment == "." {
        continue;
      }
      if segment == ".." {
        if |at| > 0 && at[|at| - 1] != ".." {
          at := at[..|at| - 1];
        } else if !absolute {
          at := at + [".."];
        }
        continue;
      }
      at := at + [segment];
    }
    assert parts[|parts|..] == [];
    var joined := (if absolute then "/" else "") + Join(at);
    WalkIsResolved([], parts, absolute, path);
    JoinIsEmpty(at, absolute);
    normal := if |joined| > 0 then joined else if absolute then "/" else ".";
  }

  function Normalize(path: string): string {
    Spell(Resolve(path), IsAbsolute(path))
  }

  lemma JoinIsEmpty(segments: seq<string>, absolute: bool)
    requires Resolved(segments, absolute)
    ensures Join(segments) == "" <==> segments == []
  {
    if segments != [] {
      assert segments[0] != "";
    }
  }

  lemma {:induction false} SplitIsSlashFree(s: string)
    ensures SlashFree(Split(s))
  {
    if s != "" {
      SplitIsSlashFree(s[1..]);
      var rest := Split(s[1..]);
      forall p | p in Split(s) ensures '/' !in p {
        if p !in rest {
          assert p == "" || p == [s[0]] + rest[0];
          assert rest[0] in rest;
        }
      }
    }
  }

  lemma StepIsResolved(at: seq<string>, segment: string, absolute: bool)
    requires Resolved(at, absolute) && '/' !in segment
    ensures Resolved(Step(at, segment, absolute), absolute)
  {
    if segment == ".." && at != [] && at[|at| - 1] == ".." {
      assert forall j :: 0 <= j < |at| ==> at[j] == "..";
    }
  }

  lemma {:induction false} WalkIsResolved(at: seq<string>, segments: seq<string>, absolute: bool, path: string)
    requires Resolved(at, absolute) && (segments == Split(path) || SlashFree(segments))
    ensures Resolved(Walk(at, segments, absolute), absolute)
    decreases |segments|
  {
    SplitIsSlashFree(path);
    if segments != [] {
      assert segments[0] in segments;
      StepIsResolved(at, segments[0], absolute);
      WalkIsResolved(Step(at, segments[0], absolute), segments[1..], absolute, path);
    }
  }

  lemma {:induction false} WalkConcat(at: seq<string>, a: seq<string>, b: seq<string>, absolute: bool)
    ensures Walk(at, a + b, absolute) == Walk(Walk(at, a, absolute), b, absolute)
    decreases |a|
  {
    if a == [] {
      assert a + b == b;
    } else {
      WalkConcat(Step(at, a[0], absolute), a[1..], b, absolute);
      assert (a + b)[1..] == a[1..] + b;
    }
  }

  lemma {:induction false} WalkDown(at: seq<string>, names: seq<string>, absolute: bool)
    requires Resolved(at + names, absolute)
    ensures Walk(at, names, absolute) == at + names
    decreases |names|
  {
    if names != [] {
      var name := names[0];
      assert (at + names)[|at|] == name;
      if name == ".." && at != [] {
        assert (at + names)[|at| - 1] == "..";
        assert at[|at| - 1] == "..";
      }
      assert Step(at, name, absolute) == at + [name];
      assert at + [name] + names[1..] == at + names;
      WalkDown(at + [name], names[1..], absolute);
    }
  }

  lemma ResolvedIsSlashFree(segments: seq<string>, absolute: bool)
    requires Resolved(segments, absolute)
    ensures SlashFree(segments)
  {
  }

  /** The canonical spelling resolves to itself, so normalizing is idempotent. */
  lemma SpellResolves(segments: seq<string>, absolute: bool)
    requires Resolved(segments, absolute)
    ensures Resolve(Spell(segments, absolute)) == segments
    ensures IsAbsolute(Spell(segments, absolute)) == absolute
  {
    var path := Spell(segments, absolute);
    if segments != [] {
      ResolvedIsSlashFree(segments, absolute);
      SplitJoin(segments);
      assert segments[0] in segments && Join(segments)[0] == segments[0][0];
    }
    WalkDown([], segments, absolute);
    assert [] + segments == segments;
    if absolute {
      SplitConcat("", Join(segments));
      assert "" + "/" + Join(segments) == path;
      assert Split(path) == [""] + Split(Join(segments));
      assert Split(path)[1..] == Split(Join(segments));
    } else if segments == [] {
      SplitSlashFree(".");
    }
  }

  lemma ResolveIsResolved(path: string)
    ensures Resolved(Resolve(path), IsAbsolute(path))
  {
    WalkIsResolved([], Split(path), IsAbsolute(path), path);
  }

  lemma NormalizeIdempotent(path: string)
    ensures Normalize(Normalize(path)) == Normalize(path)
    ensures Resolve(Normalize(path)) == Resolve(path) && IsAbsolute(Normalize(path)) == IsAbsolute(path)
  {
    ResolveIsResolved(path);
    SpellResolves(Resolve(path), IsAbsolute(path));
  }

  /** Resolving is compositional: a path continued with `/` continues the walk. */
  lemma ResolveContinues(path: string, more: string)
    requires path != ""
    ensures Resolve(path + "/" + more) == Walk(Resolve(path), Split(more), IsAbsolute(path))
  {
    SplitConcat(path, more);
    WalkConcat([], Split(path), Split(more), IsAbsolute(path));
    assert IsAbsolute(path + "/" + more) == IsAbsolute(path);
  }

  // ---------- What a segment does to a path ----------

  lemma OneSegment(segment: string, absolute: bool)
    ensures Walk([], [segment], absolute) == Step([], segment, absolute)
  {
  }

  lemma RootAndHere()
    ensures Normalize("") == "." && Normalize("/") == "/"
  {
    SplitCons('/', "");
    assert ['/'] + "" == "/";
    assert ["", ""][1..] == [""] && [""][1..] == [];
    assert Split("/") == ["", ""];
  }

  /** A first segment: nothing, the parent directory, or a name. */
  lemma FirstSegment(segment: string)
    requires '/' !in segment
    ensures Resolve(segment) == if segment == "" || segment == "." then [] else [segment]
    ensures Resolve("/" + segment) == if segment == "" || segment == "." || segment == ".." then [] else [segment]
    ensures Normalize("") == "." && Normalize("/") == "/"
  {
    SplitSlashFree(segment);
    SplitConcat("", segment);
    assert "" + "/" + segment == "/" + segment;
    assert !IsAbsolute(segment) by {
      if segment != "" {
        assert segment[0] in segment;
      }
    }
    OneSegment(segment, false);
    OneSegment(segment, true);
    assert [""] + [segment] == ["", segment] && ["", segment][1..] == [segment];
    RootAndHere();
  }

  /**
   * A further segment: `.` and nothing stay, a name goes down, and `..` goes back up, unless there is nothing to
   * leave; then it stays at the root and is kept on a relative path. Together with the first segment this is
   * every path.
   */
  lemma NextSegment(path: string, segment: string)
    requires path != "" && '/' !in segment
    ensures var at, next := Resolve(path), Resolve(path + "/" + segment);
      && (segment == "" || segment == "." ==> next == at)
      && (IsName(segment) ==> next == at + [segment])
      && (segment == ".." && at != [] && at[|at| - 1] != ".." ==> next == at[..|at| - 1])
      && (segment == ".." && (at == [] || at[|at| - 1] == "..") ==>
            next == if IsAbsolute(path) then [] else at + [".."])
  {
    ResolveContinues(path, segment);
    SplitSlashFree(segment);
    ResolveIsResolved(path);
    hide Resolve;
  }

  /** Going down and back up is the same path. */
  lemma DownAndUp(path: string, name: string)
    requires path != "" && IsName(name)
    ensures IsSamePath(path + "/" + name + "/..", path)
  {
    NextSegment(path, name);
    NextSegment(path + "/" + name, "..");
    assert (Resolve(path) + [name])[..|Resolve(path)|] == Resolve(path);
    SamePathBySegments(path + "/" + name + "/..", path);
    assert path + "/" + name + "/.." == path + "/" + name + "/" + "..";
    hide Resolve, IsSamePath;
  }

  /**
   * The parent lies under a path exactly when there is nothing to leave: for an absolute path, exactly when it is
   * the root. A relative path that has gone up counts its own parent as below it.
   */
  lemma ParentIsOutside(path: string)
    requires path != ""
    ensures var at := Resolve(path);
      IsAtOrUnder(path + "/..", path) <==>
      if IsAbsolute(path) then at == [] else at != [] && at[|at| - 1] == ".."
  {
    NextSegment(path, "..");
    ResolveIsResolved(path);
    UnderIsSegmentPrefix(path + "/..", path);
    assert path + "/.." == path + "/" + "..";
    hide Resolve, IsAtOrUnder;
  }

  // ---------- Containment ----------

  function TrimSlashes(s: string): string {
    if s != "" && s[|s| - 1] == '/' then TrimSlashes(s[..|s| - 1]) else s
  }

  predicate IsSamePath(left: string, right: string) {
    Normalize(left) == Normalize(right)
  }

  predicate IsAtOrUnder(candidate: string, base: string) {
    var b := Normalize(base);
    var c := Normalize(candidate);
    var trimmedBase := if |b| > 1 then TrimSlashes(b) else b;
    var trimmedCandidate := if |c| > 1 then TrimSlashes(c) else c;
    || trimmedCandidate == trimmedBase
    || StartsWith(trimmedCandidate, if trimmedBase == "/" then "/" else trimmedBase + "/")
  }

  lemma {:induction false} JoinEndsInLast(segments: seq<string>)
    requires segments != [] && segments[|segments| - 1] != ""
    ensures Join(segments) != ""
    ensures var last := segments[|segments| - 1]; Join(segments)[|Join(segments)| - 1] == last[|last| - 1]
  {
    if |segments| > 1 {
      JoinEndsInLast(segments[1..]);
    }
  }

  /** A canonical spelling has no trailing slash to trim. */
  lemma SpellHasNoTrailingSlash(segments: seq<string>, absolute: bool)
    requires Resolved(segments, absolute)
    ensures var s := Spell(segments, absolute); |s| > 1 ==> TrimSlashes(s) == s
  {
    if segments != [] {
      var last := segments[|segments| - 1];
      JoinEndsInLast(segments);
      assert last[|last| - 1] in last;
    }
  }

  lemma SpellIsInjective(a: seq<string>, b: seq<string>, absolute: bool)
    requires Resolved(a, absolute) && Resolved(b, absolute)
    ensures Spell(a, absolute) == Spell(b, absolute) ==> a == b
  {
    SpellResolves(a, absolute);
    SpellResolves(b, absolute);
  }

  /** Text prefix up to a separator is proper prefix on segments. */
  lemma PrefixBySegments(c: seq<string>, b: seq<string>)
    requires SlashFree(b) && SlashFree(c) && b != [] && c != []
    ensures Join(b) + "/" <= Join(c) <==> b < c
  {
    if Join(b) + "/" <= Join(c) {
      var rest := Join(c)[|Join(b)| + 1..];
      assert Join(c) == Join(b) + "/" + rest;
      SplitConcat(Join(b), rest);
      SplitJoin(b);
      SplitJoin(c);
    }
    if b < c {
      assert c == b + c[|b|..];
      JoinConcat(b, c[|b|..]);
    }
  }

  /** The answer in terms of segments. Nothing but `.` itself is at or under the relative path `.`. */
  predicate UnderBySegments(candidate: string, base: string) {
    && IsAbsolute(candidate) == IsAbsolute(base)
    && Resolve(base) <= Resolve(candidate)
    && (IsAbsolute(base) || Resolve(base) != [] || Resolve(candidate) == [])
  }

  predicate SpelledAtOrUnder(s: string, t: string) {
    s == t || (if t == "/" then StartsWith(s, "/") else StartsWith(s, t + "/"))
  }

  lemma EqualOrProperPrefix(b: seq<string>, c: seq<string>)
    ensures b <= c <==> b == c || b < c
  {
    if b <= c && |b| == |c| {
      assert c == c[..|b|];
    }
  }

  lemma PrefixBehindSlash(x: string, y: string)
    ensures "/" + x <= "/" + y <==> x <= y
  {
    assert ("/" + x)[1..] == x && ("/" + y)[1..] == y;
    if "/" + x <= "/" + y {
      assert ("/" + y)[..1 + |x|] == "/" + x;
      assert y[..|x|] == ("/" + y)[..1 + |x|][1..];
    }
  }

  lemma SpelledUnderAbsolute(c: seq<string>, b: seq<string>)
    requires Resolved(c, true) && Resolved(b, true)
    ensures SpelledAtOrUnder(Spell(c, true), Spell(b, true)) <==> b <= c
  {
    SpellIsInjective(b, c, true);
    JoinIsEmpty(b, true);
    JoinIsEmpty(c, true);
    EqualOrProperPrefix(b, c);
    if b != [] && c != [] {
      ResolvedIsSlashFree(b, true);
      ResolvedIsSlashFree(c, true);
      PrefixBySegments(c, b);
      PrefixBehindSlash(Join(b) + "/", Join(c));
      hide Join, Resolved;
      assert Spell(b, true) + "/" == "/" + (Join(b) + "/");
      assert Spell(b, true) != "/";
    } else if b == [] {
      assert Spell(b, true) == "/" && Spell(c, true)[0] == '/';
    } else {
      assert Spell(c, true) == "/" && |Spell(b, true)| > 1;
    }
  }

  lemma SpelledUnderRelative(c: seq<string>, b: seq<string>)
    requires Resolved(c, false) && Resolved(b, false)
    ensures SpelledAtOrUnder(Spell(c, false), Spell(b, false)) <==> b <= c && (b != [] || c == [])
  {
    SpellIsInjective(b, c, false);
    SpellResolves(b, false);
    SpellResolves(c, false);
    EqualOrProperPrefix(b, c);
    assert Spell(b, false) != "/" by {
      assert !IsAbsolute(Spell(b, false));
    }
    if b != [] && c != [] {
      ResolvedIsSlashFree(b, false);
      ResolvedIsSlashFree(c, false);
      PrefixBySegments(c, b);
      hide Join, Resolved, Resolve;
      assert Spell(b, false) == Join(b) && Spell(c, false) == Join(c);
    } else if c != [] {
      DotIsNoPrefix(c);
      hide Join, Resolved, Resolve;
    } else if b != [] {
      assert Spell(c, false) == ".";
      SpellIsNoDot(b);
      hide Join, Resolved, Resolve;
    }
  }

  lemma SpellIsNoDot(b: seq<string>)
    requires Resolved(b, false) && b != []
    ensures Join(b) != "." && Join(b) != ""
  {
    DotIsNoPrefix(b);
    JoinIsEmpty(b, false);
  }

  lemma DotIsNoPrefix(c: seq<string>)
    requires Resolved(c, false) && c != []
    ensures !("./" <= Join(c)) && Join(c) != "."
  {
    ResolvedIsSlashFree(c, false);
    SplitJoin(c);
    SplitSlashFree(".");
  }

  /** Containment by canonical spelling, for already resolved segments. */
  lemma SpelledUnder(c: seq<string>, cAbs: bool, b: seq<string>, bAbs: bool)
    requires Resolved(c, cAbs) && Resolved(b, bAbs)
    ensures SpelledAtOrUnder(Spell(c, cAbs), Spell(b, bAbs)) <==> cAbs == bAbs && b <= c && (bAbs || b != [] || c == [])
  {
    SpellResolves(c, cAbs);
    SpellResolves(b, bAbs);
    if cAbs != bAbs {
      assert IsAbsolute(Spell(b, bAbs)) == bAbs && IsAbsolute(Spell(c, cAbs)) == cAbs;
    } else if bAbs {
      SpelledUnderAbsolute(c, b);
    } else {
      SpelledUnderRelative(c, b);
    }
  }

  /** The main result: the text test decides the prefix order on resolved segments, for all spellings. */
  lemma UnderIsSegmentPrefix(candidate: string, base: string)
    ensures IsAtOrUnder(candidate, base) <==> UnderBySegments(candidate, base)
  {
    ResolveIsResolved(candidate);
    ResolveIsResolved(base);
    SpellHasNoTrailingSlash(Resolve(candidate), IsAbsolute(candidate));
    SpellHasNoTrailingSlash(Resolve(base), IsAbsolute(base));
    SpelledUnder(Resolve(candidate), IsAbsolute(candidate), Resolve(base), IsAbsolute(base));
  }

  lemma SamePathBySegments(left: string, right: string)
    ensures IsSamePath(left, right) <==> IsAbsolute(left) == IsAbsolute(right) && Resolve(left) == Resolve(right)
  {
    NormalizeIdempotent(left);
    NormalizeIdempotent(right);
  }

  /** Containment is a preorder whose equivalence is "same path". */
  lemma UnderIsAPreorder(a: string, b: string, c: string)
    ensures IsAtOrUnder(a, a)
    ensures IsAtOrUnder(a, b) && IsAtOrUnder(b, c) ==> IsAtOrUnder(a, c)
    ensures IsAtOrUnder(a, b) && IsAtOrUnder(b, a) <==> IsSamePath(a, b)
  {
    UnderIsSegmentPrefix(a, a);
    UnderIsSegmentPrefix(a, b);
    UnderIsSegmentPrefix(b, c);
    UnderIsSegmentPrefix(a, c);
    UnderIsSegmentPrefix(b, a);
    SamePathBySegments(a, b);
  }

  /** Of two canonical absolute keys that contain the same path, the longer text is the deeper one. */
  lemma LongerKeyIsDeeper(a: seq<string>, b: seq<string>, path: seq<string>)
    requires Resolved(a, true) && Resolved(b, true) && a <= path && b <= path
    ensures |Spell(a, true)| > |Spell(b, true)| <==> b < a
  {
    if a < b || b < a {
      var short, long := if a < b then a else b, if a < b then b else a;
      JoinIsEmpty(long, true);
      if short != [] {
        assert long == short + long[|short|..];
        JoinConcat(short, long[|short|..]);
      }
    } else {
      assert a == path[..|a|] && b == path[..|b|];
    }
  }

  // ---------- Host to container ----------

  function ChopSlash(p: string): string {
    if |p| > 1 && p[|p| - 1] == '/' then p[..|p| - 1] else p
  }

  function SliceFrom(s: string, n: nat): string {
    if n <= |s| then s[n..] else ""
  }

  function HostToContainer(path: string, hostPath: string, containerPath: string): Option<string> {
    var host := Normalize(ChopSlash(hostPath));
    var candidate := Normalize(ChopSlash(path));
    if !IsAtOrUnder(candidate, host) then None
    else
      var hostTrimmed := if host == "/" then "/" else TrimSlashes(host);
      var candidateTrimmed := if candidate == "/" then "/" else TrimSlashes(candidate);
      if candidateTrimmed == hostTrimmed then Some(containerPath)
      else
        var base := if hostTrimmed == "/" then "/" else hostTrimmed + "/";
        var trimmed := TrimSlashes(containerPath);
        var containerRoot := if trimmed == "" then "/" else trimmed;
        Some((if containerRoot == "/" then "" else containerRoot) + "/" + SliceFrom(candidate, |base|))
  }

  lemma {:induction false} TrimKeepsWalk(s: string, at: seq<string>, absolute: bool)
    ensures Walk(at, Split(TrimSlashes(s)), absolute) == Walk(at, Split(s), absolute)
  {
    if s != "" && s[|s| - 1] == '/' {
      var front := s[..|s| - 1];
      TrimKeepsWalk(front, at, absolute);
      assert s == front + "/" + "";
      SplitConcat(front, "");
      WalkConcat(at, Split(front), [""], absolute);
    }
  }

  lemma ChopKeepsResolve(p: string)
    ensures Resolve(ChopSlash(p)) == Resolve(p) && IsAbsolute(ChopSlash(p)) == IsAbsolute(p)
  {
    if |p| > 1 && p[|p| - 1] == '/' {
      var front := p[..|p| - 1];
      assert p == front + "/" + "";
      SplitConcat(front, "");
      WalkConcat([], Split(front), [""], IsAbsolute(p));
    }
  }

  /** What the container path becomes when the trimmed root is continued with names. */
  lemma ContainerTail(containerPath: string, names: seq<string>)
    requires IsAbsolute(containerPath) && names != [] && Resolved(names, true)
    ensures var trimmed := TrimSlashes(containerPath);
      var r := (if trimmed == "" || trimmed == "/" then "" else trimmed) + "/" + Join(names);
      IsAbsolute(r) && Resolve(r) == Resolve(containerPath) + names
  {
    var trimmed := TrimSlashes(containerPath);
    TrimIsNotSlash(containerPath);
    var r := trimmed + "/" + Join(names);
    assert IsAbsolute(r);
    SplitConcat(trimmed, Join(names));
    ResolvedIsSlashFree(names, true);
    SplitJoin(names);
    WalkConcat([], Split(trimmed), names, true);
    TrimKeepsWalk(containerPath, [], true);
    ResolveIsResolved(containerPath);
    WalkDown(Resolve(containerPath), names, true);
  }

  lemma {:induction false} TrimIsNotSlash(s: string)
    ensures TrimSlashes(s) == "" || TrimSlashes(s)[|TrimSlashes(s)| - 1] != '/'
    ensures TrimSlashes(s) <= s
  {
    if s != "" && s[|s| - 1] == '/' {
      TrimIsNotSlash(s[..|s| - 1]);
    }
  }

  /** The translation on canonical spellings. */
  lemma TranslateSpelled(h: seq<string>, p: seq<string>, containerPath: string)
    requires Resolved(h, true) && Resolved(p, true) && h <= p && IsAbsolute(containerPath)
    ensures var host, candidate := Spell(h, true), Spell(p, true);
      && (candidate == host <==> p == h)
      && (p != h ==>
        var base := if host == "/" then "/" else host + "/";
        SliceFrom(candidate, |base|) == Join(p[|h|..]))
  {
    SpellIsInjective(p, h, true);
    JoinIsEmpty(h, true);
    if p != h {
      var tail := p[|h|..];
      assert p == h + tail;
      if h == [] {
        assert tail == p;
      } else {
        JoinConcat(h, tail);
        assert Spell(p, true) == Spell(h, true) + "/" + Join(tail);
      }
    }
  }

  /** Translation swaps exactly the host prefix for the container prefix. */
  lemma TranslationSwapsPrefix(path: string, hostPath: string, containerPath: string)
    requires IsAbsolute(hostPath) && IsAbsolute(containerPath)
    ensures var r := HostToContainer(path, hostPath, containerPath);
      && (r.Some? <==> IsAbsolute(path) && Resolve(hostPath) <= Resolve(path))
      && (r.Some? ==> IsAbsolute(r.value))
      && (r.Some? ==> Resolve(r.value) == Resolve(containerPath) + Resolve(path)[|Resolve(hostPath)|..])
  {
    var h, p := Resolve(hostPath), Resolve(path);
    ChopKeepsResolve(path);
    ChopKeepsResolve(hostPath);
    NormalizeIdempotent(ChopSlash(path));
    NormalizeIdempotent(ChopSlash(hostPath));
    UnderIsSegmentPrefix(Normalize(ChopSlash(path)), Normalize(ChopSlash(hostPath)));
    if IsAbsolute(path) && h <= p {
      ResolveIsResolved(path);
      ResolveIsResolved(hostPath);
      TranslatedValue(path, hostPath, containerPath);
    }
  }

  lemma TranslatedValue(path: string, hostPath: string, containerPath: string)
    requires IsAbsolute(hostPath) && IsAbsolute(containerPath) && IsAbsolute(path)
    requires Resolved(Resolve(path), true) && Resolved(Resolve(hostPath), true) && Resolve(hostPath) <= Resolve(path)
    requires HostToContainer(path, hostPath, containerPath).Some?
    requires Normalize(ChopSlash(path)) == Spell(Resolve(path), true)
    requires Normalize(ChopSlash(hostPath)) == Spell(Resolve(hostPath), true)
    ensures var r := HostToContainer(path, hostPath, containerPath).value;
      IsAbsolute(r) && Resolve(r) == Resolve(containerPath) + Resolve(path)[|Resolve(hostPath)|..]
  {
    hide Resolve, Normalize, IsAtOrUnder;
    var h, p := Resolve(hostPath), Resolve(path);
    SpellHasNoTrailingSlash(p, true);
    SpellHasNoTrailingSlash(h, true);
    TranslateSpelled(h, p, containerPath);
    if p != h {
      var tail := p[|h|..];
      assert Resolved(tail, true);
      ContainerTail(containerPath, tail);
    }
  }

  /** Translation is an order embedding: it preserves and reflects containment, hence path identity. */
  lemma TranslationIsAnEmbedding(a: string, b: string, hostPath: string, containerPath: string)
    requires IsAbsolute(hostPath) && IsAbsolute(containerPath)
    requires HostToContainer(a, hostPath, containerPath).Some? && HostToContainer(b, hostPath, containerPath).Some?
    ensures var a' := HostToContainer(a, hostPath, containerPath).value;
      var b' := HostToContainer(b, hostPath, containerPath).value;
      && (IsAtOrUnder(a', b') <==> IsAtOrUnder(a, b))
      && (IsSamePath(a', b') <==> IsSamePath(a, b))
      && IsAtOrUnder(a', containerPath)
  {
    var a', b' := HostToContainer(a, hostPath, containerPath).value, HostToContainer(b, hostPath, containerPath).value;
    TranslationSwapsPrefix(a, hostPath, containerPath);
    TranslationSwapsPrefix(b, hostPath, containerPath);
    UnderIsSegmentPrefix(a', b');
    UnderIsSegmentPrefix(a, b);
    UnderIsSegmentPrefix(a', containerPath);
    SamePathBySegments(a', b');
    SamePathBySegments(a, b);
    hide Resolve, HostToContainer;
    SharedPrefix(Resolve(a), Resolve(b), Resolve(hostPath), Resolve(containerPath));
  }

  lemma SharedPrefix(p: seq<string>, q: seq<string>, h: seq<string>, c: seq<string>)
    requires h <= p && h <= q
    ensures c + q[|h|..] <= c + p[|h|..] <==> q <= p
    ensures c + q[|h|..] == c + p[|h|..] <==> q == p
  {
    assert p == h + p[|h|..] && q == h + q[|h|..];
    var x, y := c + q[|h|..], c + p[|h|..];
    assert x[|c|..] == q[|h|..] && y[|c|..] == p[|h|..];
    if x <= y {
      assert y[|c|..][..|q| - |h|] == q[|h|..];
    }
  }
}
