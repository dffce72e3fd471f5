/**
 * The two routing guards: `findContainerPath` keeps container paths off the host surface
 * (src/path-mapper.ts) and `detectHostPathOnContainerSurface` keeps host paths off the container
 * surface (src/routing-guard.ts). Both return the first offending argument, both verdicts are
 * determined by resolved segments, and translating what one refuses yields what the other refuses.
 */
module Guards {
  import opened Text
  import opened Paths

  /** A mapping as the guard receives it, with the variables in `visible` already expanded. */
  datatype Mapping = Mapping(hostPath: string, containerPath: string, visible: seq<string>)

  /** Trailing slashes off, except for a lone root; a spelling made of slashes only becomes empty. */
  function Trimmed(path: string): string {
    if |path| > 1 && path[|path| - 1] == '/' then TrimSlashes(path) else path
  }

  /** `hit` is the first argument the guard refuses, or nothing when it refuses none. */
  ghost predicate IsFirstOffender(argv: seq<string>, hit: Option<string>, refuses: string -> bool) {
    match hit
    case None => forall t :: t in argv ==> !refuses(t)
    case Some(token) =>
      exists i :: 0 <= i < |argv| && argv[i] == token && refuses(token) && forall j :: 0 <= j < i ==> !refuses(argv[j])
  }

  // ---------- The forward guard ----------

  predicate ForwardRefuses(token: string, containerPath: string) {
    IsAbsolute(token) && ChopSlash(containerPath) != "" && IsAtOrUnder(ChopSlash(token), ChopSlash(containerPath))
  }

  method FindContainerPath(argv: seq<string>, containerPath: string) returns (hit: Option<string>)
    ensures IsFirstOffender(argv, hit, t => ForwardRefuses(t, containerPath))
  {
    var base := ChopSlash(containerPath);
    if |base| == 0 {
      return None;
    }
    for i := 0 to |argv|
      invariant forall j :: 0 <= j < i ==> !ForwardRefuses(argv[j], containerPath)
    {
      var token := argv[i];
      if !StartsWith(token, "/") {
        continue;
      }
      var candidate := ChopSlash(token);
      if IsAtOrUnder(candidate, base) {
        return Some(token);
      }
    }
    return None;
  }

  /** The forward verdict by segments, for every token. */
  lemma ForwardBySegments(token: string, containerPath: string)
    requires IsAbsolute(containerPath)
    ensures ForwardRefuses(token, containerPath) <==> IsAbsolute(token) && Resolve(containerPath) <= Resolve(token)
  {
    ChopKeepsResolve(token);
    ChopKeepsResolve(containerPath);
    UnderIsSegmentPrefix(ChopSlash(token), ChopSlash(containerPath));
  }

  // ---------- The reverse guard ----------

  /** The guard has something to compare against. */
  predicate Armed(m: Mapping) {
    !IsSamePath(m.hostPath, m.containerPath) && Trimmed(m.hostPath) != ""
  }

  /** The source's ancestor test, raw lengths included. */
  predicate ContainerIsAncestor(m: Mapping) {
    var host, container := Trimmed(m.hostPath), Trimmed(m.containerPath);
    |container| > 0 && |host| > |container| && IsAtOrUnder(host, container)
  }

  predicate SameFileOnBothSides(token: string, m: Mapping) {
    exists v :: v in m.visible && IsAtOrUnder(Trimmed(token), Trimmed(v))
  }

  predicate Excused(token: string, m: Mapping) {
    || (!ContainerIsAncestor(m) && Trimmed(m.containerPath) != ""
        && IsAtOrUnder(Trimmed(token), Trimmed(m.containerPath)))
    || SameFileOnBothSides(token, m)
  }

  predicate ReverseRefuses(token: string, m: Mapping) {
    Armed(m) && IsAtOrUnder(Trimmed(token), Trimmed(m.hostPath)) && !Excused(token, m)
  }

  method IsVisible(candidate: string, visible: seq<string>) returns (b: bool)
    ensures b <==> exists v :: v in visible && IsAtOrUnder(candidate, Trimmed(v))
  {
    for i := 0 to |visible|
      invariant forall j :: 0 <= j < i ==> !IsAtOrUnder(candidate, Trimmed(visible[j]))
    {
      if IsAtOrUnder(candidate, Trimmed(visible[i])) {
        return true;
      }
    }
    return false;
  }

  /** The body of the guard's loop, once the guard is armed. */
  method IsOffender(element: string, m: Mapping, host: string, container: string, ancestor: bool) returns (b: bool)
    requires Armed(m) && host == Trimmed(m.hostPath) && container == Trimmed(m.containerPath)
    requires ancestor == ContainerIsAncestor(m)
    ensures b == ReverseRefuses(element, m)
  {
    hide IsAtOrUnder, Trimmed, Armed, ContainerIsAncestor;
    var candidate := Trimmed(element);
    if !IsAtOrUnder(candidate, host) {
      return false;
    }
    if !ancestor && |container| > 0 && IsAtOrUnder(candidate, container) {
      return false;
    }
    var visible := IsVisible(candidate, m.visible);
    return !visible;
  }

  method DetectHostPathOnContainerSurface(argv: seq<string>, mapping: Option<Mapping>) returns (hit: Option<string>)
    ensures IsFirstOffender(argv, hit, t => mapping.Some? && ReverseRefuses(t, mapping.value))
  {
    hide IsAtOrUnder, IsSamePath, Trimmed, Excused;
    if mapping.None? {
      return None;
    }
    var m := mapping.value;
    var host, container := Trimmed(m.hostPath), Trimmed(m.containerPath);
    if IsSamePath(m.hostPath, m.containerPath) || |host| == 0 {
      return None;
    }
    var ancestor := |container| > 0 && |host| > |container| && IsAtOrUnder(host, container);
    assert Armed(m) && ancestor == ContainerIsAncestor(m);
    hide ReverseRefuses, Armed, ContainerIsAncestor;
    for i := 0 to |argv|
      invariant forall j :: 0 <= j < i ==> !ReverseRefuses(argv[j], m)
    {
      var offends := IsOffender(argv[i], m, host, container, ancestor);
      if offends {
        return Some(argv[i]);
      }
    }
    return None;
  }

  /** Spelled with slashes only, and more than one: the guard's trimming turns it into a relative path. */
  predicate OnlySlashes(path: string) {
    |path| > 1 && TrimSlashes(path) == ""
  }

  lemma TrimmedKeepsResolve(path: string)
    requires !OnlySlashes(path)
    ensures Resolve(Trimmed(path)) == Resolve(path) && IsAbsolute(Trimmed(path)) == IsAbsolute(path)
  {
    TrimIsNotSlash(path);
    TrimKeepsWalk(path, [], IsAbsolute(path));
  }

  predicate VisibleBySegments(token: string, m: Mapping) {
    exists v :: v in m.visible && UnderBySegments(Trimmed(token), Trimmed(v))
  }

  /** The path as the guard compares it: a spelling of slashes only becomes the empty, relative path. */
  lemma TrimmedForm(path: string)
    ensures OnlySlashes(path) ==> Trimmed(path) == ""
    ensures !OnlySlashes(path) ==>
      Resolve(Trimmed(path)) == Resolve(path) && IsAbsolute(Trimmed(path)) == IsAbsolute(path)
    ensures !OnlySlashes(path) && IsAbsolute(path) ==> Trimmed(path) != ""
  {
    if OnlySlashes(path) {
      TrimIsNotSlash(path);
    } else {
      TrimmedKeepsResolve(path);
      assert !IsAbsolute("");
    }
  }

  /**
   * The container's own space excuses a token, unless the container path is an ancestor or spelled with slashes
   * only.
   */
  predicate OwnSpace(t: seq<string>, m: Mapping) {
    !OnlySlashes(m.containerPath) && !ContainerIsAncestor(m) && Resolve(m.containerPath) <= t
  }

  /** The reverse verdict by segments, for all spellings; only the ancestor test and bare slashes look at them. */
  lemma ReverseBySegments(token: string, m: Mapping)
    requires IsAbsolute(m.hostPath) && IsAbsolute(m.containerPath)
    ensures var h, c, t := Resolve(m.hostPath), Resolve(m.containerPath), Resolve(token);
      ReverseRefuses(token, m) <==>
        !OnlySlashes(m.hostPath) && !OnlySlashes(token)
        && IsAbsolute(token) && h != c && h <= t && !OwnSpace(t, m) && !VisibleBySegments(token, m)
  {
    TrimmedForm(m.hostPath);
    TrimmedForm(m.containerPath);
    TrimmedForm(token);
    SamePathBySegments(m.hostPath, m.containerPath);
    UnderIsSegmentPrefix(Trimmed(token), Trimmed(m.hostPath));
    UnderIsSegmentPrefix(Trimmed(token), Trimmed(m.containerPath));
    VisibleIsBySegments(token, m);
    hide Resolve, IsAtOrUnder, IsSamePath, Trimmed;
    hide OnlySlashes, SameFileOnBothSides, VisibleBySegments, ContainerIsAncestor;
    assert !IsAbsolute("");
  }

  lemma VisibleIsBySegments(token: string, m: Mapping)
    ensures SameFileOnBothSides(token, m) <==> VisibleBySegments(token, m)
  {
    hide Trimmed, IsAtOrUnder, UnderBySegments;
    forall v ensures IsAtOrUnder(Trimmed(token), Trimmed(v)) <==> UnderBySegments(Trimmed(token), Trimmed(v)) {
      UnderIsSegmentPrefix(Trimmed(token), Trimmed(v));
    }
  }

  /** Two spellings of one path get the same verdict from both guards, whatever the endpoints' spellings. */
  lemma VerdictsDependOnSegmentsOnly(a: string, b: string, m: Mapping)
    requires IsAbsolute(m.hostPath) && IsAbsolute(m.containerPath)
    requires IsSamePath(a, b) && OnlySlashes(a) == OnlySlashes(b)
    ensures ReverseRefuses(a, m) <==> ReverseRefuses(b, m)
    ensures ForwardRefuses(a, m.containerPath) <==> ForwardRefuses(b, m.containerPath)
  {
    SamePathBySegments(a, b);
    ForwardBySegments(a, m.containerPath);
    ForwardBySegments(b, m.containerPath);
    ReverseBySegments(a, m);
    ReverseBySegments(b, m);
    if !OnlySlashes(a) {
      SameVisibility(a, b, m);
    }
  }

  lemma SameVisibility(a: string, b: string, m: Mapping)
    requires !OnlySlashes(a) && !OnlySlashes(b) && Resolve(a) == Resolve(b) && IsAbsolute(a) == IsAbsolute(b)
    ensures VisibleBySegments(a, m) <==> VisibleBySegments(b, m)
  {
    TrimmedKeepsResolve(a);
    TrimmedKeepsResolve(b);
    hide Resolve, Trimmed, IsAbsolute;
    forall v ensures UnderBySegments(Trimmed(a), Trimmed(v)) <==> UnderBySegments(Trimmed(b), Trimmed(v)) {
    }
  }

  /** Bare slashes, as the token or as the host path, are never refused, although they name the root. */
  lemma OnlySlashesAreNeverRefused(token: string, m: Mapping)
    requires OnlySlashes(token) || OnlySlashes(m.hostPath)
    requires IsAbsolute(m.hostPath)
    ensures !ReverseRefuses(token, m)
  {
    TrimmedForm(token);
    TrimmedForm(m.hostPath);
    UnderIsSegmentPrefix(Trimmed(token), Trimmed(m.hostPath));
    hide Trimmed, OnlySlashes, IsAtOrUnder, Resolve;
    assert !IsAbsolute("");
  }

  /** So with a host path of `/` the spellings `/` and `//` of one path get different verdicts. */
  lemma RootSpellingsDiffer()
    ensures var m := Mapping("/", "/b", []);
      IsSamePath("/", "//") && ReverseRefuses("/", m) && !ReverseRefuses("//", m)
  {
    var m := Mapping("/", "/b", []);
    assert TrimSlashes("/") == "" by { assert "/"[..0] == ""; }
    assert TrimSlashes("//") == "" by { assert "//"[..1] == "/"; }
    OnlySlashesAreNeverRefused("//", m);
    ResolveSmallPaths();
    SlashesResolveToRoot("//");
    SamePathBySegments("/", "//");
    TrimIsNotSlash("/b");
    AncestorExactly(m);
    ReverseBySegments("/", m);
  }

  // ---------- The ancestor test ----------

  predicate Canonical(path: string) {
    path == Normalize(path)
  }

  /** On canonical endpoints the raw length comparison is the proper prefix order. */
  lemma AncestorOnCanonicalEndpoints(m: Mapping)
    requires IsAbsolute(m.hostPath) && IsAbsolute(m.containerPath)
    requires Canonical(m.hostPath) && Canonical(m.containerPath)
    ensures !OnlySlashes(m.hostPath) && !OnlySlashes(m.containerPath)
    ensures ContainerIsAncestor(m) <==> Resolve(m.containerPath) < Resolve(m.hostPath)
  {
    var h, c := Resolve(m.hostPath), Resolve(m.containerPath);
    ResolveIsResolved(m.hostPath);
    ResolveIsResolved(m.containerPath);
    SpellHasNoTrailingSlash(h, true);
    SpellHasNoTrailingSlash(c, true);
    assert Trimmed(m.hostPath) == m.hostPath && Trimmed(m.containerPath) == m.containerPath;
    UnderIsSegmentPrefix(m.hostPath, m.containerPath);
    if c <= h {
      LongerKeyIsDeeper(h, c, h);
    }
  }

  /** On any endpoints: the container path contains the host path, is not bare slashes, and its spelling is shorter. */
  lemma AncestorExactly(m: Mapping)
    requires IsAbsolute(m.hostPath) && IsAbsolute(m.containerPath)
    ensures ContainerIsAncestor(m) <==>
      !OnlySlashes(m.containerPath) && Resolve(m.containerPath) <= Resolve(m.hostPath)
      && |Trimmed(m.containerPath)| < |Trimmed(m.hostPath)|
  {
    TrimmedForm(m.hostPath);
    TrimmedForm(m.containerPath);
    UnderIsSegmentPrefix(Trimmed(m.hostPath), Trimmed(m.containerPath));
    hide Resolve, Trimmed, OnlySlashes, IsAtOrUnder;
    assert !IsAbsolute("");
  }

  /** A container path that contains the host path in a spelling that is no shorter disarms the guard. */
  lemma LongSpellingDisarmsTheGuard(token: string, m: Mapping)
    requires IsAbsolute(m.hostPath) && IsAbsolute(m.containerPath)
    requires Resolve(m.containerPath) <= Resolve(m.hostPath)
    requires |Trimmed(m.hostPath)| <= |Trimmed(m.containerPath)|
    ensures !ReverseRefuses(token, m)
  {
    AncestorExactly(m);
    ReverseBySegments(token, m);
    TrimmedForm(m.hostPath);
    TrimmedForm(m.containerPath);
    hide Resolve, Trimmed, OnlySlashes;
  }

  /** A container path of bare slashes excuses nothing: every unmounted path under the host path is refused. */
  lemma SlashesContainerExcusesNothing(token: string, m: Mapping)
    requires IsAbsolute(m.hostPath) && IsAbsolute(m.containerPath) && OnlySlashes(m.containerPath)
    ensures ReverseRefuses(token, m) <==>
      !OnlySlashes(m.hostPath) && !OnlySlashes(token) && IsAbsolute(token)
      && Resolve(m.hostPath) != [] && Resolve(m.hostPath) <= Resolve(token) && !VisibleBySegments(token, m)
  {
    SlashesResolveToRoot(m.containerPath);
    ReverseBySegments(token, m);
  }

  /** Two spellings of one container path, one of which lets the host path through. */
  lemma AncestorSpellingsDiffer()
    ensures var m, n := Mapping("/b", "/", []), Mapping("/b", "/./.", []);
      IsSamePath(m.containerPath, n.containerPath) && ReverseRefuses("/b", m) && !ReverseRefuses("/b", n)
  {
    var m, n := Mapping("/b", "/", []), Mapping("/b", "/./.", []);
    ResolveSmallPaths();
    TrimIsNotSlash("/b");
    assert TrimSlashes("/") == "" by { assert "/"[..0] == ""; }
    SamePathBySegments(m.containerPath, n.containerPath);
    AncestorExactly(m);
    ReverseBySegments("/b", m);
    LongSpellingDisarmsTheGuard("/b", n);
  }

  lemma ResolveSmallPaths()
    ensures Resolve("/") == [] && Resolve("/b") == ["b"] && Resolve("/./.") == []
  {
    SplitConcat("", "");
    SplitConcat("", "b");
    SplitConcat("", "./.");
    SplitConcat(".", ".");
    SplitSlashFree("b");
    SplitSlashFree(".");
    assert "" + "/" + "" == "/" && "" + "/" + "b" == "/b" && "." + "/" + "." == "./." && "" + "/" + "./." == "/./.";
    assert Split("/b") == ["", "b"];
    assert Split("/./.") == ["", ".", "."];
  }

  // ---------- Duality ----------

  /**
   * What the reverse guard refuses has a container-side image. The forward guard refuses that image;
   * the reverse guard accepts it whenever the container path is no ancestor of the host path.
   */
  lemma GuardDuality(token: string, m: Mapping)
    requires IsAbsolute(m.hostPath) && IsAbsolute(m.containerPath)
    requires ReverseRefuses(token, m) && !(Resolve(m.containerPath) <= Resolve(m.hostPath))
    ensures var image := HostToContainer(token, m.hostPath, m.containerPath);
      image.Some? && ForwardRefuses(image.value, m.containerPath) && !ReverseRefuses(image.value, m)
  {
    RefusedIsNoSlashes(token, m);
    ReverseBySegments(token, m);
    TranslationSwapsPrefix(token, m.hostPath, m.containerPath);
    var image := HostToContainer(token, m.hostPath, m.containerPath).value;
    ForwardBySegments(image, m.containerPath);
    AncestorExactly(m);
    if OnlySlashes(image) {
      SlashesResolveToRoot(image);
    } else {
      ReverseBySegments(image, m);
    }
  }

  lemma RefusedIsNoSlashes(token: string, m: Mapping)
    requires IsAbsolute(m.hostPath)
    requires ReverseRefuses(token, m) && !(Resolve(m.containerPath) <= Resolve(m.hostPath))
    ensures !OnlySlashes(m.hostPath) && !OnlySlashes(m.containerPath) && !OnlySlashes(token)
  {
    if OnlySlashes(m.containerPath) {
      SlashesResolveToRoot(m.containerPath);
    }
    if OnlySlashes(m.hostPath) || OnlySlashes(token) {
      OnlySlashesAreNeverRefused(token, m);
    }
  }

  lemma SlashesResolveToRoot(path: string)
    requires OnlySlashes(path)
    ensures Resolve(path) == []
  {
    TrimKeepsWalk(path, [], IsAbsolute(path));
  }

  /** In general the image is refused again exactly when it still lies under the host path, unexcused. */
  lemma ImageVerdict(token: string, image: string, m: Mapping)
    requires IsAbsolute(m.hostPath) && IsAbsolute(m.containerPath)
    requires ReverseRefuses(token, m) && HostToContainer(token, m.hostPath, m.containerPath) == Some(image)
    ensures ReverseRefuses(image, m) <==>
      !OnlySlashes(image) && Resolve(m.hostPath) <= Resolve(image)
      && (ContainerIsAncestor(m) || OnlySlashes(m.containerPath)) && !VisibleBySegments(image, m)
  {
    ReverseBySegments(token, m);
    TranslationSwapsPrefix(token, m.hostPath, m.containerPath);
    ReverseBySegments(image, m);
    hide Resolve, HostToContainer, OnlySlashes, ContainerIsAncestor, VisibleBySegments, ReverseRefuses;
  }
}
