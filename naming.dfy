/**
 * Collision-free naming: splitExt, genUnusedFilename and the destination
 * names that snap, snapSafe, unsnap, tarDir and untar derive from their
 * source's name, plus fmtDir. The filesystem is the set of paths that
 * exist; mime.TypeByExtension(e) != "" is membership of `e` in `mime`.
 */
module Naming {
  import opened Wrappers
  import opened Paths

  /** Extensions that splitExt strips even when no MIME type is registered for them. */
  const AllowList: set<string> := {".tar", ".sz", ".tar.sz"}

  /** genUnusedFilename tries the numbers 1 up to, but not including, this bound. */
  const ProbeLimit: nat := 20091110230000

  /** Whether splitExt strips extension `t` and keeps going. */
  predicate Strippable(t: string, mime: set<string>) {
    t in mime || t in AllowList
  }

  /** splitExt stops at `base`: it has no extension, or one that is neither known nor allow-listed. */
  predicate Stops(base: string, mime: set<string>) {
    Ext(base) == "" || !Strippable(Ext(base), mime)
  }

  /** filepath.Ext only ever returns one dot-suffix, so the allow-listed ".tar.sz" never matches. */
  lemma ExtIsNeverTarSz(path: string)
    ensures Ext(path) != ".tar.sz"
  {
    ExtShape(path);
    var r := Ext(path);
    if |r| == 7 {
      assert r[4] != '.';
    }
  }

  /** The base that splitExt arrives at from an already cleaned path. */
  function Peel(path: string, mime: set<string>): (base: string)
    ensures Stops(base, mime)
    decreases |path|
  {
    var t := Ext(path);
    if t != "" && Strippable(t, mime) then Peel(TrimSuffix(path, t), mime) else path
  }

  /** Peel only removes characters from the end. */
  lemma {:induction false} PeelIsPrefix(path: string, mime: set<string>)
    ensures var base := Peel(path, mime); |base| <= |path| && path[..|base|] == base
    decreases |path|
  {
    var t := Ext(path);
    if t != "" && Strippable(t, mime) {
      var rest := TrimSuffix(path, t);
      PeelIsPrefix(rest, mime);
      assert rest == path[..|rest|];
    }
  }

  /**
   * Peeling filepath.Ext off `path` one piece at a time can remove only
   * known or allow-listed extensions and land on its first `n` characters:
   * what follows them is a chain of stripped extensions.
   */
  ghost predicate ChainTo(path: string, n: nat, mime: set<string>)
    decreases |path|
  {
    |path| == n ||
    var t := Ext(path);
    t != "" && |t| <= |path| - n && Strippable(t, mime) && ChainTo(path[..|path| - |t|], n, mime)
  }

  /** One pass of splitExt's loop: the extension comes off the end and Peel's result is unchanged. */
  lemma PeelStep(path: string, mime: set<string>)
    requires Ext(path) != "" && Strippable(Ext(path), mime)
    ensures var rest := TrimSuffix(path, Ext(path));
      rest + Ext(path) == path && rest == path[..|rest|] && |rest| < |path| && Peel(rest, mime) == Peel(path, mime)
  {
  }

  /** One pass of splitExt's loop keeps `base + ext` and Peel's result, and shortens the base. */
  lemma StripStep(base: string, ext: string, clean: string, mime: set<string>)
    requires base + ext == clean
    requires Ext(base) != "" && Strippable(Ext(base), mime)
    ensures var t := Ext(base);
      var rest := TrimSuffix(base, t);
      rest + (t + ext) == clean && |rest| < |base| && Peel(rest, mime) == Peel(base, mime)
  {
    var t := Ext(base);
    PeelStep(base, mime);
    var rest := TrimSuffix(base, t);
    assert rest + (t + ext) == (rest + t) + ext;
  }

  /** Where splitExt's loop returns, Peel stops too. */
  lemma PeelStop(path: string, mime: set<string>)
    requires Ext(path) == "" || !Strippable(Ext(path), mime)
    ensures Peel(path, mime) == path
  {
  }

  /** What Peel leaves behind is followed by a chain of stripped extensions. */
  lemma {:induction false} PeelStripsChain(path: string, mime: set<string>)
    ensures var base := Peel(path, mime); |base| <= |path| && ChainTo(path, |base|, mime)
    decreases |path|
  {
    var t := Ext(path);
    if t != "" && Strippable(t, mime) {
      PeelStep(path, mime);
      PeelStripsChain(TrimSuffix(path, t), mime);
    }
  }

  /** Peel is the only stopping point reachable by stripping: any such split of `path` has Peel's base. */
  lemma {:induction false} PeelUnique(path: string, base: string, mime: set<string>)
    requires |base| <= |path| && path[..|base|] == base
    requires ChainTo(path, |base|, mime)
    requires Stops(base, mime)
    ensures base == Peel(path, mime)
    decreases |path|
  {
    if |path| == |base| {
      assert path == base;
    } else {
      var t := Ext(path);
      assert t != "" && |t| <= |path| - |base| && Strippable(t, mime);
      PeelStep(path, mime);
      var rest := TrimSuffix(path, t);
      assert |rest| == |path| - |t|;
      assert rest[..|base|] == base;
      PeelUnique(rest, base, mime);
    }
  }

  /**
   * splitExt: clean the name, then repeatedly move filepath.Ext from the
   * base to the front of the extension chain while that extension is known
   * or allow-listed.
   */
  method SplitExt(filename: string, mime: set<string>) returns (base: string, ext: string)
    ensures base + ext == Clean(filename)
    ensures base == Peel(Clean(filename), mime)
    ensures Stops(base, mime)
  {
    var clean := Clean(filename);
    base, ext := clean, "";
    while true
      invariant base + ext == clean
      invariant Peel(base, mime) == Peel(clean, mime)
      decreases |base|
    {
      var testext := Ext(base);
      if testext == "" {
        PeelStop(base, mime);
        return;
      }
      if testext !in mime {
        if testext !in AllowList {
          PeelStop(base, mime);
          return;
        }
      }
      StripStep(base, ext, clean, mime);
      ext := testext + ext;
      base := TrimSuffix(base, testext);
    }
  }

  /** The pair splitExt returns for `filename`. */
  function Split(filename: string, mime: set<string>): (string, string) {
    var clean := Clean(filename);
    var base := Peel(clean, mime);
    PeelIsPrefix(clean, mime);
    (base, clean[|base|..])
  }

  /** The i-th probe of genUnusedFilename: base(i)ext. */
  function Candidate(base: string, ext: string, i: nat): string {
    base + "(" + Itoa(i) + ")" + ext
  }

  /** Different probe numbers give different names, so every probe asks about a new path. */
  lemma CandidatesDistinct(base: string, ext: string, i: nat, j: nat)
    requires i != j
    ensures Candidate(base, ext, i) != Candidate(base, ext, j)
  {
    if Candidate(base, ext, i) == Candidate(base, ext, j) {
      var a, b := Itoa(i), Itoa(j);
      var ci, cj := Candidate(base, ext, i), Candidate(base, ext, j);
      assert |a| == |b|;
      assert forall k :: 0 <= k < |a| ==> a[k] == ci[|base| + 1 + k] == cj[|base| + 1 + k] == b[k];
      assert a == b;
      ItoaRoundTrip(i);
      ItoaRoundTrip(j);
    }
  }

  /** The least i in [from, ProbeLimit) whose candidate is unused, if there is one. */
  function FirstUnused(base: string, ext: string, existing: set<string>, from: nat): (r: Option<nat>)
    ensures r.Some? ==> from <= r.value < ProbeLimit && Candidate(base, ext, r.value) !in existing
    ensures r.Some? ==> forall j :: from <= j < r.value ==> Candidate(base, ext, j) in existing
    ensures r.None? ==> forall j :: from <= j < ProbeLimit ==> Candidate(base, ext, j) in existing
    decreases ProbeLimit - from
  {
    if from >= ProbeLimit then None
    else if Candidate(base, ext, from) !in existing then Some(from)
    else FirstUnused(base, ext, existing, from + 1)
  }

  /**
   * The name genUnusedFilename settles on: the name itself when it is not
   * in use, else the first unused base(i)ext, else (every probe taken) the
   * name unchanged.
   */
  function UnusedName(filename: string, existing: set<string>, mime: set<string>): (r: string)
    ensures filename !in existing ==> r == filename
    ensures r in existing ==> r == filename
  {
    if filename !in existing then filename
    else
      var (base, ext) := Split(filename, mime);
      match FirstUnused(base, ext, existing, 1)
      case Some(i) => Candidate(base, ext, i)
      case None => filename
  }

  /**
   * A name that is in use becomes base(i)ext for the least i >= 1 whose
   * candidate is unused; when every candidate below ProbeLimit is in use it
   * is left as it was.
   */
  lemma {:induction false} UnusedNameIsFirstFree(filename: string, existing: set<string>, mime: set<string>)
    requires filename in existing
    ensures var (base, ext) := Split(filename, mime);
      var r := UnusedName(filename, existing, mime);
      (r != filename ==> exists i :: (1 <= i < ProbeLimit && r == Candidate(base, ext, i)
        && forall j :: 1 <= j < i ==> Candidate(base, ext, j) in existing))
      && (r == filename <==> forall j :: 1 <= j < ProbeLimit ==> Candidate(base, ext, j) in existing)
  {
    var (base, ext) := Split(filename, mime);
    var found := FirstUnused(base, ext, existing, 1);
    var r := UnusedName(filename, existing, mime);
    if found.Some? {
      var i := found.value;
      assert r == Candidate(base, ext, i) && r !in existing;
      assert 1 <= i < ProbeLimit && forall j :: 1 <= j < i ==> Candidate(base, ext, j) in existing;
      assert !(forall j :: 1 <= j < ProbeLimit ==> Candidate(base, ext, j) in existing);
    } else {
      assert r == filename;
    }
  }

  /** Probing again with the same set of existing paths changes nothing. */
  lemma {:induction false} UnusedNameIdempotent(filename: string, existing: set<string>, mime: set<string>)
    ensures var r := UnusedName(filename, existing, mime);
      UnusedName(r, existing, mime) == r
  {
    var r := UnusedName(filename, existing, mime);
    if r in existing {
      assert r == filename;
    }
  }

  /** genUnusedFilename: probe base(1)ext, base(2)ext, ... until one is unused. */
  method GenUnusedFilename(filename: string, existing: set<string>, mime: set<string>) returns (r: string)
    ensures r == UnusedName(filename, existing, mime)
  {
    r := filename;
    if filename !in existing {
      return;
    }
    var base, ext := SplitExt(filename, mime);
    var i := 1;
    while i < 20091110230000
      invariant 1 <= i <= ProbeLimit
      invariant FirstUnused(base, ext, existing, i) == FirstUnused(base, ext, existing, 1)
      decreases ProbeLimit - i
    {
      var testname := base + "(" + Itoa(i) + ")" + ext;
      if testname in existing {
        i := i + 1;
        continue;
      }
      r := testname;
      return;
    }
  }

  /** snap and snapSafe: the compressed file is named after the source as opened, plus ".sz". */
  function SnapName(srcName: string): (r: string)
    ensures HasSuffix(r, ".sz") && TrimSuffix(r, ".sz") == srcName
  {
    srcName + ".sz"
  }

  /**
   * unsnap: the decompressed file is named after the source's base name with
   * ".sz" trimmed, or with "-uncompressed" added when there was no ".sz".
   */
  function UnsnapName(srcName: string): (r: string)
    ensures r != srcName
    ensures HasSuffix(srcName, ".sz") ==> r + ".sz" == srcName
    ensures !HasSuffix(srcName, ".sz") ==> r == srcName + "-uncompressed"
  {
    var dstName := TrimSuffix(srcName, ".sz");
    if dstName == srcName then srcName + "-uncompressed" else dstName
  }

  /** tarDir: the archive of a directory is named after it, plus ".tar". */
  function TarName(dirName: string): (r: string)
    ensures HasSuffix(r, ".tar") && TrimSuffix(r, ".tar") == dirName
  {
    dirName + ".tar"
  }

  /** untar: the extraction root is the archive's base name with ".tar" trimmed. */
  function ExtractRoot(archiveName: string): (r: string)
    ensures |r| <= |archiveName| && archiveName[..|r|] == r
    ensures HasSuffix(archiveName, ".tar") <==> |r| + 4 == |archiveName|
    ensures HasSuffix(archiveName, ".tar") ==> r + ".tar" == archiveName
    ensures !HasSuffix(archiveName, ".tar") ==> r == archiveName
  {
    TrimSuffix(archiveName, ".tar")
  }

  /**
   * The names along the directory pipeline on a directory `d` given by a
   * plain name: d.tar, then d.tar.sz, which decompresses to d.tar, whose
   * extraction root is d again.
   */
  lemma {:induction false} DirectoryPipelineNames(d: string)
    requires d != "" && '/' !in d
    ensures BaseName(SnapName(TarName(d))) == d + ".tar.sz"
    ensures UnsnapName(BaseName(SnapName(TarName(d)))) == TarName(d)
    ensures ExtractRoot(UnsnapName(BaseName(SnapName(TarName(d))))) == d
  {
    var s := d + ".tar.sz";
    assert SnapName(TarName(d)) == s;
    assert StripTrailingSlashes(s) == s;
    AfterLastSlashNoSlash(s);
    assert TrimSuffix(s, ".sz") == d + ".tar";
    assert TrimSuffix(d + ".tar", ".tar") == d;
  }

  lemma {:induction false} AfterLastSlashNoSlash(s: string)
    requires '/' !in s
    ensures AfterLastSlash(s) == s
    decreases |s|
  {
    if s != [] {
      AfterLastSlashNoSlash(s[..|s| - 1]);
      assert s[..|s| - 1] + [s[|s| - 1]] == s;
    }
  }

  /**
   * unsnap names its output after the source's base name, so the output
   * lands in the working directory whatever directory the source is in.
   */
  lemma {:induction false} UnsnapNameHasNoDirectory(path: string)
    requires BaseName(path) != "/"
    ensures '/' !in UnsnapName(BaseName(path))
  {
    var b := BaseName(path);
    assert b == AfterLastSlash(StripTrailingSlashes(path));
    if HasSuffix(b, ".sz") {
      NoSlashInPrefix(b, |b| - 3);
    } else {
      assert UnsnapName(b) == b + "-uncompressed";
      assert '/' !in "-uncompressed";
    }
  }

  lemma NoSlashInPrefix(s: string, n: nat)
    requires '/' !in s && n <= |s|
    ensures '/' !in s[..n]
  {
    assert forall k :: 0 <= k < n ==> s[..n][k] == s[k];
  }

  /** fmtDir: append the separator unless the name already ends with one. */
  function FmtDir(name: string): (r: string)
    ensures HasSuffix(r, "/")
    ensures HasSuffix(name, "/") ==> r == name
    ensures !HasSuffix(name, "/") ==> r == name + "/"
  {
    if HasSuffix(name, "/") then name else name + "/"
  }

  lemma FmtDirIdempotent(name: string)
    ensures FmtDir(FmtDir(name)) == FmtDir(name)
  {
  }
}
