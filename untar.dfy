/**
 * untar: read members until the tar reader reports the end or an error,
 * materialising directories, regular files, hard links and symlinks. The
 * tar reader and the filesystem are abstract: each call to Next yields a
 * member (with the effect that applying it has), a read error, or the end
 * of the archive, and the filesystem is the set of paths that exist.
 */
module Untar {
  import opened Wrappers
  import opened Paths
  import opened Naming
  import opened TarFormat
  import opened Progress

  /** What applying one member to the filesystem comes to. */
  datatype Effect =
    | Completed
    | FailsBeforeCreating   // mkdir, open, link or symlink fails: nothing is created
    | FailsAfterCreating    // the path is created, then writing it fails

  /** One result of tar.Reader.Next. */
  datatype NextResult = Next(hdr: Header, effect: Effect) | NextError | EndOfArchive

  datatype Action =
    | MakeDirs(path: string, mode: nat)
    | CreateFile(path: string, mode: nat)
    | MakeHardLink(target: string, path: string)
    | MakeSymlink(target: string, path: string)

  /** The filesystem, the progress counter and the actions taken so far. */
  datatype Extraction = Extraction(fs: set<string>, progress: nat, actions: seq<Action>)

  datatype UntarError = StatError | ExtractError(archive: string)

  /** The member types the switch in untar acts on; any other type is skipped. */
  predicate Handled(t: TypeFlag) {
    t == TypeDir || t == TypeReg || t == TypeRegA || t == TypeLink || t == TypeSymlink
  }

  /** The member's path on disk: the first occurrence of the root is replaced when the root was renamed. */
  function MemberPath(name: string, originName: string, dstName: string): (r: string)
    ensures dstName == originName ==> r == name
    ensures |r| == |name| || |r| + |originName| == |name| + |dstName|
  {
    if dstName != originName then ReplaceFirst(name, originName, dstName) else name
  }

  /** A renamed root that starts the member's name is replaced by the new root. */
  lemma {:induction false} MemberPathRenamesRoot(originName: string, dstName: string, rest: string)
    requires originName != "" && dstName != originName
    ensures MemberPath(originName + rest, originName, dstName) == dstName + rest
  {
    var s := originName + rest;
    assert s[..|originName|] == originName;
    assert s[|originName|..] == rest;
  }

  /** The replacement is not tied to the start of the name: the first occurrence anywhere is replaced. */
  lemma MemberPathReplacesInside()
    ensures MemberPath("data/x", "a", "a(1)") == "da(1)ta/x"
  {
    var s := "data/x";
    assert OccursAt(s, "a", 1) by { assert s[1..2] == "a"; }
    assert !OccursAt(s, "a", 0) by { assert s[0..1] == "d"; }
    ReplaceFirstAt(s, "a", "a(1)", 1);
    assert s[..1] == "d" && s[2..] == "ta/x";
  }

  /** The switch on the member's type, for a member at `path`: what is created and recorded. */
  function Switched(st: Extraction, hdr: Header, effect: Effect, path: string, mime: set<string>): Extraction
    requires Handled(hdr.typeflag)
  {
    var created := if hdr.typeflag == TypeReg || hdr.typeflag == TypeRegA then UnusedName(path, st.fs, mime) else path;
    var action := match hdr.typeflag
      case TypeDir => MakeDirs(path, hdr.mode)
      case TypeLink => MakeHardLink(hdr.linkname, path)
      case TypeSymlink => MakeSymlink(hdr.linkname, path)
      case _ => CreateFile(created, hdr.mode);
    if effect == FailsBeforeCreating then st
    else st.(fs := st.fs + {created}, actions := st.actions + [action])
  }

  /** The switch in untar's loop; `failed` is the err it leaves, which the next call to Next overwrites. */
  method Materialise(st: Extraction, hdr: Header, effect: Effect, path: string, mime: set<string>)
    returns (st': Extraction, failed: bool)
    requires Handled(hdr.typeflag)
    ensures st' == Switched(st, hdr, effect, path, mime)
    ensures failed <==> effect != Completed
  {
    st' := st;
    failed := effect == FailsBeforeCreating;
    match hdr.typeflag {
      case TypeDir =>
        if !failed {
          st' := st.(fs := st.fs + {path}, actions := st.actions + [MakeDirs(path, hdr.mode)]);
        }
      case TypeLink =>
        if !failed {
          st' := st.(fs := st.fs + {path}, actions := st.actions + [MakeHardLink(hdr.linkname, path)]);
        }
      case TypeSymlink =>
        if !failed {
          st' := st.(fs := st.fs + {path}, actions := st.actions + [MakeSymlink(hdr.linkname, path)]);
        }
      case _ =>
        // create: the name genUnusedFilename picks, then os.OpenFile
        var created := GenUnusedFilename(path, st.fs, mime);
        if !failed {
          st' := st.(fs := st.fs + {created}, actions := st.actions + [CreateFile(created, hdr.mode)]);
        }
    }
    if effect == FailsAfterCreating {
      failed := true;
    }
  }

  /** One pass of the loop body for a member: the switch, then the progress update. */
  function ApplyMember(st: Extraction, hdr: Header, effect: Effect, originName: string, dstName: string,
                       mime: set<string>, quiet: bool): (r: Extraction)
    ensures !Handled(hdr.typeflag) ==> r == st
    ensures r.progress == if Handled(hdr.typeflag) && !quiet && hdr.size != 0
                          then (st.progress + hdr.size) % Uint64Modulus else st.progress
    ensures st.fs <= r.fs && |st.actions| <= |r.actions| <= |st.actions| + 1 && r.actions[..|st.actions|] == st.actions
    ensures effect == FailsBeforeCreating ==> r.fs == st.fs && r.actions == st.actions
    ensures effect != FailsBeforeCreating ==> var path := MemberPath(hdr.name, originName, dstName);
      && (hdr.typeflag == TypeDir || hdr.typeflag == TypeLink || hdr.typeflag == TypeSymlink ==> r.fs == st.fs + {path})
      && (hdr.typeflag == TypeDir ==> r.actions == st.actions + [MakeDirs(path, hdr.mode)])
      && (hdr.typeflag == TypeReg || hdr.typeflag == TypeRegA ==>
            var created := UnusedName(path, st.fs, mime);
            r.fs == st.fs + {created} && r.actions == st.actions + [CreateFile(created, hdr.mode)])
      && (hdr.typeflag == TypeLink ==> r.actions == st.actions + [MakeHardLink(hdr.linkname, path)])
      && (hdr.typeflag == TypeSymlink ==> r.actions == st.actions + [MakeSymlink(hdr.linkname, path)])
  {
    if !Handled(hdr.typeflag) then st
    else
      var st' := Switched(st, hdr, effect, MemberPath(hdr.name, originName, dstName), mime);
      if quiet || hdr.size == 0 then st'
      else st'.(progress := (st.progress + hdr.size) % Uint64Modulus)
  }

  /** The loop from the i-th call to Next on: whether it ends on a read error, and the state it leaves. */
  function ExtractFrom(events: seq<NextResult>, i: nat, st: Extraction, originName: string, dstName: string,
                       mime: set<string>, quiet: bool): (bool, Extraction)
    requires i <= |events|
    decreases |events| - i
  {
    if i == |events| then (false, st)
    else match events[i]
      case EndOfArchive => (false, st)
      case NextError => (true, st)
      case Next(hdr, effect) =>
        ExtractFrom(events, i + 1, ApplyMember(st, hdr, effect, originName, dstName, mime, quiet),
                    originName, dstName, mime, quiet)
  }

  /** untar on the archive opened as `archive`, whose reader yields `events`, over filesystem `fs`. */
  function UntarSpec(archive: string, statOk: bool, events: seq<NextResult>, fs: set<string>,
                     mime: set<string>, quiet: bool): (Option<UntarError>, Extraction)
  {
    if !statOk then (Some(StatError), Extraction(fs, 0, []))
    else
      var name := BaseName(archive);
      var originName := TrimSuffix(name, ".tar");
      var dstName := UnusedName(originName, fs, mime);
      var (failed, st) := ExtractFrom(events, 0, Extraction(fs, 0, []), originName, dstName, mime, quiet);
      (if failed then Some(ExtractError(name)) else None, st)
  }

  /**
   * untar: the extraction root is the archive's name without ".tar", renamed
   * if it is in use; a member's error only leaves the switch and is
   * overwritten by the next call to Next.
   */
  method Untar(archive: string, statOk: bool, events: seq<NextResult>, fs: set<string>,
               mime: set<string>, quiet: bool) returns (err: Option<UntarError>, st: Extraction)
    ensures (err, st) == UntarSpec(archive, statOk, events, fs, mime, quiet)
  {
    if !statOk {
      return Some(StatError), Extraction(fs, 0, []);
    }
    var name := BaseName(archive);
    var originName := TrimSuffix(name, ".tar");
    var dstName := GenUnusedFilename(originName, fs, mime);
    var failed;
    failed, st := ExtractAll(events, fs, originName, dstName, mime, quiet);
    err := if failed then Some(ExtractError(name)) else None;
  }

  /**
   * The read loop of untar: call Next until it reports the end or an error;
   * `failed` is whether the err left at the end is non-nil.
   */
  method ExtractAll(events: seq<NextResult>, fs: set<string>, originName: string, dstName: string,
                    mime: set<string>, quiet: bool) returns (failed: bool, st: Extraction)
    ensures (failed, st) == ExtractFrom(events, 0, Extraction(fs, 0, []), originName, dstName, mime, quiet)
  {
    st := Extraction(fs, 0, []);
    ghost var outcome := ExtractFrom(events, 0, st, originName, dstName, mime, quiet);
    failed := false;
    var i := 0;
    while true
      invariant 0 <= i <= |events|
      invariant ExtractFrom(events, i, st, originName, dstName, mime, quiet) == outcome
      decreases |events| - i
    {
      var next := if i < |events| then events[i] else EndOfArchive;
      if next.EndOfArchive? {
        failed := false;
        break;
      } else if next.NextError? {
        failed := true;
        break;
      }
      ExtractStep(events, i, st, originName, dstName, mime, quiet);
      st, failed := ExtractMember(st, next.hdr, next.effect, originName, dstName, mime, quiet);
      i := i + 1;
    }
    assert outcome == (failed, st);
  }


  /**
   * The loop body for one member: rename its path under the new root, skip
   * an unhandled type, run the switch, then count its size. `failed` is the
   * err the switch leaves, which only a handled member's failing action sets.
   */
  method ExtractMember(st: Extraction, hdr: Header, effect: Effect, originName: string, dstName: string,
                       mime: set<string>, quiet: bool) returns (st': Extraction, failed: bool)
    ensures st' == ApplyMember(st, hdr, effect, originName, dstName, mime, quiet)
    ensures failed <==> Handled(hdr.typeflag) && effect != Completed
  {
    var path := hdr.name;
    if dstName != originName {
      path := ReplaceFirst(path, originName, dstName);
    }
    if !Handled(hdr.typeflag) {
      return st, false;
    }
    st', failed := Materialise(st, hdr, effect, path, mime);
    if !quiet && hdr.size != 0 {
      st' := st'.(progress := (st.progress + hdr.size) % Uint64Modulus);
    }
  }

  /** One pass of the loop over a member: apply it, then go on with the next call to Next. */
  lemma ExtractStep(events: seq<NextResult>, i: nat, st: Extraction,
                    originName: string, dstName: string, mime: set<string>, quiet: bool)
    requires i < |events| && events[i].Next?
    ensures ExtractFrom(events, i, st, originName, dstName, mime, quiet)
         == ExtractFrom(events, i + 1, ApplyMember(st, events[i].hdr, events[i].effect, originName, dstName, mime, quiet),
                        originName, dstName, mime, quiet)
  {
  }

  /** The loop ends with an error exactly when Next reports one before reporting the end. */
  lemma {:induction false} ExtractFailsIffReadError(events: seq<NextResult>, i: nat, st: Extraction,
                                                    originName: string, dstName: string, mime: set<string>, quiet: bool)
    requires i <= |events|
    ensures ExtractFrom(events, i, st, originName, dstName, mime, quiet).0 <==>
      exists k :: i <= k < |events| && events[k].NextError? && forall j :: i <= j < k ==> events[j].Next?
    decreases |events| - i
  {
    if i < |events| && events[i].Next? {
      var hdr, effect := events[i].hdr, events[i].effect;
      ExtractFailsIffReadError(events, i + 1, ApplyMember(st, hdr, effect, originName, dstName, mime, quiet),
                               originName, dstName, mime, quiet);
      var failed := ExtractFrom(events, i, st, originName, dstName, mime, quiet).0;
      if failed {
        var k :| i + 1 <= k < |events| && events[k].NextError? && forall j :: i + 1 <= j < k ==> events[j].Next?;
        assert forall j :: i <= j < k ==> events[j].Next?;
      } else {
      }
    }
  }

  /** Two runs of Next that agree on every header and on where reading fails or ends, whatever the effects. */
  ghost predicate SameReads(a: seq<NextResult>, b: seq<NextResult>) {
    |a| == |b| &&
    forall k :: 0 <= k < |a| ==>
      (a[k].Next? <==> b[k].Next?) && (a[k].NextError? <==> b[k].NextError?)
      && (a[k].Next? ==> a[k].hdr == b[k].hdr)
  }

  /**
   * A member whose extraction fails does not stop the loop: whether untar
   * fails and how far progress gets depend only on what Next reports, never
   * on whether applying a member succeeded.
   */
  lemma {:induction false} MemberErrorsAreOverwritten(a: seq<NextResult>, b: seq<NextResult>, i: nat,
                                                      stA: Extraction, stB: Extraction,
                                                      originName: string, dstName: string, mime: set<string>, quiet: bool)
    requires SameReads(a, b) && i <= |a|
    requires stA.progress == stB.progress
    ensures ExtractFrom(a, i, stA, originName, dstName, mime, quiet).0 == ExtractFrom(b, i, stB, originName, dstName, mime, quiet).0
    ensures ExtractFrom(a, i, stA, originName, dstName, mime, quiet).1.progress
         == ExtractFrom(b, i, stB, originName, dstName, mime, quiet).1.progress
    decreases |a| - i
  {
    if i < |a| && a[i].Next? {
      MemberErrorsAreOverwritten(a, b, i + 1,
        ApplyMember(stA, a[i].hdr, a[i].effect, originName, dstName, mime, quiet),
        ApplyMember(stB, b[i].hdr, b[i].effect, originName, dstName, mime, quiet),
        originName, dstName, mime, quiet);
    }
  }

  /** The bytes progress counts from the i-th call to Next on: sizes of handled members before the end or an error. */
  function CountedBytes(events: seq<NextResult>, i: nat, quiet: bool): nat
    requires i <= |events|
    decreases |events| - i
  {
    if i == |events| || !events[i].Next? then 0
    else (if !quiet && Handled(events[i].hdr.typeflag) then events[i].hdr.size else 0) + CountedBytes(events, i + 1, quiet)
  }

  lemma ModAbsorb(a: nat, b: nat)
    ensures (a % Uint64Modulus + b) % Uint64Modulus == (a + b) % Uint64Modulus
  {
    var m := Uint64Modulus;
    var q := a / m;
    assert a == q * m + a % m;
    assert a + b == (a % m + b) + q * m;
  }

  /** progress ends as the sum of the sizes of the handled members, as a uint64; quiet keeps it at its start. */
  lemma {:induction false} ProgressIsSumOfSizes(events: seq<NextResult>, i: nat, st: Extraction,
                                                originName: string, dstName: string, mime: set<string>, quiet: bool)
    requires i <= |events| && st.progress < Uint64Modulus
    ensures ExtractFrom(events, i, st, originName, dstName, mime, quiet).1.progress
         == if quiet then st.progress else (st.progress + CountedBytes(events, i, quiet)) % Uint64Modulus
    ensures quiet ==> CountedBytes(events, i, quiet) == 0
    decreases |events| - i
  {
    if i < |events| && events[i].Next? {
      var hdr := events[i].hdr;
      var st' := ApplyMember(st, hdr, events[i].effect, originName, dstName, mime, quiet);
      ProgressIsSumOfSizes(events, i + 1, st', originName, dstName, mime, quiet);
      if !quiet {
        var c := if Handled(hdr.typeflag) then hdr.size else 0;
        var rest := CountedBytes(events, i + 1, quiet);
        if Handled(hdr.typeflag) && hdr.size != 0 {
          ModAbsorb(st.progress + c, rest);
          assert st.progress + c + rest == st.progress + CountedBytes(events, i, quiet);
        } else {
          assert st'.progress == st.progress;
        }
      }
    }
  }

  /**
   * untar as a whole: it fails naming the archive exactly when Stat fails or
   * Next reports an error before the end, and its progress is the sum of the
   * sizes of the handled members read, as a uint64 (0 when quiet).
   */
  lemma UntarOutcome(archive: string, statOk: bool, events: seq<NextResult>, fs: set<string>,
                     mime: set<string>, quiet: bool)
    ensures var (err, st) := UntarSpec(archive, statOk, events, fs, mime, quiet);
      && (err == None <==>
            statOk && forall k :: 0 <= k < |events| && events[k].NextError? ==>
                        exists j :: 0 <= j < k && !events[j].Next?)
      && (statOk && err != None ==> err == Some(ExtractError(BaseName(archive))))
      && st.progress == if quiet || !statOk then 0 else CountedBytes(events, 0, quiet) % Uint64Modulus
  {
    if statOk {
      var originName := TrimSuffix(BaseName(archive), ".tar");
      var dstName := UnusedName(originName, fs, mime);
      ExtractFailsIffReadError(events, 0, Extraction(fs, 0, []), originName, dstName, mime, quiet);
      ProgressIsSumOfSizes(events, 0, Extraction(fs, 0, []), originName, dstName, mime, quiet);
    }
  }
}
