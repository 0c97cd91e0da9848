/**
 * Building a tar archive from a directory walk: tarAppender.add turns one
 * walked path into a header and decides whether a body follows, using the
 * hardLinks map (inode to first member name) to write every further path of
 * a multiply-linked regular file as a zero-size hard link.
 */
module TarBuild {
  import opened Wrappers
  import opened TarFormat
  import opened Devices
  import Naming

  datatype FileKind = RegularFile | Directory | Symlink | CharDevice | BlockDevice | NamedPipe | Socket

  /** What os.Lstat and the Stat_t behind it report about a path. */
  datatype FileInfo = FileInfo(
    kind: FileKind,
    perm: bv32,      // permission bits of st_mode
    size: nat,
    nlink: nat,
    inode: nat,
    dev: nat,        // the device holding the file; add does not read it
    rdev: bv64)      // the device number of a device file

  /** The step of add at which the filesystem or the tar writer reports an error, if any. */
  datatype Fault = NoFault | LstatFails | ReadlinkFails | NoStatT | WriteHeaderFails | BodyFails

  /** One path visited by the walk, with what the filesystem answers about it. */
  datatype Entry = Entry(
    path: string,
    info: FileInfo,
    linkTarget: string,           // what os.Readlink returns for a symlink
    capability: Option<string>,   // the security.capability xattr, when set
    fault: Fault)

  datatype AddError = LstatError | ReadlinkError | SocketUnsupported | StatConversionError | WriteHeaderError | BodyCopyError

  /** A member written to the archive: its header, and whether the file's contents follow it. */
  datatype Member = Member(hdr: Header, withBody: bool)

  datatype AddOutcome = Added(member: Member) | Failed(error: AddError)

  /** The file-type bits of st_mode for each kind of file. */
  function TypeBits(kind: FileKind): bv32 {
    match kind
    case NamedPipe => 0x1000
    case CharDevice => 0x2000
    case Directory => 0x4000
    case BlockDevice => 0x6000
    case RegularFile => 0x8000
    case Symlink => 0xA000
    case Socket => 0xC000
  }

  function StMode(info: FileInfo): bv32 {
    TypeBits(info.kind) | (info.perm & 0xfff)
  }

  /**
   * The guard in tarSetHeader is a bit test, not a comparison of the file
   * type: it holds for devices, and also for directories, symlinks and
   * sockets, whose type bits share a bit with S_IFBLK.
   */
  lemma DeviceGuardKinds(info: FileInfo)
    ensures DeviceGuard(StMode(info)) <==>
      info.kind == CharDevice || info.kind == BlockDevice
      || info.kind == Directory || info.kind == Symlink || info.kind == Socket
  {
  }

  /** tarSetHeader truncates st_nlink to 32 bits. */
  function Nlink32(nlink: nat): nat {
    nlink % 0x1_0000_0000
  }

  /** The paths add deduplicates: regular files with more than one link. */
  predicate Linked(e: Entry) {
    e.info.kind == RegularFile && Nlink32(e.info.nlink) > 1
  }

  /** The member name: the walked path, with a trailing separator for a directory. */
  function MemberName(e: Entry): string {
    if e.info.kind == Directory then Naming.FmtDir(e.path) else e.path
  }

  /** tar.FileInfoHeader: the header archive/tar derives from a FileInfo (None: sockets are refused). */
  function FileInfoHeader(info: FileInfo, link: string): (r: Option<Header>)
    ensures r.None? <==> info.kind == Socket
    ensures r.Some? ==> (r.value.typeflag == TypeReg <==> info.kind == RegularFile)
    ensures r.Some? ==> r.value.typeflag != TypeLink
    // One type per kind of file.
    ensures r.Some? && info.kind == Directory ==> r.value.typeflag == TypeDir
    ensures r.Some? && info.kind == Symlink ==> r.value.typeflag == TypeSymlink
    ensures r.Some? && info.kind == CharDevice ==> r.value.typeflag == TypeChar
    ensures r.Some? && info.kind == BlockDevice ==> r.value.typeflag == TypeBlock
    ensures r.Some? && info.kind == NamedPipe ==> r.value.typeflag == TypeFifo
    // Only a regular file has a size, only a symlink a link name; device numbers are left for tarSetHeader.
    ensures r.Some? ==> r.value.size == if info.kind == RegularFile then info.size else 0
    ensures r.Some? ==> r.value.linkname == if info.kind == Symlink then link else ""
    ensures r.Some? ==> r.value.devmajor == 0 && r.value.devminor == 0
    ensures r.Some? ==> r.value.mode == Perm(info) && r.value.xattrs == map[]
  {
    match info.kind
    case Socket => None
    case RegularFile => Some(InfoHeader(info, TypeReg).(size := info.size))
    case Symlink => Some(InfoHeader(info, TypeSymlink).(linkname := link))
    case Directory => Some(InfoHeader(info, TypeDir))
    case CharDevice => Some(InfoHeader(info, TypeChar))
    case BlockDevice => Some(InfoHeader(info, TypeBlock))
    case NamedPipe => Some(InfoHeader(info, TypeFifo))
  }

  /** The header fields FileInfoHeader fills in the same way for every kind of file. */
  function InfoHeader(info: FileInfo, flag: TypeFlag): Header {
    Header(name := "", typeflag := flag, mode := Perm(info), size := 0, linkname := "",
           devmajor := 0, devminor := 0, xattrs := map[])
  }

  /**
   * tarSetHeader: store the device numbers when the st_mode bit test holds,
   * and report the (32-bit) link count and the inode.
   */
  function TarSetHeader(hdr: Header, info: FileInfo): (r: (Header, nat, nat))
    ensures r.0.typeflag == hdr.typeflag && r.0.name == hdr.name && r.0.size == hdr.size
    ensures r.0.linkname == hdr.linkname && r.0.xattrs == hdr.xattrs && r.0.mode == hdr.mode
    ensures DeviceGuard(StMode(info)) ==>
      r.0.devmajor == DevMajor(info.rdev) && r.0.devminor == DevMinor(info.rdev)
    ensures !DeviceGuard(StMode(info)) ==> r.0.devmajor == hdr.devmajor && r.0.devminor == hdr.devminor
    ensures r.1 == Nlink32(info.nlink) && r.2 == info.inode
  {
    var hdr' :=
      if DeviceGuard(StMode(info))
      then hdr.(devmajor := DevMajor(info.rdev), devminor := DevMinor(info.rdev))
      else hdr;
    (hdr', Nlink32(info.nlink), info.inode)
  }

  /** Whether add gets as far as consulting the hardLinks map. */
  predicate ReachesLinkStep(e: Entry) {
    e.fault != LstatFails && !(e.info.kind == Symlink && e.fault == ReadlinkFails)
    && e.info.kind != Socket && e.fault != NoStatT
  }

  /** The permission bits of st_mode, as the header's mode. */
  function Perm(info: FileInfo): nat {
    (info.perm & 0xfff) as nat
  }

  /** The xattrs add attaches: the capability, when the path has one. */
  function Xattrs(capability: Option<string>): map<string, string> {
    if capability.Some? then map["security.capability" := capability.value] else map[]
  }

  /**
   * The header fields a member gets from the kind of its path: one type per
   * kind, no size unless it is a regular member, a link name only for
   * symlinks and hard links, and device numbers only under the st_mode test.
   */
  predicate KindFields(e: Entry, hdr: Header) {
    && (e.info.kind == Symlink ==> hdr.typeflag == TypeSymlink && hdr.linkname == e.linkTarget)
    && (e.info.kind == Directory ==> hdr.typeflag == TypeDir)
    && (e.info.kind == CharDevice ==> hdr.typeflag == TypeChar)
    && (e.info.kind == BlockDevice ==> hdr.typeflag == TypeBlock)
    && (e.info.kind == NamedPipe ==> hdr.typeflag == TypeFifo)
    && (hdr.typeflag != TypeReg ==> hdr.size == 0)
    && (e.info.kind != Symlink && hdr.typeflag != TypeLink ==> hdr.linkname == "")
    && (!DeviceGuard(StMode(e.info)) ==> hdr.devmajor == 0 && hdr.devminor == 0)
  }

  /** tarAppender.add on one walked path, given the hardLinks map before it: the map after it, and the outcome. */
  function AddEntry(links: map<nat, string>, e: Entry): (r: (map<nat, string>, AddOutcome))
    // The map only ever gains the first path of a multiply-linked inode; nothing is overwritten or removed.
    ensures r.0 == if Linked(e) && ReachesLinkStep(e) && e.info.inode !in links
                   then links[e.info.inode := e.path] else links
    ensures r.1.Added? ==> ReachesLinkStep(e) && e.fault != WriteHeaderFails
    ensures r.1.Added? ==> var m := r.1.member;
      && (m.withBody <==> m.hdr.typeflag == TypeReg)
      && m.hdr.name == MemberName(e)
      && m.hdr.xattrs == Xattrs(e.capability)
      && m.hdr.mode == Perm(e.info)
      && (Linked(e) && e.info.inode in links ==>
            m.hdr.typeflag == TypeLink && m.hdr.linkname == links[e.info.inode] && m.hdr.size == 0)
      && (Linked(e) && e.info.inode !in links ==> m.hdr.typeflag == TypeReg && m.hdr.size == e.info.size)
      && (!Linked(e) ==> m.hdr.typeflag != TypeLink && (m.withBody <==> e.info.kind == RegularFile))
      && (!Linked(e) && e.info.kind == RegularFile ==> m.hdr.size == e.info.size)
      && KindFields(e, m.hdr)
      && (DeviceGuard(StMode(e.info)) ==>
            m.hdr.devmajor == DevMajor(e.info.rdev) && m.hdr.devminor == DevMinor(e.info.rdev))
    ensures e.fault == LstatFails ==> r.1 == Failed(LstatError)
    ensures e.fault != LstatFails && e.info.kind == Symlink && e.fault == ReadlinkFails ==> r.1 == Failed(ReadlinkError)
    ensures e.fault == NoStatT && e.info.kind != Socket ==> r.1 == Failed(StatConversionError)
    ensures e.fault != LstatFails && e.info.kind == Socket ==> r.1 == Failed(SocketUnsupported)
    ensures ReachesLinkStep(e) && e.fault == WriteHeaderFails ==> r.1 == Failed(WriteHeaderError)
    ensures r.1 == Failed(BodyCopyError) <==>
      ReachesLinkStep(e) && e.fault == BodyFails && e.info.kind == RegularFile
      && !(Linked(e) && e.info.inode in links)
    // Every path that gets past all the error steps is archived; in particular a fault-free one that is not a socket.
    ensures ReachesLinkStep(e) && e.fault != WriteHeaderFails
      && !(e.fault == BodyFails && e.info.kind == RegularFile && !(Linked(e) && e.info.inode in links))
      ==> r.1.Added?
    ensures e.fault == NoFault && e.info.kind != Socket ==> r.1.Added?
  {
    if e.fault == LstatFails then (links, Failed(LstatError))
    else if e.info.kind == Symlink && e.fault == ReadlinkFails then (links, Failed(ReadlinkError))
    else
      var link := if e.info.kind == Symlink then e.linkTarget else "";
      match FileInfoHeader(e.info, link)
      case None => (links, Failed(SocketUnsupported))
      case Some(hdr0) =>
        var name := MemberName(e);
        if e.fault == NoStatT then (links, Failed(StatConversionError))
        else
          var (hdr1, nlink, inode) := TarSetHeader(hdr0.(name := name), e.info);
          var (links', hdr2) :=
            if e.info.kind == RegularFile && nlink > 1 then
              if inode in links then (links, hdr1.(typeflag := TypeLink, linkname := links[inode], size := 0))
              else (links[inode := name], hdr1)
            else (links, hdr1);
          var hdr3 := hdr2.(xattrs := Xattrs(e.capability));
          if e.fault == WriteHeaderFails then (links', Failed(WriteHeaderError))
          else if hdr3.typeflag == TypeReg && e.fault == BodyFails then (links', Failed(BodyCopyError))
          else (links', Added(Member(hdr3, hdr3.typeflag == TypeReg)))
  }

  /** The tarAppender of one tarDir call. */
  class TarAppender {
    var hardLinks: map<nat, string>

    constructor ()
      ensures hardLinks == map[]
    {
      hardLinks := map[];
    }

    /** add: build the header step by step, consult and update hardLinks, and decide on the body. */
    method Add(e: Entry) returns (out: AddOutcome)
      modifies this
      ensures (hardLinks, out) == AddEntry(old(hardLinks), e)
    {
      if e.fault == LstatFails {
        return Failed(LstatError);
      }
      var link := "";
      if e.info.kind == Symlink {
        if e.fault == ReadlinkFails {
          return Failed(ReadlinkError);
        }
        link := e.linkTarget;
      }
      var h := FileInfoHeader(e.info, link);
      if h.None? {
        return Failed(SocketUnsupported);
      }
      var hdr := h.value;
      var name := e.path;
      if e.info.kind == Directory {
        name := Naming.FmtDir(name);
      }
      hdr := hdr.(name := name);
      if e.fault == NoStatT {
        return Failed(StatConversionError);
      }
      var stat := TarSetHeader(hdr, e.info);
      var nlink, inode;
      hdr, nlink, inode := stat.0, stat.1, stat.2;
      if e.info.kind == RegularFile && nlink > 1 {
        if inode in hardLinks {
          hdr := hdr.(typeflag := TypeLink, linkname := hardLinks[inode], size := 0);
        } else {
          hardLinks := hardLinks[inode := name];
        }
      }
      if e.capability.Some? {
        hdr := hdr.(xattrs := map["security.capability" := e.capability.value]);
      }
      if e.fault == WriteHeaderFails {
        return Failed(WriteHeaderError);
      }
      if hdr.typeflag == TypeReg {
        if e.fault == BodyFails {
          return Failed(BodyCopyError);
        }
      }
      return Added(Member(hdr, hdr.typeflag == TypeReg));
    }

    /** The walk in tarDir: add every visited path in order, stopping at the first error. */
    method AddAll(entries: seq<Entry>) returns (members: seq<Member>, err: Option<AddError>)
      modifies this
      ensures Build(hardLinks, members, err) == BuildArchive(old(hardLinks), entries)
    {
      members, err := [], None;
      var i := 0;
      while i < |entries|
        invariant 0 <= i <= |entries|
        invariant WalkedSoFar(old(hardLinks), entries, i, hardLinks, members)
      {
        ghost var before := hardLinks;
        var out := Add(entries[i]);
        WalkStep(old(hardLinks), entries, i, before, members);
        if out.Failed? {
          return members, Some(out.error);
        }
        members := members + [out.member];
        i := i + 1;
      }
    }
  }

  /** The loop invariant of the walk: the first `i` paths were added, leaving `links` and `members`. */
  ghost predicate WalkedSoFar(start: map<nat, string>, es: seq<Entry>, i: nat, links: map<nat, string>, members: seq<Member>)
    requires i <= |es|
  {
    var rest := BuildArchive(links, es[i..]);
    BuildArchive(start, es) == Build(rest.links, members + rest.members, rest.error)
  }

  /** Adding the i-th path either ends the walk with its error or extends the invariant to i + 1. */
  lemma WalkStep(start: map<nat, string>, es: seq<Entry>, i: nat, links: map<nat, string>, members: seq<Member>)
    requires i < |es| && WalkedSoFar(start, es, i, links, members)
    ensures var (links', out) := AddEntry(links, es[i]);
      && (out.Failed? ==> BuildArchive(start, es) == Build(links', members, Some(out.error)))
      && (out.Added? ==> WalkedSoFar(start, es, i + 1, links', members + [out.member]))
  {
    var (links', out) := AddEntry(links, es[i]);
    assert es[i..][0] == es[i];
    if out.Added? {
      assert es[i..][1..] == es[i + 1..];
      var rest := BuildArchive(links', es[i + 1..]);
      assert members + ([out.member] + rest.members) == (members + [out.member]) + rest.members;
    }
  }

  datatype Build = Build(links: map<nat, string>, members: seq<Member>, error: Option<AddError>)

  /** The members a walk over `es` writes, starting from map `links`, and the error that ends it early, if any. */
  function BuildArchive(links: map<nat, string>, es: seq<Entry>): (r: Build)
    ensures |r.members| <= |es|
    ensures r.error.None? <==> |r.members| == |es|
    decreases |es|
  {
    if es == [] then Build(links, [], None)
    else
      var (links', out) := AddEntry(links, es[0]);
      match out
      case Failed(err) => Build(links', [], Some(err))
      case Added(m) =>
        var rest := BuildArchive(links', es[1..]);
        Build(rest.links, [m] + rest.members, rest.error)
  }

  /** A walk in which no path faults and none is a socket ends without error and writes a member for every path. */
  lemma {:induction false} FaultFreeWalkCompletes(links: map<nat, string>, es: seq<Entry>)
    requires forall i :: 0 <= i < |es| ==> es[i].fault == NoFault && es[i].info.kind != Socket
    ensures BuildArchive(links, es).error.None?
    ensures |BuildArchive(links, es).members| == |es|
    decreases |es|
  {
    if es != [] {
      FaultFreeWalkCompletes(AddEntry(links, es[0]).0, es[1..]);
    }
  }

  /** The hardLinks map after adding `e` successfully. */
  function Record(links: map<nat, string>, e: Entry): map<nat, string> {
    if Linked(e) && e.info.inode !in links then links[e.info.inode := e.path] else links
  }

  /** The hardLinks map after the first `n` paths of a walk were added successfully. */
  function Recorded(links: map<nat, string>, es: seq<Entry>, n: nat): map<nat, string>
    requires n <= |es|
  {
    if n == 0 then links else Record(Recorded(links, es, n - 1), es[n - 1])
  }

  /** No linked path before position `i` shares the inode of the one at `i`. */
  ghost predicate FirstOfInode(es: seq<Entry>, i: nat)
    requires i < |es|
  {
    forall j :: 0 <= j < i && Linked(es[j]) ==> es[j].info.inode != es[i].info.inode
  }

  lemma {:induction false} RecordedShift(links: map<nat, string>, es: seq<Entry>, n: nat)
    requires 1 <= n <= |es|
    ensures Recorded(Record(links, es[0]), es[1..], n - 1) == Recorded(links, es, n)
  {
    if n > 1 {
      RecordedShift(links, es, n - 1);
      assert es[1..][n - 2] == es[n - 1];
    }
  }

  /**
   * The i-th member of a walk is decided by the map as the earlier members
   * left it: a linked path whose inode is recorded becomes a body-less
   * hard link to the recorded name, a linked path whose inode is new stays
   * a regular member with its body.
   */
  lemma {:induction false} WalkDecision(links: map<nat, string>, es: seq<Entry>, i: nat)
    requires i < |BuildArchive(links, es).members|
    ensures var seen := Recorded(links, es, i);
      var m := BuildArchive(links, es).members[i];
      var e := es[i];
      && (m.withBody <==> m.hdr.typeflag == TypeReg)
      && m.hdr.name == MemberName(e)
      && (Linked(e) && e.info.inode in seen ==>
            m.hdr.typeflag == TypeLink && m.hdr.linkname == seen[e.info.inode] && m.hdr.size == 0)
      && (Linked(e) && e.info.inode !in seen ==> m.hdr.typeflag == TypeReg)
      && (!Linked(e) ==> m.hdr.typeflag != TypeLink)
    decreases i
  {
    var (links', out) := AddEntry(links, es[0]);
    assert out.Added?;
    assert links' == Record(links, es[0]);
    if i > 0 {
      WalkDecision(links', es[1..], i - 1);
      RecordedShift(links, es, i);
      assert es[1..][i - 1] == es[i];
    }
  }

  /** With an empty map, an inode is recorded after `n` paths exactly when one of them is a linked path with that inode. */
  lemma {:induction false} RecordedKeys(es: seq<Entry>, n: nat, k: nat)
    requires n <= |es|
    ensures k in Recorded(map[], es, n) <==>
      exists j :: 0 <= j < n && Linked(es[j]) && es[j].info.inode == k
  {
    if n > 0 {
      RecordedKeys(es, n - 1, k);
      var e := es[n - 1];
      if Linked(e) && e.info.inode == k {
        assert k in Recorded(map[], es, n);
      } else {
        assert k in Recorded(map[], es, n) <==> k in Recorded(map[], es, n - 1);
        if exists j :: 0 <= j < n && Linked(es[j]) && es[j].info.inode == k {
          var j :| 0 <= j < n && Linked(es[j]) && es[j].info.inode == k;
          assert j < n - 1;
        }
      }
    }
  }

  /** The name recorded for an inode is the path of the first linked path with that inode. */
  lemma {:induction false} RecordedIsFirst(es: seq<Entry>, n: nat, k: nat)
    requires n <= |es| && k in Recorded(map[], es, n)
    ensures exists j :: (0 <= j < n && Linked(es[j]) && es[j].info.inode == k && FirstOfInode(es, j)
                         && Recorded(map[], es, n)[k] == es[j].path)
  {
    var prev := Recorded(map[], es, n - 1);
    var e := es[n - 1];
    if k in prev {
      RecordedIsFirst(es, n - 1, k);
      var j :| 0 <= j < n - 1 && Linked(es[j]) && es[j].info.inode == k && FirstOfInode(es, j)
        && prev[k] == es[j].path;
      assert Recorded(map[], es, n)[k] == prev[k];
    } else {
      RecordedKeys(es, n - 1, k);
      assert Linked(e) && e.info.inode == k;
      assert FirstOfInode(es, n - 1);
      assert Recorded(map[], es, n)[k] == es[n - 1].path;
    }
  }

  /**
   * Hard-link deduplication over a whole walk: among the multiply-linked
   * regular paths, the first one with a given inode is the only regular
   * member (with its body) for that inode, and every later one is a
   * zero-size, body-less hard link naming that first member.
   */
  lemma {:induction false} HardlinkDedup(es: seq<Entry>)
    ensures var ms := BuildArchive(map[], es).members;
      && (forall i :: 0 <= i < |ms| ==> (ms[i].withBody <==> ms[i].hdr.typeflag == TypeReg))
      && (forall i :: 0 <= i < |ms| && Linked(es[i]) ==>
            (ms[i].hdr.typeflag == TypeReg <==> FirstOfInode(es, i)))
      && (forall i :: 0 <= i < |ms| && Linked(es[i]) && !FirstOfInode(es, i) ==>
            && ms[i].hdr.typeflag == TypeLink && ms[i].hdr.size == 0
            && exists j :: 0 <= j < i && Linked(es[j]) && es[j].info.inode == es[i].info.inode
                 && FirstOfInode(es, j) && ms[j].hdr.typeflag == TypeReg
                 && ms[i].hdr.linkname == ms[j].hdr.name)
  {
    var ms := BuildArchive(map[], es).members;
    forall i | 0 <= i < |ms|
      ensures ms[i].withBody <==> ms[i].hdr.typeflag == TypeReg
      ensures Linked(es[i]) ==> (ms[i].hdr.typeflag == TypeReg <==> FirstOfInode(es, i))
      ensures Linked(es[i]) && !FirstOfInode(es, i) ==>
            && ms[i].hdr.typeflag == TypeLink && ms[i].hdr.size == 0
            && exists j :: 0 <= j < i && Linked(es[j]) && es[j].info.inode == es[i].info.inode
                 && FirstOfInode(es, j) && ms[j].hdr.typeflag == TypeReg
                 && ms[i].hdr.linkname == ms[j].hdr.name
    {
      WalkDecision(map[], es, i);
      var k := es[i].info.inode;
      RecordedKeys(es, i, k);
      if Linked(es[i]) && !FirstOfInode(es, i) {
        RecordedIsFirst(es, i, k);
        var j :| 0 <= j < i && Linked(es[j]) && es[j].info.inode == k && FirstOfInode(es, j)
          && Recorded(map[], es, i)[k] == es[j].path;
        WalkDecision(map[], es, j);
        RecordedKeys(es, j, k);
      }
    }
  }

  /** Exactly one regular member per inode: of two linked paths with one inode, the later is a hard link. */
  lemma {:induction false} OneRegularMemberPerInode(es: seq<Entry>, i: nat, j: nat)
    requires j < |BuildArchive(map[], es).members| && i < j
    requires Linked(es[i]) && Linked(es[j]) && es[i].info.inode == es[j].info.inode
    ensures BuildArchive(map[], es).members[j].hdr.typeflag == TypeLink
  {
    HardlinkDedup(es);
    assert !FirstOfInode(es, j);
  }

  /**
   * Three fault-free paths of one regular file with link count 3, walked in
   * order: the first is written with its body, the other two as zero-size
   * hard links naming it.
   */
  lemma {:induction false} ThreeLinksOneBody(a: Entry, b: Entry, c: Entry)
    requires a.fault == NoFault && b.fault == NoFault && c.fault == NoFault
    requires a.info.kind == RegularFile && b.info.kind == RegularFile && c.info.kind == RegularFile
    requires a.info.nlink == 3 && b.info.nlink == 3 && c.info.nlink == 3
    requires a.info.inode == b.info.inode == c.info.inode
    ensures var r := BuildArchive(map[], [a, b, c]);
      && r.error.None? && |r.members| == 3
      && r.members[0].hdr.typeflag == TypeReg && r.members[0].withBody && r.members[0].hdr.size == a.info.size
      && r.members[1].hdr.typeflag == TypeLink && !r.members[1].withBody
      && r.members[1].hdr.size == 0 && r.members[1].hdr.linkname == a.path
      && r.members[2].hdr.typeflag == TypeLink && !r.members[2].withBody
      && r.members[2].hdr.size == 0 && r.members[2].hdr.linkname == a.path
  {
    var es := [a, b, c];
    FaultFreeWalkCompletes(map[], es);
    HardlinkDedup(es);
    var ms := BuildArchive(map[], es).members;
    assert FirstOfInode(es, 0);
    assert !FirstOfInode(es, 1) by { assert Linked(es[0]); }
    assert !FirstOfInode(es, 2) by { assert Linked(es[0]); }
    WalkDecision(map[], es, 1);
    WalkDecision(map[], es, 2);
    assert Recorded(map[], es, 1) == map[a.info.inode := a.path];
    assert Recorded(map[], es, 2) == map[a.info.inode := a.path];
    assert ms[0] == AddEntry(map[], a).1.member;
  }

  /**
   * The map is keyed by the inode number alone: two linked files on
   * different devices that happen to share an inode number are archived as
   * one file and a hard link to it.
   */
  lemma {:induction false} InodeKeyIgnoresDevice(a: Entry, b: Entry)
    requires Linked(a) && Linked(b) && a.fault == NoFault && b.fault == NoFault
    requires a.info.inode == b.info.inode && a.info.dev != b.info.dev
    ensures var (links, outA) := AddEntry(map[], a);
      var (_, outB) := AddEntry(links, b);
      && outA.Added? && outA.member.hdr.typeflag == TypeReg && outA.member.withBody
      && outB.Added? && outB.member.hdr.typeflag == TypeLink
      && outB.member.hdr.linkname == a.path && !outB.member.withBody
  {
    var (links, outA) := AddEntry(map[], a);
    assert links == map[a.info.inode := a.path];
  }
}
