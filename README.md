# sz, modelled in Dafny

`sz` is a command-line transcoder. It compresses files with the Snappy
framing format (`x` → `x.sz`). It first packs a directory into a tar archive
(`d` → `d.tar` → `d.tar.sz`). It reverses both steps (`x.sz` → `x`, and
`d.tar` is extracted into `d`). Each output file it creates goes through
`create`, which first moves an existing name to an unused `base(i)ext`
variant, and the extraction root is renamed the same way. Inside an
archive, directories, hard links and symlinks are made at the member's
path as it is. When every probe is taken, `create` keeps the existing name
and opens it for appending.

This project models the part of `sz.go` that makes decisions rather than
moving bytes, and proves what those decisions guarantee:

- **Format sniffing** (`sniff.dfy`, module `Sniff`).
  - `isSz` checks the Snappy stream-identifier chunk (section 4.1 of the
    Snappy framing format: chunk type 0xff, length 6, `sNaPpY`).
  - `isTar` checks the ustar `magic` field at byte 257 (the ustar
    interchange format of POSIX.1).
  - A file is its sequence of bytes.
- **Path and string helpers** (`paths.dfy`, module `Paths`). These are the
  Go standard-library functions the naming code depends on:
  - `filepath.Ext`, `filepath.Clean` (Unix) and `strings.TrimSuffix`;
  - `strings.Replace(s, old, new, 1)` and `strconv.Itoa`;
  - the base name that `FileInfo.Name()` reports.
- **`concat`** (`concat.dfy`, module `Concat`). A process-wide
  `bytes.Buffer` is written, read and reset. Every call leaves the buffer
  empty, so every call returns the plain concatenation of its arguments.
  The other modules therefore write `+` wherever `sz.go` calls `concat`.
- **Collision-free naming** (`naming.dfy`, module `Naming`).
  - `splitExt`, `genUnusedFilename` (and `create`'s use of it), and
    `fmtDir`.
  - The destination names `snap`, `snapSafe`, `unsnap`, `tarDir` and
    `untar` derive from their source.
  - The filesystem is the set of paths that exist. "`mime.TypeByExtension(e)`
    is not empty" is membership of `e` in a set `mime` that the caller
    supplies.
- **Device numbers** (`devices.dfy`, module `Devices`). `devmajor`,
  `devminor` (the old Linux `dev_t` layout), and the st_mode bit test that
  guards them.
- **Tar headers** (`tarformat.dfy`, module `TarFormat`). The fields of
  `tar.Header` that the code reads or writes.
- **Archiving a walk** (`tarbuild.dfy`, module `TarBuild`).
  - `tarAppender.add` is a class `TarAppender` whose `hardLinks` map
    (inode → first member name) is updated in place. It turns one walked
    path into a header and decides whether a body follows.
  - `tarSetHeader` is modelled here too.
  - The walk in `tarDir` adds path after path until the first error.
  - What the filesystem answers about a path (`Lstat`, `Readlink`, the
    `Stat_t`, the `security.capability` xattr) is part of the input
    `Entry`, as is the step at which an error occurs.
- **Extraction** (`untar.dfy`, module `Untar`).
  - The `untar` loop runs over the results of successive `tar.Reader.Next`
    calls: a header together with what applying it does, a read error, or
    the end of the archive.
  - The filesystem is the set of existing paths. The filesystem actions
    taken are recorded as a sequence.
- **Progress counter** (`progress.dfy`, module `Progress`). `passthru.Read`
  and `passthru.Write` wrap an abstract inner reader or writer, whose
  result is a parameter. The `total` field is counted as a `uint64`.

Code that updates state step by step is written as methods with loops or as
class methods with `modifies`. `isSz` and `isTar` are loops whose results
are stated, in both directions, as a comparison of the bytes read with the
signature. `concat`, `splitExt`, `genUnusedFilename`, `add`, the walk, the
`untar` loop and `passthru` are each proved equal to a specification
function. The
properties are proved about those functions as lemmas.

Behaviour of the code worth noting:

- `splitExt` strips an extension when its MIME type is *known* or it is in
  the allow-list (`.tar`, `.sz`, `.tar.sz`). It stops at the first one that
  is unknown and not allow-listed. `.tar.sz` can never match, because
  `filepath.Ext` only returns one dot-suffix (`Naming.ExtIsNeverTarSz`).
- When `genUnusedFilename` runs out of probes, it leaves the name unchanged
  without reporting anything.
- In `untar`, a failing filesystem action only leaves the `switch`. The
  next `tr.Next()` overwrites the error, and the loop goes on. An error
  therefore surfaces only when `Next` itself fails.
- A hard-link member's `Linkname` is used as archived: it is not rewritten
  when the extraction root was renamed.
- The root is renamed by replacing its first occurrence *anywhere* in a
  member name, not only at the start.

## Model

| member | source | states |
|---|---|---|
| Sniff.ReadAt | sz.go:264-267 | `ReadAt` returns the bytes at the offset. It returns fewer than asked exactly when the file ends first, and a short source never causes an error. |
| Sniff.IsSz | sz.go:261-276 | `isSz` is true iff the file has at least 10 bytes and its first 10 bytes equal the Snappy stream identifier, position by position. |
| Sniff.IsTar | sz.go:279-293 | `isTar` is true iff bytes 257..261 exist and spell `ustar`. |
| Concat.Buffer.Concat | sz.go:161-168 | `concat` returns what the buffer held followed by the arguments in order, and leaves the buffer empty. |
| Concat.FlattenAppend | sz.go:161-168 | Concatenating two runs of arguments equals concatenating each run and joining the results, which is why `concat` is plain `+`. |
| Paths.TrimSuffix | sz.go:440 | `strings.TrimSuffix` removes the suffix exactly when it is present; otherwise the string is unchanged. |
| Paths.Ext | sz.go:427 | `filepath.Ext` always returns a suffix of the path. |
| Paths.ExtShape | sz.go:427 | A non-empty `Ext` starts with `.` and contains no further `.` or `/`. An empty `Ext` means every `.` in the path is followed by a `/`. |
| Paths.Clean | sz.go:424 | `filepath.Clean` never returns an empty name, keeps a name rooted exactly when it was, and leaves no trailing `/` except on `/` itself. |
| Paths.BaseName | sz.go:587 | The name `FileInfo.Name()` reports (here and for the archive at line 636) is `/` or contains no `/`. |
| Paths.ReplaceFirst | sz.go:664 | `strings.Replace(s, old, new, 1)` replaces at most one occurrence: the length is unchanged, or changes by the length of `new` minus that of `old`. |
| Paths.AfterLastSlash | sz.go:587 | The name `FileInfo.Name()` reports has no `/` in it. |
| Paths.ReplaceFirstAt | sz.go:663-665 | `strings.Replace(s, old, new, 1)` replaces the first occurrence of `old`, at whatever position it starts. |
| Paths.ReplaceFirstAbsent | sz.go:663-665 | When `old` does not occur, `strings.Replace` returns the name unchanged. |
| Paths.Itoa | sz.go:414 | `strconv.Itoa` of a natural number is a non-empty string of decimal digits in canonical spelling: it starts with `0` only for zero, so it has no leading zero. |
| Paths.ItoaRoundTrip | sz.go:414 | The digits `Itoa` produces read back as the number. |
| Naming.ExtIsNeverTarSz | sz.go:432-434 | The allow-listed `.tar.sz` never equals `filepath.Ext` of anything. |
| Naming.Peel | sz.go:423-441 | Where `splitExt` stops, the base's extension is empty, or it is neither known nor allow-listed. |
| Naming.PeelIsPrefix | sz.go:439-440 | `splitExt` only removes characters from the end of the cleaned name. |
| Naming.PeelStep | sz.go:439-440 | One pass of the loop moves a non-empty suffix (so the loop terminates) and does not change where it stops. |
| Naming.PeelStop | sz.go:428-437 | Where the loop returns (empty extension, or one neither known nor allow-listed), the base is the final one. |
| Naming.StripStep | sz.go:439-440 | One pass of the loop keeps `base + ext` equal to the cleaned name and shortens the base. |
| Naming.PeelStripsChain | sz.go:426-440 | The extension `splitExt` returns is a chain of pieces, each the `Ext` of what remained, and each known or allow-listed. |
| Naming.PeelUnique | sz.go:423-441 | Any split into a stopping base and such a chain is the one `splitExt` returns. |
| Naming.SplitExt | sz.go:423-441 | `base + ext == Clean(filename)`, the base is where peeling stops, and that base stops (its extension is empty, or unknown and not allow-listed). |
| Naming.CandidatesDistinct | sz.go:413-414 | Distinct probe numbers give distinct names `base(i)ext`. |
| Naming.FirstUnused | sz.go:412-418 | The probe found is unused, lies below 20091110230000, and every earlier probe is in use. If no probe is found, every probe is in use. |
| Naming.UnusedName | sz.go:406-419 | A name not in use is kept. A name that comes out in use is the original name. |
| Naming.UnusedNameIsFirstFree | sz.go:406-419 | A name in use becomes `base(i)ext` for the least unused `i >= 1`. It stays unchanged exactly when every probe below the bound is taken. |
| Naming.UnusedNameIdempotent | sz.go:395-396 | Probing again against the same filesystem (as `create` does after its callers) changes nothing. |
| Naming.GenUnusedFilename | sz.go:406-419 | The probing loop settles on exactly `UnusedName`. |
| Naming.SnapName | sz.go:467 | The compressed file's name is the source's name plus `.sz` (the same at sz.go:528). |
| Naming.UnsnapName | sz.go:589-593 | Strips `.sz`, or appends `-uncompressed` when there is none. The result always differs from the source name. |
| Naming.UnsnapNameHasNoDirectory | sz.go:587-593 | `unsnap` names its output after the base name, so the output has no directory part. |
| Naming.TarName | sz.go:756-757 | A directory's archive is named after it plus `.tar`. |
| Naming.ExtractRoot | sz.go:636-639 | The extraction root is a prefix of the archive name, four characters shorter iff the name ends in `.tar`. A name ending in `.tar` is the root plus `.tar`, and any other name is kept unchanged. |
| Naming.DirectoryPipelineNames | sz.go:757 | For a plain directory name `d`: `d` → `d.tar` → `d.tar.sz` → `d.tar` → root `d`. |
| Naming.FmtDir | sz.go:722-727 | `fmtDir` returns a name ending in `/` unchanged, and appends `/` to any other name. |
| Naming.FmtDirIdempotent | sz.go:722-727 | Applying `fmtDir` twice gives the same name as applying it once, so a directory name ends in exactly one added `/`. |
| Devices.DevMajor | sz.go:938-940 | `devmajor(d) < 4096`. |
| Devices.DevMinor | sz.go:944-946 | `devminor(d) < 2^20`, and its low byte is `d`'s low byte. |
| Devices.DevMajorReadsBits8To19 | sz.go:938-940 | `devmajor` depends only on bits 8–19. |
| Devices.DevMinorReadsBits0To7And20To31 | sz.go:944-946 | `devminor` depends only on bits 0–7 and 20–31. |
| Devices.DevNumbersRoundTrip | sz.go:938-946 | `devmajor` and `devminor` recover the major and minor numbers of the old `dev_t` encoding. |
| Devices.DevNumbersCover32Bits | sz.go:938-946 | A 32-bit device number is exactly re-encoded from its major and minor numbers. |
| Devices.DeviceGuard | sz.go:928 | The st_mode test passes for block and character devices and fails for every mode with neither `S_IFBLK` nor `S_IFCHR` bit set. |
| TarBuild.DeviceGuardKinds | sz.go:928 | The st_mode bit test holds for character and block devices, and also for directories, symlinks and sockets. |
| TarBuild.FileInfoHeader | sz.go:833-836 | Sockets are refused. Every other kind of file gets its own type: `TypeReg` exactly for a regular file, `TypeDir`, `TypeSymlink`, `TypeChar`, `TypeBlock`, `TypeFifo`, and never `TypeLink`. Only a regular file has a non-zero size, and only a symlink has a link name. The mode is the permission bits, and the device numbers and xattrs start empty. |
| TarBuild.TarSetHeader | sz.go:917-934 | Device numbers are stored exactly when the bit test holds. The link count is truncated to 32 bits. The inode is reported. Nothing else in the header changes. |
| TarBuild.AddEntry | sz.go:818-911 | `hardLinks` only gains the first name of a multiply-linked inode and is never overwritten. A recorded inode gives a zero-size `TypeLink` to the recorded name, a new one stays `TypeReg`. A body follows iff the type is `TypeReg`. Directory names get a trailing `/`. The mode is the permission bits of `st_mode`, and a regular file that is not multiply linked keeps its size. A symlink becomes `TypeSymlink` with the `Readlink` target as link name, a directory `TypeDir`, a character device `TypeChar`, a block device `TypeBlock` and a FIFO `TypeFifo`. Every member that is not `TypeReg` has size 0. Only symlinks and hard links have a link name. The device numbers are zero unless the `st_mode` bit test holds. The capability becomes the xattr. Each error step is reported with its own error: `Lstat`, `Readlink`, a socket, a missing `Stat_t`, the header write, the body copy. A path that gets past every error step is archived, in particular any fault-free path that is not a socket. |
| TarBuild.TarAppender.Add | sz.go:818-911 | `add`'s in-place steps leave exactly the map and outcome of `AddEntry`. |
| TarBuild.TarAppender.AddAll | sz.go:790-811 | The walk adds paths in order, stops at the first error, and ends as `BuildArchive` says. |
| TarBuild.BuildArchive | sz.go:790-811 | A walk writes at most one member per path, and it writes all of them iff it ends without error. |
| TarBuild.FaultFreeWalkCompletes | sz.go:790-811 | A walk in which no path faults and none is a socket ends without error and writes a member for every path. |
| TarBuild.ThreeLinksOneBody | sz.go:856-873 | Three fault-free paths of one file with link count 3 give one `TypeReg` member with its body, then two zero-size `TypeLink` members naming the first path. |
| TarBuild.WalkStep | sz.go:790-811 | Adding one more path either ends the walk with that path's error or extends the members by the new one. |
| TarBuild.RecordedShift | sz.go:856-873 | Recording the first path, then the rest, is recording the whole prefix. |
| TarBuild.WalkDecision | sz.go:856-873 | Each member of a walk is decided by the map the earlier members left: a recorded inode gives a zero-size, body-less `TypeLink` to the recorded name, and a new one stays `TypeReg`. |
| TarBuild.RecordedKeys | sz.go:856-873 | An inode is in the map iff a multiply-linked regular path with that inode has been added. |
| TarBuild.RecordedIsFirst | sz.go:870-872 | The name recorded for an inode is the path of the first such file. |
| TarBuild.HardlinkDedup | sz.go:856-909 | Over a whole walk: per inode, exactly the first multiply-linked path is a `TypeReg` member with a body. Every later one is a zero-size, body-less `TypeLink` naming it. |
| TarBuild.OneRegularMemberPerInode | sz.go:856-873 | Of two multiply-linked paths with one inode, the later is a hard link. |
| TarBuild.InodeKeyIgnoresDevice | sz.go:856-873 | The key is the inode alone: files on different devices with the same inode number are archived as one file and a hard link to it. |
| Untar.MemberPath | sz.go:662-665 | The member name is kept when the root was not renamed; otherwise at most one occurrence of the old root is replaced. |
| Untar.MemberPathRenamesRoot | sz.go:663-665 | A member name starting with the renamed root gets the new root in its place. |
| Untar.MemberPathReplacesInside | sz.go:663-665 | The replacement also hits a root that occurs inside a name: `data/x` with root `a` renamed `a(1)` becomes `da(1)ta/x`. |
| Untar.Materialise | sz.go:667-697 | The `switch` creates what the member's type calls for (a regular file through `create`, under an unused name). Its error is set exactly when the action failed. |
| Untar.ApplyMember | sz.go:667-713 | Unknown types leave everything unchanged. A regular file is created under `UnusedName`. Directories, hard links and symlinks are made at the member path itself, which is added to the filesystem. Hard links and symlinks use the archived `Linkname`. Progress grows by the size mod 2^64 only for handled, non-empty members when not quiet. A failed action still counts. |
| Untar.ExtractMember | sz.go:661-708 | One pass of the loop body: the member name is renamed under the new root, an unhandled type is skipped, the switch runs, and the size is counted, leaving exactly the state `ApplyMember` gives. The err it leaves is set exactly when a handled member's action fails. |
| Untar.ExtractStep | sz.go:650-714 | The loop applies one member, then continues with the next call to `Next`. |
| Untar.ExtractAll | sz.go:650-714 | The read loop ends exactly as the specification `ExtractFrom` says. |
| Untar.Untar | sz.go:630-720 | `untar` ends exactly as `UntarSpec` says: the root is the archive's base name without `.tar`, renamed if in use, and then the loop runs. |
| Untar.ExtractFailsIffReadError | sz.go:652-659 | The loop ends with an error iff `Next` reports an error before it reports the end. |
| Untar.MemberErrorsAreOverwritten | sz.go:667-701 | Whether `untar` fails, and its final progress, do not depend on whether any member's filesystem action succeeded. |
| Untar.ProgressIsSumOfSizes | sz.go:703-707 | The final progress is the sum of the sizes of the handled members read, mod 2^64. Quiet mode counts nothing. |
| Untar.UntarOutcome | sz.go:630-720 | `untar` returns nil iff `Stat` succeeds and no `Next` error comes before the end. A failure names the archive. Progress is as above. |
| Progress.Counted | sz.go:313-335 | The counter stays a `uint64`. It is unchanged unless `n > 0` and not quiet, and then it grows by exactly `n` mod 2^64. |
| Progress.CountedAdds | sz.go:313-335 | Two counted transfers add up. |
| Progress.Passthru.Read | sz.go:313-323 | `Read` returns the inner `(n, err)` unchanged, and `total` becomes `Counted(total, n)`. |
| Progress.Passthru.Write | sz.go:327-335 | `Write` returns the inner `(n, err)` unchanged, and `total` becomes `Counted(total, n)`. |

## Left out

- Argument handling, help, `main`, `print`/`printf` and the `filter` helper
  are not modelled. They are command-line plumbing. (`filter` tests `slc`
  against itself instead of `args`, so it always returns an empty slice.)
- `fmtSize`, `passthru.Print` and the percentages printed by `untar` and
  `tarDir` are not modelled: they are floating-point display only. The
  `length` field of `Passthru` is kept but unused.
- Snappy compression and decompression, and the tar header encoding, are
  foreign libraries. Stream contents are opaque.
  - `tar.FileInfoHeader` is modelled only in the fields `add` relies on:
    type, size, link name, permission bits and device numbers. Owner,
    group and times are not modelled.
- The filesystem is not modelled as such. `os.Stat`, `Open`, `OpenFile`,
  `MkdirAll`, `Link`, `Symlink`, `Remove` and `io.Copy` become the set of
  existing paths plus an abstract success or failure per action.
  - What a directory holds after `MkdirAll` creates parents, and file
    contents, are not modelled.
- `filepath.Walk` is not modelled. Its order and its own errors are given
  as the sequence of entries, with a per-entry fault.
- `lgetxattr` is not modelled. It uses a raw system call; its result is an
  input (`capability`), and its error is ignored as in the code.
- Sniff.IsSz: a failing `ReadAt` is treated as a short read. The error is
  discarded in the code too, so only the byte count matters.
- `snap`, `snapSafe`, `unsnap`, `tarDir` and `analyze` are modelled only in
  the names they derive. The tier fallbacks, deferred closes and temporary
  file clean-up around them are I/O glue. This includes the deferred
  `Close` in `tarDir` that can overwrite its error.
- TarBuild.TarAppender.AddAll: when a body copy fails, the header has already been
  written. The model records only the error that stops the walk, not the
  partial member.
- Naming.GenUnusedFilename: `exists` is membership in the set of existing
  paths, taken as fixed for the whole call. Races with other processes are
  not modelled.
- Untar.Untar: `Stat` is an input flag, and the archive name it reports is
  the base name of the path the archive was opened with. The `total` size
  only feeds the display.
- Names are Dafny strings of Unicode characters, while Go file names are
  byte strings, so a name that is not valid UTF-8 cannot be represented.
- Naming.FmtDir and Naming.GenUnusedFilename write through `*name` and `*filename` in
  the code. In the model they return the new value instead.
