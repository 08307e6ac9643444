# goup in Dafny

goup upgrades a local Go installation. It runs `go version` on the given executable, or on the one in the default installation directory, to learn the local version, OS and architecture. It runs `go env` to find GOROOT. It reads the list of release tags from the Go source site and sorts it newest first. From that list it picks the newest version the flags allow: pre-releases only with `--beta`/`--rc` or when the local version is one, and other minor lines only with `--upgrade`. After a confirmation prompt (skipped with `--silent`) it:

1. downloads the package;
2. copies GOROOT into a temporary backup directory;
3. removes GOROOT and extracts the package into it;
4. checks the new `go version`;
5. restores the backup when extraction or the check fails.

This project models that core:

- `text.dfy` (`Text`): the pieces of Go's standard library the core relies on:
  - `strings.Index`, `Split`, `Contains`, `HasPrefix`, `TrimSpace` and `Trim`;
  - `strconv.Atoi` and the `%d` verb;
  - the line splitting of `bufio.Scanner`.
- `versions.dfy` (`Versions`): `VersionInfo` with its parser `ExtractVersionInfo` and its printer `String`, the download URL template filled by `strings.Replacer`, and the comparator given to `sort.Slice`.
- `catalog.dfy` (`Catalog`): `LatestVersionInfo` on the anchor texts of the tag page. It has the "go"-prefix filter loop and an in-place sort of an array by the comparator. It proves that the sorted list is unique, so the first entry is the newest.
- `probe.dfy` (`Probe`): the text parsing of `LocalGoInfo` and `GoPath`. An index out of range, which panics in Go, is its own result.
- `filesystem.dfy` (`FileSystem`): the filesystem as a value. It holds:
  - entries keyed by path components;
  - the paths the process may not create, open or remove;
  - a full-disk flag.

  On top of it sit `os.Mkdir`, `os.MkdirAll`, `os.RemoveAll` and archive extraction.
- `fileutil.dfy` (`FileUtil`): `copyFile`, with its refusal to overwrite, its parent-creation fallback and its chunked copy through a `BufSize` buffer. Also `RecursiveCopyDir` as a walk over the entries below the source, which refuses a source that is not a directory as godirwalk does. It proves that the copy of a directory onto a fresh, disjoint place is the same tree, and that it succeeds when nothing on the way is denied, in the way, or too big for a full disk.
- `pipeline.dfy` (`Pipeline`): lines 130–187 of `cmd/goup.go`: backup, removal, extraction, the check and `restore`. It proves that a rollback gives back the original installation, that a failed removal leaves a complete backup, and that on a healthy filesystem (every copy allowed, the backup directory creatable) the run always reaches extraction and never ends unrecoverable.
- `goup.dfy` (`Goup`): `main` of `cmd/goup.go`. It covers locating the installation, forcing the pre-release flags, the target selection loop, the prompt loop, and the whole run.

Running commands, reading the web page, the prompt input and the download are not modelled as effects. They are inputs to the model, bundled in `Goup.World`:

- the output of running an executable with a subcommand in a given filesystem;
- the anchor texts of the catalog page;
- the lines typed at the prompt;
- whether the temporary file can be created;
- the archive served at each URL;
- the directory `ioutil.TempDir` picks.

The source's `main` treats the version string returned by `LocalGoInfo` as a `VersionInfo` (`localVer.Beta`, `latestVer == localVer`, `newLocalVer != latestVer`), so the file does not compile as written. The model parses that string with `ExtractVersionInfo`, which is what those comparisons evidently intend. A local version that does not parse is treated like a failed `LocalGoInfo`, so the default installation directory is tried next.

## Model

| member | source | states |
|---|---|---|
| Text.IndexOf | upgrade.go:152 | the index found is the first occurrence of the separator, and None means it occurs nowhere |
| Text.Split | upgrade.go:177 | there is at least one part, and exactly one part when the separator does not occur |
| Text.JoinSplit | upgrade.go:177 | joining the parts of strings.Split with the separator gives back the text |
| Text.SplitAfter | upgrade.go:177 | a head that does not contain the separator's first character, followed by the separator, splits off as the first part |
| Text.Atoi | upgrade.go:182 | the empty text is rejected; a parsed text is a numeral with an optional sign |
| Text.AtoiItoa | upgrade.go:182 | reading back what `%d` prints gives the integer |
| Text.NatToString | upgrade.go:34 | `%d` of a natural number is a numeral without a leading zero |
| Text.ScanLines | upgrade.go:166-167 | no line it yields holds a newline |
| Text.ScanUnlines | upgrade.go:166-167 | scanning text made of lines, each followed by a newline, gives back the lines when none holds a newline or ends in a carriage return |
| Text.TrimSpaceNoSpace | upgrade.go:155 | TrimSpace leaves a text without white space unchanged |
| Versions.ParseMinorPart | upgrade.go:187-214 | a parsed minor component has at most one channel, no number for an unused channel, and no major or build |
| Versions.ExtractVersionInfo | upgrade.go:176-226 | every parsed version is valid: not both beta and RC, and zero numbers for unused channels |
| Versions.ExtractShape | upgrade.go:177-180 | text with other than two or three dotted components is rejected as malformed |
| Versions.ExtractChannels | upgrade.go:187-208 | the beta flag is set exactly when the second component contains "beta", and the RC flag exactly when it contains "rc" and not "beta" |
| Versions.BareMarkerRejected | upgrade.go:194-207 | "M.mrc" and "M.mbeta" without a channel number are rejected with a bad minor version |
| Versions.String | upgrade.go:32-40 | no contract of its own; pinned by Versions.StringRoundTrip and Versions.PrereleaseBuildLost |
| Versions.StringRoundTrip | upgrade.go:32-40 | ExtractVersionInfo(String(v)) == Ok(v) for every valid version that has no build number when it has a channel |
| Versions.ParsePrintParse | upgrade.go:32-40 | printing a parsed version and parsing it again gives the same parse, for every parse except a pre-release that also has a build number |
| Versions.PrereleaseBuildLost | upgrade.go:32-40 | "M.mbetaN.B" with B non-zero parses with its build, String drops the build, and the reparse differs, so the exception above is needed |
| Versions.FirstMatch | upgrade.go:43-46 | the Replacer picks the first key, in argument order, that matches at the current position |
| Versions.ReplaceKey | upgrade.go:43-48 | a placeholder at the current position is replaced by its value and scanning resumes after it |
| Versions.PatternFilled | upgrade.go:19 | filling the URL pattern gives the literal text with the four values in place |
| Versions.DownloadUrl | upgrade.go:42-49 | no contract of its own; pinned by Versions.DownloadUrlShape |
| Versions.DownloadUrlShape | upgrade.go:42-49 | DownloadUrl is "https://dl.google.com/go/go" + String(v) + "." + os + "-" + arch + "." + Format |
| Versions.Newer | upgrade.go:92-137 | no contract of its own; pinned by Versions.NewerIsKeyAtLeast, Catalog.NewerTransitive and Catalog.NewerTotal |
| Versions.NewerIsKeyAtLeast | upgrade.go:92-137 | on valid versions the comparator holds exactly when the key (major, minor, build, channel rank, RC number, beta number) is at least as large |
| Versions.NewerSelf | upgrade.go:136 | the comparator holds between a version and itself (unless both channel flags are set), so it is not the strict order sort.Slice asks for |
| Versions.KeyAntisymmetric | upgrade.go:92-137 | two valid versions with the same key are equal |
| Catalog.Entry | upgrade.go:82-86 | a kept anchor yields a valid version |
| Catalog.KeptMembers | upgrade.go:80-88 | a version is kept exactly when some anchor starts with "go" and the rest parses to it |
| Catalog.KeptValid | upgrade.go:80-88 | every kept version is valid |
| Catalog.NewerTransitive | upgrade.go:92-137 | the comparator is transitive on valid versions |
| Catalog.NewerTotal | upgrade.go:92-137 | the comparator relates any two valid versions one way or the other |
| Catalog.FilterAnchors | upgrade.go:79-88 | the loop's list is the kept versions in page order |
| Catalog.SortSlice | upgrade.go:92-137 | the array is sorted by the comparator and is a permutation of the input |
| Catalog.Insert | upgrade.go:92-137 | one insertion step extends the sorted prefix by one and keeps the elements |
| Catalog.Swap | upgrade.go:92 | the two elements are exchanged and nothing else changes |
| Catalog.LatestVersionInfo | upgrade.go:79-139 | the result is a permutation of the kept versions, newest first, all valid |
| Catalog.HeadIsNewest | upgrade.go:90-92 | the first element of a newest-first list is Newer than every element |
| Catalog.SortedUnique | upgrade.go:92-137 | two newest-first orders of the same valid versions are equal, so the unstable sort has one result |
| Probe.LocalGoInfo | upgrade.go:143-156 | a failed command or empty output is an error; information is returned only from at least four fields whose fourth has a "/" |
| Probe.LocalGoInfoReadsVersionLine | upgrade.go:152-155 | "go version go<v> <os>/<arch>\n" yields version v, OS and architecture |
| Probe.ShortOutputPanics | upgrade.go:152-153 | non-empty output without a space panics on the index of the fourth field |
| Probe.GoPath | upgrade.go:159-174 | a failed command is an error; otherwise the result is what the first GOROOT line gives (Reads) |
| Probe.FindGoroot | upgrade.go:166-173 | NotFound exactly when no line mentions GOROOT; Found holds the quote-trimmed text between the first "=" and the next "=" (or the end of the line) of the first such line; a first such line without "=" panics |
| Probe.TrimQuoted | upgrade.go:170 | Trim with `"` removes the quotes around a quote-free path |
| Probe.GorootValue | upgrade.go:169-170 | the line GOROOT="<path>" gives back the path |
| FileSystem.Mkdir | cmd/goup.go:132 | success exactly when the path is absent, allowed and its parent is a directory; it adds just that directory, and on failure nothing changes |
| FileSystem.MkdirAll | fileutil.go:36 | adds only directories on the way to the path; on success the path is a directory; it succeeds whenever no prefix of the path is a file or an absent path the process may not create (Makeable), and in a well-hung tree exactly then |
| FileSystem.RemoveAll | cmd/goup.go:145 | removes nothing outside the path; succeeds exactly when the path is not the root and nothing at or below it is protected, and then nothing is left below it |
| FileSystem.RemoveAllKeepsWF | cmd/goup.go:145 | removal keeps every entry hanging from a directory |
| FileSystem.MkdirFresh | cmd/goup.go:132 | a directory just made is empty |
| FileSystem.Placed | upgrade_unix.go:38 | each archive entry lands at the same place below the target, and nothing else is placed |
| FileSystem.Extract | upgrade_unix.go:20-61 | extraction changes nothing outside the target and fails exactly when the archive is incomplete |
| FileUtil.ReadChunk | fileutil.go:49 | a read fills the front of the buffer with the next bytes of the source and stops only when the buffer is full or the source is exhausted |
| FileUtil.CreateFile | fileutil.go:34-44 | creates an empty dst, adding only directories on the way to it, and never fails with a full disk; it succeeds whenever dst is Makeable, and in a well-hung tree exactly then |
| FileUtil.WriteAll | fileutil.go:47-60 | the loop leaves dst holding exactly the source bytes, unless the disk is full and there is something to write |
| FileUtil.CopyFile | fileutil.go:18-62 | a missing or forbidden src and an existing dst are refused without change; a directory src fails; on success dst holds src's bytes; a readable file whose bytes fit, copied onto an absent Makeable dst, succeeds (Copyable), and in a well-hung tree only then |
| FileUtil.Visit | fileutil.go:69-91 | a missing entry is NotExist and an unreadable directory is Permission, both without change; a directory with children changes nothing; a directory without children is MkdirAll of its place below dst; a file is copied to the same place below dst, succeeding when it is Copyable there (in a well-hung tree exactly then); every step whose entry is readable and whose copy can be made succeeds (VisitOk) |
| FileUtil.MirrorAt | fileutil.go:64-95 | when every entry is done, the copy has the source's entry at every place below the roots |
| FileUtil.WalkComplete | fileutil.go:64-95 | when every entry below src is done, the tree below dst is the tree below src |
| FileUtil.VisitReady | fileutil.go:67-92 | while a walk onto a fresh, disjoint, Makeable dst with CopyOk permissions goes on, the next entry is VisitOk |
| FileUtil.WalkDir | fileutil.go:67-92 | the walk only adds entries around dst; on success onto a fresh, disjoint dst it makes dst the same tree as src; onto a fresh, disjoint, Makeable dst, with every entry below src readable and nothing below dst denied (CopyOk), it succeeds |
| FileUtil.RecursiveCopyDir | fileutil.go:64-95 | a missing src is NotExist, a file src is refused as not a directory, an unreadable src is Permission, all without change; on success onto a fresh, disjoint dst the tree below dst is the tree below src; a directory src copied onto a fresh, disjoint, Makeable dst under CopyOk succeeds |
| Pipeline.Restore | cmd/goup.go:176-187 | a RemoveAll failure is returned as it is; on success the installation root is the same tree as the backup; it succeeds when the root is not the filesystem root, the backup is a well-hung directory apart from it, the way to the root's parent is open and copying the backup onto the root is CopyOk |
| Pipeline.Backup | cmd/goup.go:130-142 | TempDir failure changes nothing; no existing entry changes; on success the backup holds a copy of the installation; once TempDir succeeds, copying a directory root of a well-hung filesystem under CopyOk succeeds, so BackupFailed means one of those failed |
| Pipeline.RestoreReady | cmd/goup.go:157-173 | on a Healthy filesystem, whatever extraction did at the root, the restore's way is open and its copy is CopyOk |
| Pipeline.PinnedKept | cmd/goup.go:144-149 | the backup cannot make something below the root protected that was not |
| Pipeline.BackupSurvives | cmd/goup.go:144-157 | removal and extraction, being confined to the installation root, leave the backup a copy of the old installation |
| Pipeline.RollBack | cmd/goup.go:157-173 | a failing RemoveAll of the root is the restore's error, with the filesystem it leaves; a restore that succeeds after a good backup makes the root again the tree it was before the upgrade; after a good backup kept intact, with the way to the root's parent open and CopyOk from the backup to the root, the restore succeeds |
| Pipeline.Confirmed | cmd/goup.go:165-166 | no contract of its own; the check after extraction holds when LocalGoInfo succeeds and its version parses to the target; used by Pipeline.Install and Goup.KeptOnlyConfirmed |
| Pipeline.Install | cmd/goup.go:130-173 | BackupDirFailed exactly when TempDir fails; after a good backup, RemoveFailed exactly when RemoveAll of the root fails, and the backup is then a full copy; once extraction is reached, Upgraded exactly when the archive is complete and `go version` of the unpacked tree reports the target, and that tree is kept, holding exactly the archive; VerifyCrashed exactly when that `go version` panics; otherwise a restore, Unrecoverable when its RemoveAll fails, RolledBack giving back the old tree; BackupFailed only when the root is not a directory, the filesystem is not well hung, or CopyOk fails; RemoveFailed only when something below the root was protected; on a Healthy filesystem extraction is always reached and the restore never fails |
| Goup.ProbeLocal | cmd/goup.go:29-39 | a panic is reported as such; a local version exists exactly when LocalGoInfo succeeds and its version parses, and it is that parse |
| Goup.ProbeReadsVersion | cmd/goup.go:29 | the probe of a well-formed `go version` line for a printable version gives back that version |
| Goup.StringNoSpace | cmd/goup.go:29 | the printed version has no white space, so it survives the field split |
| Goup.PathOfName | cmd/goup.go:42 | reading the absolute name of a path gives back the path |
| Goup.Effective | cmd/goup.go:55-62 | a beta local version turns on both pre-release flags, an RC one the RC flag, and nothing else changes |
| Goup.LocalPasses | cmd/goup.go:64-77 | the local version passes the filters its own forced flags set |
| Goup.SelectTarget | cmd/goup.go:64-77 | the loop returns Target: the first entry that passes the three filters, or the zero version |
| Goup.Target | cmd/goup.go:64-77 | no contract of its own; pinned by Goup.TargetFirst, Goup.TargetNone and Goup.TargetNewest |
| Goup.TargetFirst | cmd/goup.go:64-77 | the target is the entry at the first passing index |
| Goup.TargetNone | cmd/goup.go:64-77 | without a passing entry the target is the zero version |
| Goup.TargetNewest | cmd/goup.go:64-77 | in a newest-first list the target passes and is Newer than every passing entry |
| Goup.CatalogOrderUnique | cmd/goup.go:50-53 | there is only one version list for a catalog, so the target is determined |
| Goup.NoCatalogZero | cmd/goup.go:50-53 | when the catalog cannot be read the run goes on with the zero version as target |
| Goup.Confirm | cmd/goup.go:85-98 | the loop's answer is Reply: the first line that is Y, y, n or N decides |
| Goup.Reply | cmd/goup.go:85-98 | no contract of its own; pinned by Goup.ReplyFirst and Goup.ReplyNone |
| Goup.ReplyFirst | cmd/goup.go:91-95 | the first decisive line decides: Y or y proceeds, n or N declines |
| Goup.ReplyNone | cmd/goup.go:85-98 | without a decisive line there is no answer |
| Probe.ReadsDetermined | upgrade.go:159-174 | the lines of `go env` allow only one GoPath result |
| Goup.EnvCases | cmd/goup.go:42-46 | GoPath panics exactly when the output of `go env` makes it panic, and finds nothing exactly when `go env` fails or names no GOROOT |
| Goup.Locate | cmd/goup.go:24-46 | ProbeFailed exactly when both probes fail; Crashed exactly when LocalGoInfo or GoPath panics; EnvFailed exactly when `go env` fails or names no GOROOT; otherwise the executable used, its version and GOROOT as GoPath reads them |
| Goup.Decide | cmd/goup.go:50-98 | UpToDate exactly when the selected target is the local version; otherwise Declined exactly on a No reply and Unanswered exactly without a reply, both only when not silent; going ahead needs --silent or a Yes reply |
| Goup.Choose | cmd/goup.go:24-98 | Chosen: each early stop holds exactly when its cause does (no local Go, a panic, no GOROOT, already current, a No reply, no reply); going ahead carries a selected target that differs from the local version and a confirmation |
| Goup.Deliver | cmd/goup.go:100-173 | TempFileFailed and DownloadFailed change nothing; after the download, the outcomes of Install for the GOROOT root, the served archive and `go version` of the chosen executable, including the causes of BackupFailed and RemoveFailed and, on a Healthy filesystem, no stop before extraction and no Unrecoverable |
| Goup.KeptOnlyConfirmed | cmd/goup.go:165-173 | Upgraded exactly when extraction was reached, the download was complete and `go version` of the unpacked tree reports the target, and the upgraded filesystem is that tree; on a Healthy filesystem after a download the outcome is Upgraded, VerifyCrashed or RolledBack, and Upgraded exactly when the download was complete and confirmed |
| Goup.Run | cmd/goup.go:20-174 | the choice is the one Choose makes in this world (Chosen); a stop before the download leaves the filesystem untouched; once going ahead, the delivery's guarantees hold |

## Left out

- Running executables (`os/exec`), the HTTP requests for the tag page and the package, HTML parsing with goquery and the progress bar are not modelled. Their results are inputs in `Goup.World`.
- Text printed to the console, including `printVerbose`, is not modelled.
- File permission bits (0755, 0666, the source file's mode) are not modelled. Only a set of paths the process may not create, open or remove is.
- `ioutil.TempFile`: the model keeps only whether it succeeds. The downloaded bytes are an archive value and do not live in the modelled filesystem.
- `ioutil.TempDir`: the model does not pick a random name or retry; the directory is an input.
- FileSystem.Extract: the tar/gzip and zip readers are not modelled. An archive is the tree it unpacks to, plus whether it unpacks to the end, and an incomplete archive is taken to write its whole tree before failing.
- FileSystem.Placed: the stripping of the leading `go/` (`Name[3:]`) and path cleaning are not modelled; the archive tree is already relative to the target.
- FileSystem.RemoveAll: partial removal order is abstracted. A protected entry keeps itself and its ancestors, and everything else below the path is removed.
- FileUtil.WalkDir: godirwalk's order (lexical, parents before children) is not modelled; the walk visits entries in any order. The source's `osPathname[baseDirLen:]` is taken as the relative path below the source.
- Symbolic links and special files are not modelled.
- Goup.ExeIn: `filepath.Join` cleaning of `..`, repeated separators and Windows separators is not modelled. The path string is the directory joined to "go" with "/".
- Goup.PathOf: GOROOT is read as "/"-separated components; Windows drive letters and backslashes are not modelled.
- Text.TrimSpace: Go strings are bytes and strings.TrimSpace decodes UTF-8 from both ends; the model works on characters, so invalid UTF-8 is not modelled.
- Text.ScanLines: the 64 KiB token limit of bufio.Scanner is not modelled.
- Text.Atoi: the 64-bit range check of strconv.Atoi is not modelled, because integers are unbounded; an out-of-range numeral parses instead of failing.
- Goup.Reply: each typed line stands for the word fmt.Scanln reads from it; Scanln's splitting at spaces is not modelled.
- Goup.Confirm: when the input ends before a decisive line, fmt.Scanln keeps returning an error with the old input and the source prompts forever. The model ends with NoReply, and the run ends as Unanswered.
- FileUtil.RecursiveCopyDir: the success clause is a sufficient condition, not an exact one. CopyOk asks that no path at or below dst be denied, while the walk only creates the paths it copies to; and it assumes a fresh, disjoint dst in a tree that hangs together. The same holds for FileUtil.WalkDir, Pipeline.Backup, Pipeline.Restore and Pipeline.RollBack. CreateFile, CopyFile and MkdirAll state exact conditions for a well-hung tree.
- Pipeline.Install: Healthy is a sufficient condition for reaching extraction and for a restore that succeeds. The failure causes it states for BackupFailed and RemoveFailed are necessary conditions only.
- Pipeline.Install: a Go panic (index out of range while reading the new `go version`) ends the process; it is the outcome VerifyCrashed, with no restore, as in the source.
- The zero `VersionInfo` as target when the catalog cannot be read is kept as the source behaves: the run goes on and may download "0.0.0".
