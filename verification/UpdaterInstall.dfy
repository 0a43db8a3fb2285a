/** Installing a binary with two renames, and the whole `Update` flow on a file system whose
    renames and removals may fail at any time. */
module UpdaterInstall {
  import opened Text
  import opened UpdaterArchive
  import opened UpdaterManifest

  type Files = map<string, Bytes>

  /** A file system that remembers every state it has been in. */
  class FileSystem {
    var files: Files
    ghost var history: seq<Files>

    constructor (files: Files)
      ensures this.files == files && history == []
    {
      this.files := files;
      history := [];
    }

    /** os.Rename: fails when there is no such file, and may fail otherwise. */
    method Rename(from: string, to: string) returns (ok: bool)
      modifies this
      ensures ok ==> from in old(files) && files == (old(files) - {from})[to := old(files)[from]]
      ensures !ok ==> files == old(files)
      ensures history == old(history) + [files]
    {
      var works: bool := *;
      ok := works && from in files;
      if ok {
        files := (files - {from})[to := files[from]];
      }
      history := history + [files];
    }

    method Remove(name: string)
      modifies this
      ensures files == old(files) || files == old(files) - {name}
      ensures history == old(history) + [files]
    {
      var works: bool := *;
      if works {
        files := files - {name};
      }
      history := history + [files];
    }

    method Write(name: string, data: Bytes)
      modifies this
      ensures files == old(files)[name := data]
      ensures history == old(history) + [files]
    {
      files := files[name := data];
      history := history + [files];
    }
  }

  function Backup(exe: string): string { exe + ".bak" }

  lemma BackupDiffers(exe: string)
    ensures Backup(exe) != exe
  {
    assert |Backup(exe)| == |exe| + 4;
  }

  /** The bytes are still there, under the current or the backup name. */
  predicate Survives(files: Files, exe: string, bytes: Bytes)
  {
    (exe in files && files[exe] == bytes) || (Backup(exe) in files && files[Backup(exe)] == bytes)
  }

  /** In every state from number k of the history on, the old binary is still there. */
  ghost predicate SurvivesSince(history: seq<Files>, k: nat, exe: string, bytes: Bytes)
  {
    forall i :: k <= i < |history| ==> Survives(history[i], exe, bytes)
  }

  datatype ApplyResult = Applied(staged: string) | NotApplied

  /** Whatever fails, in every state on the way the old binary is at the current or the backup
      path. On success the current path holds exactly the new binary and the backup the old one;
      on an error the current path holds exactly the old binary, or, when even the rollback
      failed, nothing while the backup holds it. No other file is touched. */
  method ApplyBinary(fs: FileSystem, staged: string, exe: string, windows: bool) returns (r: ApplyResult)
    requires staged != exe && staged != Backup(exe)
    modifies fs
    ensures exe in old(fs.files) ==> Survives(fs.files, exe, old(fs.files)[exe])
    ensures r.Applied? ==>
      && exe in old(fs.files) && staged in old(fs.files)
      && fs.files == (old(fs.files) - {staged})[exe := old(fs.files)[staged]][exe + ".bak" := old(fs.files)[exe]]
      && r.staged == if windows then exe else ""
    ensures r.NotApplied? ==>
      || fs.files == old(fs.files)
      || (exe in old(fs.files) && fs.files == old(fs.files) - {Backup(exe)})
      || (exe in old(fs.files) && fs.files == (old(fs.files) - {exe})[Backup(exe) := old(fs.files)[exe]])
    ensures old(fs.history) <= fs.history
    ensures exe in old(fs.files) ==>
      SurvivesSince(fs.history, |old(fs.history)|, exe, old(fs.files)[exe])
  {
    BackupDiffers(exe);
    var backup := Backup(exe);
    ghost var start := fs.files;
    var moved := fs.Rename(exe, backup);
    assert exe in start ==> Survives(fs.files, exe, start[exe]);
    if !moved {
      return NotApplied;
    }
    var installed := fs.Rename(staged, exe);
    assert Survives(fs.files, exe, start[exe]);
    if !installed {
      var restored := fs.Rename(backup, exe);
      assert Survives(fs.files, exe, start[exe]);
      if restored {
        assert fs.files == start - {backup};
      }
      return NotApplied;
    }
    assert fs.files == (start - {staged})[exe := start[staged]][backup := start[exe]];
    return Applied(if windows then exe else "");
  }

  // ----- the update flow

  datatype Client = Client(productName: string, manifestUrl: string, currentVersion: string, publicKey: Bytes)

  datatype Options = Options(manifestUrl: string, checkOnly: bool, skipVerify: bool)

  /** What the world answers: the parsed manifest, from the options or the network; the release
      archive with its entries, when it can be downloaded and read; the path of the running
      binary; and the names of the two temporary files. */
  datatype World = World(
    manifest: Option<Manifest>,
    goos: string,
    goarch: string,
    archive: Option<Bytes>,
    entries: Option<seq<Entry>>,
    exe: Option<string>,
    archivePath: string,
    binaryPath: string)

  datatype Result = Result(updated: bool, currentBuild: int, newBuild: int, stagedBin: string, checkOnly: bool)

  datatype UpdateError =
    | KeyMissing
    | UrlMissing
    | ManifestFailed
    | BadSignature(cause: VerifyError)
    | TargetMissing
    | DownloadFailed
    | ExtractFailed
    | ApplyFailed

  /** filepath.Ext of a name without slashes. */
  function Ext(name: string): string
  {
    var parts := Split(name, '.');
    if |parts| < 2 then "" else "." + parts[|parts| - 1]
  }

  function Extracted(entries: seq<Entry>, name: string): Option<Bytes>
  {
    if LowerAscii(Ext(name)) == ".zip" then ZipChoice(entries, name)
    else if LowerAscii(Ext(name)) == ".gz" then TarChoice(entries, name)
    else None
  }

  /** The extension is what follows the last dot, with the dot. */
  lemma ExtMeans(stem: string, ext: string)
    requires '.' !in ext
    ensures Ext(ext) == "" && Ext(stem + "." + ext) == "." + ext
  {
    SplitAtSeparator(ext, "", '.');
    LastAfterSeparator(stem, '.', ext);
    assert stem + "." + ext == stem + ['.'] + ext;
  }

  /** Names that end in .zip or .gz, in either case of letters, are unpacked, and no others. */
  lemma ExtractedMeans(entries: seq<Entry>, stem: string, ext: string)
    requires '.' !in ext
    ensures var name := stem + "." + ext;
      Extracted(entries, name)
        == if LowerAscii(ext) == "zip" then ZipChoice(entries, name)
           else if LowerAscii(ext) == "gz" then TarChoice(entries, name)
           else None
    ensures Extracted(entries, ext) == None
  {
    ExtMeans(stem, ext);
    assert LowerAscii("") == "";
    var dotted := LowerAscii("." + ext);
    assert dotted[1..] == LowerAscii(ext) && dotted == "." + dotted[1..];
    assert ".zip"[1..] == "zip" && ".gz"[1..] == "gz";
  }

  method ExtractSingleBinary(entries: seq<Entry>, artifactName: string) returns (r: Option<Bytes>)
    ensures r == Extracted(entries, artifactName)
  {
    var ext := LowerAscii(Ext(artifactName));
    if ext == ".zip" {
      r := ExtractZip(entries, artifactName);
    } else if ext == ".gz" {
      r := ExtractTarGz(entries, artifactName);
    } else {
      r := None;
    }
  }

  /** The names os.CreateTemp made are new, and are not the executable's or its backup's. */
  ghost predicate FreshNames(w: World, files: Files)
  {
    && w.archivePath != w.binaryPath
    && w.archivePath !in files && w.binaryPath !in files
    && (w.exe.Some? ==>
          && w.archivePath !in {w.exe.value, Backup(w.exe.value)}
          && w.binaryPath !in {w.exe.value, Backup(w.exe.value)})
  }

  /** Everything that has to hold before the executable may change. */
  ghost predicate MayInstall(crypto: Crypto, c: Client, opts: Options, w: World)
  {
    && !opts.checkOnly
    && w.manifest.Some?
    && (opts.skipVerify || Accepted(crypto, w.manifest.value, c.publicKey))
    && (exists t <- w.manifest.value.targets :: TargetFor(t, w.goos, w.goarch))
    && w.manifest.value.buildNumber > ParseBuildNumber(c.currentVersion)
  }

  /** The files apart from the two temporary ones. */
  function Lasting(files: Files, w: World): Files { files - {w.archivePath, w.binaryPath} }

  ghost predicate UpToRollback(before: Files, after: Files, exe: string)
  {
    || after == before
    || (exe in before && after == before - {Backup(exe)})
    || (exe in before && after == (before - {exe})[Backup(exe) := before[exe]])
  }

  /** The new bytes at the path of the executable, and the old ones at its backup's. */
  function Replaced(before: Files, exe: string, binary: Bytes): Files
    requires exe in before
  {
    before[exe := binary][Backup(exe) := before[exe]]
  }

  ghost predicate Installs(before: Files, after: Files, w: World)
  {
    && w.exe.Some? && w.exe.value in before
    && w.manifest.Some? && w.entries.Some?
    && exists t <- w.manifest.value.targets ::
         && IsFirstTarget(w.manifest.value, t, w.goos, w.goarch)
         && Extracted(w.entries.value, Base(t.file)).Some?
         && after == Replaced(before, w.exe.value, Extracted(w.entries.value, Base(t.file)).value)
  }

  /** What one run of `Update` can do to the lasting files. */
  ghost predicate UpdateEffect(
      crypto: Crypto, c: Client, opts: Options, w: World, before: Files, after: Files, updated: bool, failed: bool)
  {
    && (updated ==> !failed && MayInstall(crypto, c, opts, w) && Installs(before, after, w))
    && (!updated && !failed ==> after == before)
    && (failed ==>
          && !updated
          && (|| after == before
              || (w.exe.Some? && MayInstall(crypto, c, opts, w) && UpToRollback(before, after, w.exe.value))))
  }

  /** Why the manifest is refused, if it is: there is none, its signature fails, or no target
      matches, in this order. */
  method Gate(crypto: Crypto, c: Client, opts: Options, w: World)
    returns (target: Option<Target>, err: Option<UpdateError>)
    ensures target.Some? <==> err.None?
    ensures target.Some? ==>
      w.manifest.Some? && IsFirstTarget(w.manifest.value, target.value, w.goos, w.goarch)
    ensures err == Some(ManifestFailed) <==> w.manifest.None?
    ensures err.Some? && err.value.BadSignature? <==>
      w.manifest.Some? && !opts.skipVerify && !Accepted(crypto, w.manifest.value, c.publicKey)
    ensures err.Some? ==> err.value in {ManifestFailed, TargetMissing} || err.value.BadSignature?
    ensures err == Some(TargetMissing) <==>
      && w.manifest.Some?
      && (opts.skipVerify || Accepted(crypto, w.manifest.value, c.publicKey))
      && forall t <- w.manifest.value.targets :: !TargetFor(t, w.goos, w.goarch)
  {
    if w.manifest.None? {
      return None, Some(ManifestFailed);
    }
    var m := w.manifest.value;
    if !opts.skipVerify {
      var e := VerifySignature(crypto, m, c.publicKey);
      if e.Some? {
        return None, Some(BadSignature(e.value));
      }
    }
    var t := FindTarget(m, w.goos, w.goarch);
    if t.None? {
      return None, Some(TargetMissing);
    }
    return t, None;
  }

  lemma LastingInstalled(start: Files, w: World, exe: string, a: Bytes, b: Bytes)
    requires w.archivePath !in {exe, Backup(exe)} && w.binaryPath !in {exe, Backup(exe)}
    requires w.archivePath !in start && w.binaryPath !in start && exe in start && w.archivePath != w.binaryPath
    ensures var staged := start[w.archivePath := a][w.binaryPath := b];
      && Lasting((staged - {w.binaryPath})[exe := b][Backup(exe) := start[exe]], w) == Replaced(start, exe, b)
      && Lasting(staged, w) == start
      && Lasting(staged - {Backup(exe)}, w) == start - {Backup(exe)}
      && Lasting((staged - {exe})[Backup(exe) := start[exe]], w) == (start - {exe})[Backup(exe) := start[exe]]
  {
    BackupDiffers(exe);
  }

  lemma LastingStaged(start: Files, w: World, a: Bytes, b: Bytes)
    requires w.archivePath !in start && w.binaryPath !in start
    ensures Lasting(start[w.archivePath := a][w.binaryPath := b], w) == start
  {}

  /** Writes the two temporary files, the archive and the extracted binary. */
  method Stage(fs: FileSystem, w: World, archive: Bytes, binary: Bytes)
    requires FreshNames(w, fs.files)
    modifies fs
    ensures fs.files == old(fs.files)[w.archivePath := archive][w.binaryPath := binary]
    ensures old(fs.history) <= fs.history
    ensures w.exe.Some? && w.exe.value in old(fs.files) ==>
      SurvivesSince(fs.history, |old(fs.history)|, w.exe.value, old(fs.files)[w.exe.value])
  {
    fs.Write(w.archivePath, archive);
    fs.Write(w.binaryPath, binary);
  }

  /** The deferred removals: they may fail, and touch no lasting file. */
  method RemoveTemporaries(fs: FileSystem, w: World, ghost exe: string, ghost bytes: Bytes)
    requires w.archivePath !in {exe, Backup(exe)} && w.binaryPath !in {exe, Backup(exe)}
    modifies fs
    ensures Lasting(fs.files, w) == Lasting(old(fs.files), w)
    ensures old(fs.history) <= fs.history
    ensures Survives(old(fs.files), exe, bytes) ==> SurvivesSince(fs.history, |old(fs.history)|, exe, bytes)
  {
    fs.Remove(w.binaryPath);
    assert Survives(old(fs.files), exe, bytes) ==> Survives(fs.files, exe, bytes);
    assert Lasting(fs.files, w) == Lasting(old(fs.files), w);
    fs.Remove(w.archivePath);
    assert Lasting(fs.files, w) == Lasting(old(fs.files), w);
  }

  lemma SurvivesOn(h1: seq<Files>, h2: seq<Files>, k: nat, exe: string, bytes: Bytes)
    requires h1 <= h2 && k <= |h1|
    requires SurvivesSince(h1, k, exe, bytes) && SurvivesSince(h2, |h1|, exe, bytes)
    ensures SurvivesSince(h2, k, exe, bytes)
  {}

  /** Stages the binary next to the downloaded archive, installs it, and removes the two
      temporary files. */
  method StageAndApply(fs: FileSystem, w: World, archive: Bytes, binary: Bytes, exe: string) returns (r: ApplyResult)
    requires FreshNames(w, fs.files) && w.exe == Some(exe)
    modifies fs
    ensures r.Applied? ==> exe in old(fs.files) && r.staged == if w.goos == "windows" then exe else ""
    ensures r.Applied? ==> Lasting(fs.files, w) == Replaced(old(fs.files), exe, binary)
    ensures r.NotApplied? ==> UpToRollback(old(fs.files), Lasting(fs.files, w), exe)
    ensures old(fs.history) <= fs.history
    ensures exe in old(fs.files) ==> SurvivesSince(fs.history, |old(fs.history)|, exe, old(fs.files)[exe])
  {
    ghost var start := fs.files;
    ghost var h0 := fs.history;
    Stage(fs, w, archive, binary);
    LastingStaged(start, w, archive, binary);
    if exe in start {
      LastingInstalled(start, w, exe, archive, binary);
      assert fs.files[exe] == start[exe];
    }
    ghost var h1 := fs.history;
    r := ApplyBinary(fs, w.binaryPath, exe, w.goos == "windows");
    ghost var h2 := fs.history;
    ghost var bytes := if exe in start then start[exe] else [];
    assert exe in start ==> Survives(fs.files, exe, bytes);
    RemoveTemporaries(fs, w, exe, bytes);
    if exe in start {
      SurvivesOn(h1, h2, |h0|, exe, bytes);
      SurvivesOn(h2, fs.history, |h0|, exe, bytes);
    }
  }

  /** Download and extraction before that. Fails without touching the lasting files. */
  method Fetch(fs: FileSystem, w: World, file: string) returns (binary: Option<Bytes>, err: Option<UpdateError>)
    requires FreshNames(w, fs.files)
    modifies fs
    ensures binary.Some? <==> err.None?
    ensures err.Some? ==> err == Some(if w.archive.None? then DownloadFailed else ExtractFailed)
    ensures binary.Some? ==> w.archive.Some? && w.entries.Some? && binary == Extracted(w.entries.value, Base(file))
    ensures binary.Some? ==> fs.files == old(fs.files) && fs.history == old(fs.history)
    ensures Lasting(fs.files, w) == old(fs.files)
    ensures old(fs.history) <= fs.history
    ensures w.exe.Some? && w.exe.value in old(fs.files) ==>
      SurvivesSince(fs.history, |old(fs.history)|, w.exe.value, old(fs.files)[w.exe.value])
  {
    if w.archive.None? {
      return None, Some(DownloadFailed);
    }
    binary := None;
    if w.entries.Some? {
      binary := ExtractSingleBinary(w.entries.value, Base(file));
    }
    if binary.None? {
      fs.Write(w.archivePath, w.archive.value);
      fs.Remove(w.archivePath);
      return None, Some(ExtractFailed);
    }
    return binary, None;
  }

  /** Staging and installing when the path of the running binary is known; otherwise only the
      temporary files come and go. */
  method Install(fs: FileSystem, w: World, archive: Bytes, binary: Bytes) returns (r: ApplyResult)
    requires FreshNames(w, fs.files)
    modifies fs
    ensures r.Applied? ==> w.exe.Some? && w.exe.value in old(fs.files)
    ensures r.Applied? ==> r.staged == if w.goos == "windows" then w.exe.value else ""
    ensures r.Applied? ==>
      var exe := w.exe.value;
      Lasting(fs.files, w) == Replaced(old(fs.files), exe, binary)
    ensures r.NotApplied? ==>
      if w.exe.None? then Lasting(fs.files, w) == old(fs.files)
      else UpToRollback(old(fs.files), Lasting(fs.files, w), w.exe.value)
    ensures old(fs.history) <= fs.history
    ensures w.exe.Some? && w.exe.value in old(fs.files) ==>
      SurvivesSince(fs.history, |old(fs.history)|, w.exe.value, old(fs.files)[w.exe.value])
  {
    if w.exe.None? {
      ghost var start := fs.files;
      Stage(fs, w, archive, binary);
      LastingStaged(start, w, archive, binary);
      fs.Remove(w.binaryPath);
      fs.Remove(w.archivePath);
      return NotApplied;
    }
    r := StageAndApply(fs, w, archive, binary, w.exe.value);
  }

  /** The result record: filled in as far as the run got. */
  predicate Reports(res: Result, err: Option<UpdateError>, c: Client, opts: Options, w: World)
  {
    var current := ParseBuildNumber(c.currentVersion);
    match err
    case Some(KeyMissing) => res == Result(false, 0, 0, "", false)
    case Some(UrlMissing) => res == Result(false, 0, 0, "", false)
    case Some(ManifestFailed) => res == Result(false, current, 0, "", opts.checkOnly)
    case Some(BadSignature(_)) => res == Result(false, current, 0, "", opts.checkOnly)
    case Some(TargetMissing) => res == Result(false, current, 0, "", opts.checkOnly)
    case Some(_) => w.manifest.Some? && res == Result(false, current, w.manifest.value.buildNumber, "", opts.checkOnly)
    case None =>
      && w.manifest.Some?
      && res.currentBuild == current && res.newBuild == w.manifest.value.buildNumber && res.checkOnly == opts.checkOnly
      && (res.updated <==> !opts.checkOnly && w.manifest.value.buildNumber > current)
      && res.stagedBin == if res.updated && w.goos == "windows" && w.exe.Some? then w.exe.value else ""
  }

  /** One run of the updater. In every state it passes through, the old binary is at the current
      or the backup path; the removals at the end never touch the installed file. */
  method Update(crypto: Crypto, fs: FileSystem, c: Client, opts: Options, w: World)
    returns (res: Result, err: Option<UpdateError>)
    requires FreshNames(w, fs.files)
    modifies fs
    ensures UpdateEffect(crypto, c, opts, w, old(fs.files), Lasting(fs.files, w), res.updated, err.Some?)
    ensures Reports(res, err, c, opts, w)
    ensures err == Some(KeyMissing) <==> !opts.skipVerify && |c.publicKey| == 0
    ensures err == Some(UrlMissing) <==>
      (opts.skipVerify || |c.publicKey| > 0) && opts.manifestUrl == "" && c.manifestUrl == ""
    ensures err == Some(DownloadFailed) ==> w.archive.None?
    ensures err == Some(ExtractFailed) ==> w.archive.Some?
    ensures old(fs.history) <= fs.history
    ensures w.exe.Some? && w.exe.value in old(fs.files) ==>
      SurvivesSince(fs.history, |old(fs.history)|, w.exe.value, old(fs.files)[w.exe.value])
  {
    res := Result(false, 0, 0, "", false);
    ghost var start := fs.files;
    assert Lasting(start, w) == start;
    if !opts.skipVerify && |c.publicKey| == 0 {
      return res, Some(KeyMissing);
    }
    var manifestUrl := opts.manifestUrl;
    if manifestUrl == "" {
      manifestUrl := c.manifestUrl;
    }
    if manifestUrl == "" {
      return res, Some(UrlMissing);
    }
    var currentBuild := ParseBuildNumber(c.currentVersion);
    res := res.(currentBuild := currentBuild, checkOnly := opts.checkOnly);
    var target;
    target, err := Gate(crypto, c, opts, w);
    if err.Some? {
      return;
    }
    var m := w.manifest.value;
    res := res.(newBuild := m.buildNumber);
    if m.buildNumber <= currentBuild {
      return res, None;
    }
    if opts.checkOnly {
      return res, None;
    }
    var binary;
    binary, err := Fetch(fs, w, target.value.file);
    if err.Some? {
      return res, err;
    }
    var r := Install(fs, w, w.archive.value, binary.value);
    assert MayInstall(crypto, c, opts, w);
    if r.NotApplied? {
      return res, Some(ApplyFailed);
    }
    assert Installs(start, Lasting(fs.files, w), w);
    return res.(updated := true, stagedBin := r.staged), None;
  }
}
