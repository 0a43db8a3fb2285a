/** Any number of `Update` runs one after the other on the same machine. */
module UpdaterRuns {
  import opened Text
  import opened UpdaterArchive
  import opened UpdaterManifest
  import opened UpdaterInstall

  /** One run with the lasting files before and after it. */
  datatype Run = Run(
    client: Client, opts: Options, world: World, before: Files, after: Files, updated: bool, failed: bool)

  type VersionFn = Bytes -> string

  function Build(versionOf: VersionFn, files: Files, exe: string): int
    requires exe in files
  {
    ParseBuildNumber(versionOf(files[exe]))
  }

  /** The version string of a release binary ends in '+' and the build number of its manifest. */
  ghost predicate Stamped(versionOf: VersionFn, binary: Bytes, m: Manifest)
  {
    0 <= m.buildNumber < INT_LIMIT && exists v: string :: versionOf(binary) == v + "+" + Decimal(m.buildNumber)
  }

  /** The run is one of `Update`, by the binary installed at `exe`, and its release is stamped. */
  ghost predicate Genuine(crypto: Crypto, versionOf: VersionFn, exe: string, r: Run)
  {
    && UpdateEffect(crypto, r.client, r.opts, r.world, r.before, r.after, r.updated, r.failed)
    && r.world.exe == Some(exe) && exe in r.before
    && r.client.currentVersion == versionOf(r.before[exe])
    && (r.world.manifest.Some? && r.world.entries.Some? ==>
          forall t <- r.world.manifest.value.targets ::
            var b := Extracted(r.world.entries.value, Base(t.file));
            b.Some? ==> Stamped(versionOf, b.value, r.world.manifest.value))
  }

  predicate Changes(exe: string, r: Run)
  {
    exe in r.before && exe in r.after && r.before[exe] != r.after[exe]
  }

  /** A run that leaves other bytes at the path of the executable was not check-only, had an
      accepted signature or was told to skip it, matched a target, and raised the build. */
  lemma ChangeRaisesBuild(crypto: Crypto, versionOf: VersionFn, exe: string, r: Run)
    requires Genuine(crypto, versionOf, exe, r) && exe in r.after
    ensures Changes(exe, r) ==>
      && r.updated && MayInstall(crypto, r.client, r.opts, r.world)
      && Build(versionOf, r.after, exe) > Build(versionOf, r.before, exe)
    ensures !Changes(exe, r) ==> Build(versionOf, r.after, exe) == Build(versionOf, r.before, exe)
  {
    BackupDiffers(exe);
    if Changes(exe, r) {
      var m := r.world.manifest.value;
      var t :| && t in m.targets
               && IsFirstTarget(m, t, r.world.goos, r.world.goarch)
               && Extracted(r.world.entries.value, Base(t.file)).Some?
               && r.after == Replaced(r.before, exe, Extracted(r.world.entries.value, Base(t.file)).value);
      var v: string :| versionOf(r.after[exe]) == v + "+" + Decimal(m.buildNumber);
      BuildNumberRoundTrip(v, m.buildNumber);
    }
  }

  function CountChanges(exe: string, runs: seq<Run>): nat
  {
    if runs == [] then 0
    else CountChanges(exe, runs[..|runs| - 1]) + if Changes(exe, runs[|runs| - 1]) then 1 else 0
  }

  /** A run finds the executable that the run before it left. Temporary files left behind, and
      anything else, may differ. */
  predicate Follows(exe: string, earlier: Run, later: Run)
  {
    exe in earlier.after && exe in later.before && later.before[exe] == earlier.after[exe]
  }

  ghost predicate Linked(exe: string, runs: seq<Run>)
  {
    forall k :: 0 < k < |runs| ==> Follows(exe, runs[k - 1], runs[k])
  }

  /** One run raises the build by at least one if it changes the executable, and keeps it otherwise. */
  lemma OneRun(crypto: Crypto, versionOf: VersionFn, exe: string, r: Run)
    requires Genuine(crypto, versionOf, exe, r) && exe in r.after
    ensures Build(versionOf, r.before, exe) + (if Changes(exe, r) then 1 else 0) <= Build(versionOf, r.after, exe)
    ensures Changes(exe, r) ==> r.updated && MayInstall(crypto, r.client, r.opts, r.world)
  {
    ChangeRaisesBuild(crypto, versionOf, exe, r);
  }

  lemma LinkedInit(exe: string, runs: seq<Run>)
    requires |runs| > 1 && Linked(exe, runs)
    ensures Linked(exe, runs[..|runs| - 1]) && Follows(exe, runs[|runs| - 2], runs[|runs| - 1])
  {
    var init := runs[..|runs| - 1];
    forall k | 0 < k < |init| ensures Follows(exe, init[k - 1], init[k]) {
      assert Follows(exe, runs[k - 1], runs[k]);
    }
  }

  /** Over any sequence of runs the installed build never goes down, and goes up by at least one
      for every run that changed the executable; every such run passed all the checks. */
  lemma {:induction false} BuildsOnlyRise(crypto: Crypto, versionOf: VersionFn, exe: string, runs: seq<Run>)
    requires runs != [] && Linked(exe, runs)
    requires forall r <- runs :: Genuine(crypto, versionOf, exe, r)
    requires exe in runs[0].before && exe in runs[|runs| - 1].after
    ensures Build(versionOf, runs[0].before, exe) + CountChanges(exe, runs)
         <= Build(versionOf, runs[|runs| - 1].after, exe)
    ensures forall r <- runs :: Changes(exe, r) ==> r.updated && MayInstall(crypto, r.client, r.opts, r.world)
  {
    var k := |runs| - 1;
    var last := runs[k];
    assert last in runs;
    OneRun(crypto, versionOf, exe, last);
    assert runs == runs[..k] + [last];
    if k > 0 {
      assert forall r <- runs[..k] :: r in runs;
      LinkedInit(exe, runs);
      BuildsOnlyRise(crypto, versionOf, exe, runs[..k]);
    }
  }
}
