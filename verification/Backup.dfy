/** Restore as a sequence of fallible file operations with rollback. */
module Backup {
  import opened Machine
  import opened Utf8

  datatype File = Config | Metrics
  datatype Tag = Staging | Aside

  /** The paths a restore can touch. Staging names are random siblings. */
  datatype Path =
    | Live(file: File)
    | PreRestore(file: File)
    | InBackup(file: File)
    | Sibling(file: File, tag: Tag, nonce: nat)

  type Disk = map<Path, Bytes>

  datatype Schema = Compatible | Newer | Unreadable

  datatype StagingStep = Naming | Copying | Validating | Snapshotting

  datatype RestoreError =
    | NoBackupConfig
    | InvalidBackup
    | StagingFailed(step: StagingStep)
    | StashFailed(file: File)
    | PublishFailed(file: File)
    | RollbackFailed
    | CleanupFailed(file: File)

  predicate IsAside(p: Path, f: File) {
    p.Sibling? && p.file == f && p.tag == Aside
  }

  predicate IsStaged(p: Path, f: File) {
    p.Sibling? && p.file == f && p.tag == Staging
  }

  /** The file's bytes are at its live path or set aside next to it. */
  ghost predicate Kept(d: Disk, f: File, bytes: Bytes) {
    || (Live(f) in d && d[Live(f)] == bytes)
    || (exists n :: Sibling(f, Aside, n) in d && d[Sibling(f, Aside, n)] == bytes)
  }

  /** No live file is ever lost: it is in place or set aside, or the restored file is live and
      the previous one is at `.pre-restore`. */
  ghost predicate Survives(original: Disk, d: Disk, f: File, restored: Bytes) {
    Live(f) in original ==>
      || Kept(d, f, original[Live(f)])
      || (&& Live(f) in d && d[Live(f)] == restored
          && PreRestore(f) in d && d[PreRestore(f)] == original[Live(f)])
  }

  /** Outside the live path, the staged file and files set aside, nothing changed. */
  ghost predicate OnlySwaps(before: Disk, d: Disk, f: File, staged: Path) {
    forall p: Path :: p != Live(f) && p != staged && !IsAside(p, f) ==>
      (p in d <==> p in before) && (p in d ==> d[p] == before[p])
  }

  ghost predicate SameExcept(before: Disk, d: Disk, changed: Path) {
    forall p: Path :: p != changed ==> (p in d <==> p in before) && (p in d ==> d[p] == before[p])
  }

  /** The disk once `staged` is published, its predecessor at `aside` if there was one. */
  ghost function Swapped(d: Disk, staged: Path, f: File, aside: Option<Path>): Disk
    requires staged in d
  {
    var moved := if aside.Some? && Live(f) in d then d[aside.value := d[Live(f)]] else d;
    (moved - {staged})[Live(f) := d[staged]]
  }

  class FileSystem {
    var files: Disk
    const validConfig: Bytes -> bool
    const schemaOf: Bytes -> Schema
    const snapshotOf: Bytes -> Bytes

    ghost var trace: seq<Disk>  // every state the disk went through
    ghost var faults: nat       // how many operations have broken so far

    // ----- Single operations; each may break -----

    method Breaks() returns (broken: bool)
      modifies `faults
      ensures faults == old(faults) + (if broken then 1 else 0)
    {
      broken := *;
      if broken {
        faults := faults + 1;
      }
    }

    method Rename(from: Path, to: Path) returns (ok: bool)
      modifies `files, `trace, `faults
      ensures ok ==> from in old(files) && files == (old(files) - {from})[to := old(files)[from]]
      ensures ok ==> faults == old(faults)
      ensures !ok ==> files == old(files) && (from in files ==> faults == old(faults) + 1)
      ensures old(faults) <= faults <= old(faults) + 1
      ensures trace == old(trace) + [files]
    {
      var broken := Breaks();
      ok := !broken && from in files;
      if ok {
        files := (files - {from})[to := files[from]];
      }
      trace := trace + [files];
    }

    method RemoveFile(p: Path) returns (ok: bool)
      modifies `files, `trace, `faults
      ensures ok ==> files == old(files) - {p} && faults == old(faults)
      ensures !ok ==> files == old(files) && (p in files ==> faults == old(faults) + 1)
      ensures old(faults) <= faults <= old(faults) + 1
      ensures trace == old(trace) + [files]
    {
      var broken := Breaks();
      ok := !broken && p in files;
      if ok {
        files := files - {p};
      }
      trace := trace + [files];
    }

    /** Writes `bytes`; a write that breaks, or is seen half-way, may leave anything at `to`. */
    method Write(to: Path, bytes: Bytes) returns (ok: bool)
      modifies `files, `trace, `faults
      ensures SameExcept(old(files), files, to)
      ensures ok ==> to in files && files[to] == bytes && faults == old(faults)
      ensures !ok ==> faults == old(faults) + 1
      ensures |trace| >= |old(trace)| && trace[..|old(trace)|] == old(trace)
      ensures forall k :: |old(trace)| <= k < |trace| ==> SameExcept(old(files), trace[k], to)
    {
      var partial: Bytes := *;
      files := files[to := partial];
      trace := trace + [files];
      var broken := Breaks();
      ok := !broken;
      if ok {
        files := files[to := bytes];
        trace := trace + [files];
      }
    }

    /** Draws names until one is free; sixteen taken names in a row count as a broken operation. */
    method UniqueSibling(f: File, tag: Tag) returns (r: Option<Path>, ghost taken: seq<Path>)
      modifies `faults
      ensures r.Some? ==> r.value !in files && r.value.Sibling? && r.value.file == f && r.value.tag == tag
      ensures r.Some? ==> faults == old(faults)
      ensures r.None? ==> faults == old(faults) + 1 && (taken == [] || |taken| == 16)
      ensures forall p :: p in taken ==> p in files && p.Sibling? && p.file == f && p.tag == tag
    {
      taken := [];
      var broken := Breaks();
      if broken {
        return None, [];
      }
      for i := 0 to 16
        invariant faults == old(faults) && |taken| == i
        invariant forall p :: p in taken ==> p in files && p.Sibling? && p.file == f && p.tag == tag
      {
        var nonce: nat := *;
        if Sibling(f, tag, nonce) !in files {
          return Some(Sibling(f, tag, nonce)), taken;
        }
        taken := taken + [Sibling(f, tag, nonce)];
      }
      faults := faults + 1;
      return None, taken;
    }

    // ----- Swapping one file in -----

    /** Moves the live file, if there is one, to a name of its own. */
    method SetAside(f: File) returns (r: Result<Option<Path>, RestoreError>)
      modifies `files, `trace, `faults
      ensures |trace| >= |old(trace)| && trace[..|old(trace)|] == old(trace)
      ensures forall k :: |old(trace)| <= k < |trace| ==> trace[k] == files
      ensures r.Ok? ==> faults == old(faults) && (r.value.Some? <==> Live(f) in old(files))
      ensures r.Ok? && r.value.None? ==> files == old(files)
      ensures r.Ok? && r.value.Some? ==>
        && IsAside(r.value.value, f) && r.value.value !in old(files)
        && files == (old(files) - {Live(f)})[r.value.value := old(files)[Live(f)]]
      ensures r.Err? ==> r.error == PublishFailed(f) && faults > old(faults) && files == old(files)
    {
      if Live(f) !in files {
        return Ok(None);
      }
      var aside, _ := UniqueSibling(f, Aside);
      if aside.None? {
        return Err(PublishFailed(f));
      }
      var moved := Rename(Live(f), aside.value);
      if !moved {
        return Err(PublishFailed(f));
      }
      return Ok(aside);
    }

    /** Moves the live file aside and publishes the staged one; undoes the move when the
        publication breaks. */
    method SwapIn(staged: Path, f: File) returns (r: Result<Option<Path>, RestoreError>)
      requires staged in files && IsStaged(staged, f)
      modifies `files, `trace, `faults
      ensures |trace| >= |old(trace)| && trace[..|old(trace)|] == old(trace)
      ensures forall k :: |old(trace)| <= k < |trace| ==>
        OnlySwaps(old(files), trace[k], f, staged)
        && (Live(f) in old(files) ==> Kept(trace[k], f, old(files)[Live(f)]))
      ensures OnlySwaps(old(files), files, f, staged)
      ensures r.Ok? ==> faults == old(faults) && Live(f) in files && files[Live(f)] == old(files)[staged]
      ensures r.Ok? ==> (r.value.Some? <==> Live(f) in old(files))
      ensures r.Ok? && r.value.Some? ==>
        && r.value.value in files && IsAside(r.value.value, f)
        && files[r.value.value] == old(files)[Live(f)]
      ensures r.Ok? && r.value.Some? ==> r.value.value !in old(files)
      ensures r.Ok? ==> files == Swapped(old(files), staged, f, r.value)
      ensures r.Err? ==> r.error == PublishFailed(f) && faults > old(faults)
      ensures r.Err? && files != old(files) ==>
        && Live(f) in old(files) && Kept(files, f, old(files)[Live(f)])
        && Live(f) !in files && faults >= old(faults) + 2
    {
      var aside := SetAside(f);
      if aside.Err? {
        return aside;
      }
      ghost var mid := files;
      if aside.value.Some? {
        assert mid[Sibling(f, Aside, aside.value.value.nonce)] == old(files)[Live(f)];
      }
      var published := Rename(staged, Live(f));
      if !published {
        if aside.value.Some? {
          var undone := Rename(aside.value.value, Live(f));
          if undone {
            assert files == old(files);
          }
        }
        return Err(PublishFailed(f));
      }
      return aside;
    }

    /** Puts the file set aside back in place of the published one. */
    method RollbackSwap(f: File, aside: Option<Path>) returns (r: Result<(), RestoreError>)
      requires Live(f) in files
      requires aside.Some? ==> aside.value in files && IsAside(aside.value, f)
      modifies `files, `trace, `faults
      ensures |trace| >= |old(trace)| && trace[..|old(trace)|] == old(trace)
      ensures forall k :: |old(trace)| <= k < |trace| ==> RollbackState(old(files), trace[k], f, aside)
      ensures RollbackState(old(files), files, f, aside)
      ensures r.Ok? ==> faults == old(faults)
      ensures r.Ok? && aside.None? ==> files == old(files) - {Live(f)}
      ensures r.Ok? && aside.Some? ==> files == (old(files) - {aside.value})[Live(f) := old(files)[aside.value]]
      ensures r.Err? ==> r.error == RollbackFailed && faults > old(faults)
    {
      var removed := RemoveFile(Live(f));
      if !removed {
        return Err(RollbackFailed);
      }
      if aside.Some? {
        var renamed := Rename(aside.value, Live(f));
        if !renamed {
          return Err(RollbackFailed);
        }
        assert files == (old(files) - {aside.value})[Live(f) := old(files)[aside.value]];
      }
      return Ok(());
    }

    /** Copies an existing live file to `.pre-restore`. */
    method StashCurrent(f: File) returns (ok: bool)
      modifies `files, `trace, `faults
      ensures |trace| >= |old(trace)| && trace[..|old(trace)|] == old(trace)
      ensures forall k :: |old(trace)| <= k < |trace| ==> SameExcept(old(files), trace[k], PreRestore(f))
      ensures SameExcept(old(files), files, PreRestore(f))
      ensures ok ==> faults == old(faults)
      ensures ok && Live(f) in files ==> PreRestore(f) in files && files[PreRestore(f)] == files[Live(f)]
      ensures ok ==> files == WithStash(old(files), f)
      ensures !ok ==> faults == old(faults) + 1
    {
      if Live(f) !in files {
        return true;
      }
      ok := Write(PreRestore(f), files[Live(f)]);
    }

    // ----- The restore -----

    function Restored(d: Disk, f: File): Bytes {
      if InBackup(f) !in d then []
      else
        match f
        case Config => d[InBackup(Config)]
        case Metrics => snapshotOf(d[InBackup(Metrics)])
    }

    /** Every member of the backup can be used. */
    predicate Usable(d: Disk) {
      && InBackup(Config) in d && validConfig(d[InBackup(Config)])
      && (InBackup(Metrics) in d ==> schemaOf(d[InBackup(Metrics)]) == Compatible)
    }

    /** The staged files, under names not used before, and nothing else, are new on disk. */
    ghost predicate StagedAs(before: Disk, d: Disk, config: Path, metrics: Option<Path>) {
      && IsStaged(config, Config) && config !in before
      && (metrics.Some? <==> InBackup(Metrics) in before)
      && (metrics.Some? ==> IsStaged(metrics.value, Metrics) && metrics.value !in before)
      && d == (var one := before[config := Restored(before, Config)];
               if metrics.None? then one else one[metrics.value := Restored(before, Metrics)])
    }

    ghost predicate Safe(original: Disk, d: Disk) {
      forall f :: Survives(original, d, f, Restored(original, f))
    }

    /** Both live files are the backup's; metrics only when the backup has any. */
    ghost predicate AllRestored(original: Disk, d: Disk) {
      && Live(Config) in d && d[Live(Config)] == Restored(original, Config)
      && (if InBackup(Metrics) in original
          then Live(Metrics) in d && d[Live(Metrics)] == Restored(original, Metrics)
          else SameLive(original, d, Metrics))
    }

    /** Reads a config; the read may break. */
    method LoadConfig(p: Path) returns (ok: bool)
      requires p in files
      modifies `faults
      ensures ok ==> validConfig(files[p]) && faults == old(faults)
      ensures !ok && validConfig(files[p]) ==> faults == old(faults) + 1
      ensures old(faults) <= faults <= old(faults) + 1
    {
      var broken := Breaks();
      ok := !broken && validConfig(files[p]);
    }

    method ValidateBackup() returns (r: Result<(), RestoreError>)
      modifies `faults
      ensures r.Ok? ==> Usable(files) && faults == old(faults)
      ensures r.Err? ==> (r.error == if InBackup(Config) in files then InvalidBackup else NoBackupConfig)
      ensures r.Err? && Usable(files) ==> faults > old(faults)
      ensures faults >= old(faults)
    {
      if InBackup(Config) !in files {
        return Err(NoBackupConfig);
      }
      var loaded := LoadConfig(InBackup(Config));
      if !loaded {
        return Err(InvalidBackup);
      }
      if InBackup(Metrics) in files {
        var broken := Breaks();
        if broken || schemaOf(files[InBackup(Metrics)]) != Compatible {
          return Err(InvalidBackup);
        }
      }
      return Ok(());
    }

    /** Copies the config beside the live one and validates the copy, or drops it. */
    method StageConfig() returns (r: Result<Path, StagingStep>)
      requires Usable(files)
      modifies `files, `trace, `faults
      ensures |trace| >= |old(trace)| && trace[..|old(trace)|] == old(trace)
      ensures forall k :: |old(trace)| <= k < |trace| ==> OnlyStaging(old(files), trace[k])
      ensures OnlyStaging(old(files), files)
      ensures r.Ok? ==> faults == old(faults) && IsStaged(r.value, Config) && r.value !in old(files)
      ensures r.Ok? ==> files == old(files)[r.value := Restored(old(files), Config)]
      ensures r.Err? ==> faults > old(faults) && r.error != Snapshotting
      ensures r.Err? && Tidied(r.error, faults - old(faults)) ==> files == old(files)
    {
      var name, _ := UniqueSibling(Config, Staging);
      if name.None? {
        return Err(Naming);
      }
      var copied := Write(name.value, files[InBackup(Config)]);
      if !copied {
        return Err(Copying);
      }
      var loaded := LoadConfig(name.value);
      if !loaded {
        var _ := RemoveFile(name.value);
        return Err(Validating);
      }
      return Ok(name.value);
    }

    /** Takes a snapshot of the backup's metrics, or drops both staged files. */
    method StageMetrics(config: Path) returns (r: Result<Option<Path>, StagingStep>)
      requires IsStaged(config, Config) && config in files
      modifies `files, `trace, `faults
      ensures |trace| >= |old(trace)| && trace[..|old(trace)|] == old(trace)
      ensures forall k :: |old(trace)| <= k < |trace| ==> OnlyStaging(old(files), trace[k])
      ensures OnlyStaging(old(files), files)
      ensures r.Ok? ==> faults == old(faults) && (r.value.Some? <==> InBackup(Metrics) in old(files))
      ensures r.Ok? && r.value.Some? ==> IsStaged(r.value.value, Metrics) && r.value.value !in old(files)
      ensures r.Ok? ==> files == if r.value.None? then old(files)
                                 else old(files)[r.value.value := Restored(old(files), Metrics)]
      ensures r.Err? ==> faults > old(faults) && (r.error == Naming || r.error == Snapshotting)
      ensures r == Err(Naming) ==> files == old(files)
      ensures r.Err? && Tidied(r.error, faults - old(faults)) && r.error == Snapshotting ==> files == old(files) - {config}
    {
      if InBackup(Metrics) !in files {
        return Ok(None);
      }
      var staged, _ := UniqueSibling(Metrics, Staging);
      if staged.None? {
        return Err(Naming);
      }
      var taken := Write(staged.value, snapshotOf(files[InBackup(Metrics)]));
      if !taken {
        var _ := RemoveFile(config);
        var _ := RemoveFile(staged.value);
        return Err(Snapshotting);
      }
      return Ok(staged);
    }

    /** Stages every member of the backup beside the live files. */
    method Stage() returns (r: Result<(Path, Option<Path>), RestoreError>)
      requires Usable(files)
      modifies `files, `trace, `faults
      ensures |trace| >= |old(trace)| && trace[..|old(trace)|] == old(trace)
      ensures forall k :: |old(trace)| <= k < |trace| ==> OnlyStaging(old(files), trace[k])
      ensures OnlyStaging(old(files), files)
      ensures r.Ok? ==> faults == old(faults) && StagedAs(old(files), files, r.value.0, r.value.1)
      ensures r.Err? ==> r.error.StagingFailed? && faults > old(faults)
      ensures r.Err? && r.error.step != Naming && Tidied(r.error.step, faults - old(faults)) ==> files == old(files)
    {
      ghost var original := files;
      var config := StageConfig();
      if config.Err? {
        return Err(StagingFailed(config.error));
      }
      ghost var mid, start, point := files, |old(trace)|, |trace|;
      var metrics := StageMetrics(config.value);
      StagingsCompose(original, mid, trace, start, point);
      StagingComposes(original, mid, files);
      if metrics.Err? {
        assert mid - {config.value} == original;
        return Err(StagingFailed(metrics.error));
      }
      return Ok((config.value, metrics.value));
    }

    /** Copies the files about to be replaced to `.pre-restore`. */
    method StashBoth(metrics: bool) returns (r: Result<(), RestoreError>)
      modifies `files, `trace, `faults
      ensures |trace| >= |old(trace)| && trace[..|old(trace)|] == old(trace)
      ensures forall k :: |old(trace)| <= k < |trace| ==> OnlyStashes(old(files), trace[k])
      ensures OnlyStashes(old(files), files)
      ensures r.Ok? ==> faults == old(faults)
      ensures r.Ok? ==> Stashed(files, Config) && (metrics ==> Stashed(files, Metrics))
      ensures r.Ok? ==> files == StashedBoth(old(files), metrics)
      ensures r.Err? ==> faults > old(faults) && r.error.StashFailed?
    {
      var ok := StashCurrent(Config);
      if !ok {
        return Err(StashFailed(Config));
      }
      if metrics {
        ok := StashCurrent(Metrics);
        if !ok {
          return Err(StashFailed(Metrics));
        }
      }
      return Ok(());
    }

    /** Rolls the config back after the metrics could not be published. */
    method UndoConfig(configOld: Option<Path>, ghost before: Disk) returns (r: Result<(), RestoreError>)
      requires Live(Config) in files
      requires BothKept(before, files) && HeldAside(before, files, Config, configOld)
      modifies `files, `trace, `faults
      ensures |trace| >= |old(trace)| && trace[..|old(trace)|] == old(trace)
      ensures forall k :: |old(trace)| <= k < |trace| ==> BothKept(before, trace[k])
      ensures BothKept(before, files) && SameLive(old(files), files, Metrics)
      ensures r.Ok? ==> faults == old(faults) && SameLive(before, files, Config)
      ensures r.Err? ==> r.error == RollbackFailed && faults > old(faults)
    {
      ghost var late, start := files, |trace|;
      r := RollbackSwap(Config, configOld);
      RollbacksKeep(before, late, trace, start, configOld);
      RollbackKeeps(before, late, files, configOld);
    }

    /** Swaps the staged metrics in beside the new config. */
    method SwapMetrics(staged: Path, configOld: Option<Path>, ghost before: Disk)
      returns (r: Result<Option<Path>, RestoreError>)
      requires IsStaged(staged, Metrics) && staged in files && Live(Config) in files
      requires ConfigSwapped(before, files, configOld)
      modifies `files, `trace, `faults
      ensures |trace| >= |old(trace)| && trace[..|old(trace)|] == old(trace)
      ensures forall k :: |old(trace)| <= k < |trace| ==> BothKept(before, trace[k])
      ensures BothKept(before, files)
      ensures SameConfig(old(files), files) && HeldAside(before, files, Config, configOld)
      ensures r.Ok? ==> faults == old(faults) && HeldAside(before, files, Metrics, r.value)
      ensures r.Ok? ==> Live(Metrics) in files && files[Live(Metrics)] == old(files)[staged]
      ensures r.Ok? ==> files == Swapped(old(files), staged, Metrics, r.value)
      ensures r.Ok? && r.value.Some? ==> r.value.value !in old(files)
      ensures r.Err? ==> r.error == PublishFailed(Metrics) && faults > old(faults)
      ensures r.Err? && (Live(Metrics) in files || faults == old(faults) + 1) ==> SameLive(before, files, Metrics)
    {
      ghost var mid, start := files, |trace|;
      r := SwapIn(staged, Metrics);
      SwapsKeep(before, mid, trace, start, staged, configOld);
      SwapMetricsKeeps(before, mid, files, staged, configOld);
    }

    /** Publishes the staged metrics; takes the config back when they cannot follow. `before`
        is the disk before the config was swapped in. */
    method PublishMetrics(staged: Path, configOld: Option<Path>, ghost before: Disk)
      returns (r: Result<Option<Path>, RestoreError>)
      requires IsStaged(staged, Metrics) && staged in files && Live(Config) in files
      requires ConfigSwapped(before, files, configOld)
      modifies `files, `trace, `faults
      ensures |trace| >= |old(trace)| && trace[..|old(trace)|] == old(trace)
      ensures forall k :: |old(trace)| <= k < |trace| ==> BothKept(before, trace[k])
      ensures BothKept(before, files)
      ensures r.Ok? ==> faults == old(faults)
      ensures r.Ok? ==> SameConfig(old(files), files) && HeldAside(before, files, Config, configOld)
      ensures r.Ok? ==> Live(Metrics) in files && files[Live(Metrics)] == old(files)[staged]
      ensures r.Ok? ==> HeldAside(before, files, Metrics, r.value)
      ensures r.Ok? ==> files == Swapped(old(files), staged, Metrics, r.value)
      ensures r.Ok? && r.value.Some? ==> r.value.value !in old(files)
      ensures r.Err? ==> faults > old(faults)
      ensures r.Err? ==> r.error == RollbackFailed || r.error == PublishFailed(Metrics)
      ensures r == Err(PublishFailed(Metrics)) ==> SameLive(before, files, Config)
      ensures r == Err(PublishFailed(Metrics)) && (Live(Metrics) in files || faults == old(faults) + 1) ==>
        SameLive(before, files, Metrics)
      ensures r == Err(RollbackFailed) ==> faults >= old(faults) + 2
    {
      r := SwapMetrics(staged, configOld, before);
      if r.Err? {
        var undone := UndoConfig(configOld, before);
        if undone.Err? {
          return Err(undone.error);
        }
      }
    }

    /** Publishes both staged files. */
    method PublishBoth(config: Path, metrics: Option<Path>)
      returns (r: Result<(Option<Path>, Option<Path>), RestoreError>)
      requires IsStaged(config, Config) && config in files
      requires metrics.Some? ==> IsStaged(metrics.value, Metrics) && metrics.value in files
      modifies `files, `trace, `faults
      ensures |trace| >= |old(trace)| && trace[..|old(trace)|] == old(trace)
      ensures forall k :: |old(trace)| <= k < |trace| ==> BothKept(old(files), trace[k])
      ensures BothKept(old(files), files)
      ensures r.Ok? ==> faults == old(faults)
      ensures r.Ok? ==> Live(Config) in files && files[Live(Config)] == old(files)[config]
      ensures r.Ok? ==> HeldAside(old(files), files, Config, r.value.0)
      ensures r.Ok? && metrics.Some? ==> Live(Metrics) in files && files[Live(Metrics)] == old(files)[metrics.value]
      ensures r.Ok? && metrics.Some? ==> HeldAside(old(files), files, Metrics, r.value.1)
      ensures r.Ok? && metrics.None? ==> SameLive(old(files), files, Metrics) && r.value.1.None?
      ensures r.Ok? ==> SwappedBoth(old(files), files, config, metrics, r.value.0, r.value.1)
      ensures r.Err? ==> faults > old(faults)
      ensures r.Err? && faults == old(faults) + 1 ==>
        SameLive(old(files), files, Config) && SameLive(old(files), files, Metrics)
      ensures r.Err? ==> r.error == RollbackFailed || r.error.PublishFailed?
      ensures r == Err(PublishFailed(Metrics)) ==> SameLive(old(files), files, Config)
      ensures r == Err(PublishFailed(Config)) ==> SameLive(old(files), files, Metrics)
      ensures r.Err? && r.error.PublishFailed? && Live(r.error.file) in files ==>
        SameLive(old(files), files, r.error.file)
    {
      ghost var before, start := files, |trace|;
      var configOld := SwapIn(config, Config);
      ConfigSwapsKeep(before, trace, start, config);
      SwapConfigKeeps(before, files, config);
      if configOld.Err? {
        return Err(configOld.error);
      }
      if metrics.None? {
        return Ok((configOld.value, None));
      }
      assert files[metrics.value] == before[metrics.value];
      var metricsOld := PublishMetrics(metrics.value, configOld.value, before);
      if metricsOld.Err? {
        return Err(metricsOld.error);
      }
      return Ok((configOld.value, metricsOld.value));
    }

    /** Deletes the files set aside; by now both restored files are live. */
    method Discard(configOld: Option<Path>, metricsOld: Option<Path>) returns (r: Result<(), RestoreError>)
      requires configOld.Some? ==> IsAside(configOld.value, Config) && configOld.value in files
      requires metricsOld.Some? ==> IsAside(metricsOld.value, Metrics) && metricsOld.value in files
      modifies `files, `trace, `faults
      ensures |trace| >= |old(trace)| && trace[..|old(trace)|] == old(trace)
      ensures forall k :: |old(trace)| <= k < |trace| ==> OnlyDiscards(old(files), trace[k], configOld, metricsOld)
      ensures OnlyDiscards(old(files), files, configOld, metricsOld)
      ensures r.Ok? ==> faults == old(faults)
      ensures r.Ok? ==> files == Without(Without(old(files), configOld), metricsOld)
      ensures r.Err? ==> r.error.CleanupFailed? && faults > old(faults)
      ensures r == Err(CleanupFailed(Metrics)) ==> files == Without(old(files), configOld)
      ensures r == Err(CleanupFailed(Config)) ==> files == old(files)
    {
      if configOld.Some? {
        var removed := RemoveFile(configOld.value);
        if !removed {
          return Err(CleanupFailed(Config));
        }
      }
      if metricsOld.Some? {
        var removed := RemoveFile(metricsOld.value);
        if !removed {
          return Err(CleanupFailed(Metrics));
        }
      }
      return Ok(());
    }

    /** Restores config and metrics from the backup. At every point the previous live files
        survive; with at most one broken operation the outcome is all or nothing. */
    method Restore() returns (r: Result<(), RestoreError>)
      modifies `files, `trace, `faults
      ensures |trace| >= |old(trace)| && trace[..|old(trace)|] == old(trace)
      ensures forall k :: |old(trace)| <= k < |trace| ==> Safe(old(files), trace[k])
      ensures Safe(old(files), files)
      // Success: both live files are the backup's and the replaced ones are at `.pre-restore`.
      ensures r.Ok? || r.error.CleanupFailed? ==> Published(old(files), files)
      // Nothing staged or set aside is left behind.
      ensures r.Ok? ==> files == FullyRestored(old(files))
      ensures r.Err? ==> LeftBy(old(files), files, r.error)
      // A refused backup, and one whose copies could be dropped, leaves no trace.
      ensures r.Err? && Traceless(r.error, faults - old(faults)) ==> files == old(files)
      // A usable backup is restored unless some operation breaks; an unusable one changes nothing.
      ensures r.Ok? <==> Usable(old(files)) && faults == old(faults)
      ensures !Usable(old(files)) ==> AllOriginal(old(files), files)
      // A single broken operation never leaves a mixture.
      ensures old(faults) <= faults <= old(faults) + 1 ==>
        AllOriginal(old(files), files) || AllRestored(old(files), files)
    {
      ghost var original, start := files, |trace|;
      var checked := ValidateBackup();
      if checked.Err? {
        return checked;
      }
      var staged := Stage();
      StagingsAreSafe(original, trace, start);
      StagingIsSafe(original, files);
      if staged.Err? {
        return Err(staged.error);
      }
      r := StashAndPublish(staged.value.0, staged.value.1, original);
    }

    /** Stashes the live files, then swaps the staged ones in. */
    method StashAndPublish(config: Path, metrics: Option<Path>, ghost original: Disk)
      returns (r: Result<(), RestoreError>)
      requires OnlyStaging(original, files) && StagedAs(original, files, config, metrics)
      modifies `files, `trace, `faults
      ensures |trace| >= |old(trace)| && trace[..|old(trace)|] == old(trace)
      ensures forall k :: |old(trace)| <= k < |trace| ==> Safe(original, trace[k])
      ensures Safe(original, files)
      ensures faults >= old(faults) && (r.Ok? <==> faults == old(faults))
      ensures r.Ok? || r.error.CleanupFailed? ==> Published(original, files)
      ensures r.Ok? ==> files == FullyRestored(original)
      ensures r.Err? ==> LeftBy(original, files, r.error) && AfterStaging(r.error)
      ensures faults == old(faults) + 1 ==> AllOriginal(original, files) || AllRestored(original, files)
    {
      ghost var before, start := files, |trace|;
      r := StashBoth(metrics.Some?);
      StashesAreSafe(original, before, trace, start);
      StashIsSafe(original, before, files);
      if r.Ok? {
        r := Publish(config, metrics, original, before);
      }
    }

    /** Swaps the staged files in and deletes what they replaced. `staged` is the disk before the live files
        were copied to `.pre-restore`. */
    method Publish(config: Path, metrics: Option<Path>, ghost original: Disk, ghost staged: Disk)
      returns (r: Result<(), RestoreError>)
      requires AllOriginal(original, files)
      requires StagedAs(original, staged, config, metrics) && files == StashedBoth(staged, metrics.Some?)
      requires Stashed(files, Config) && (metrics.Some? ==> Stashed(files, Metrics))
      requires IsStaged(config, Config) && config in files && files[config] == Restored(original, Config)
      requires metrics.Some? <==> InBackup(Metrics) in original
      requires metrics.Some? ==> IsStaged(metrics.value, Metrics) && metrics.value in files
                                 && files[metrics.value] == Restored(original, Metrics)
      modifies `files, `trace, `faults
      ensures |trace| >= |old(trace)| && trace[..|old(trace)|] == old(trace)
      ensures forall k :: |old(trace)| <= k < |trace| ==> Safe(original, trace[k])
      ensures Safe(original, files)
      ensures faults >= old(faults) && (r.Ok? <==> faults == old(faults))
      ensures r.Ok? || r.error.CleanupFailed? ==> Published(original, files)
      ensures r.Ok? ==> files == FullyRestored(original)
      ensures r.Err? ==> LeftBy(original, files, r.error) && AfterStaging(r.error)
      ensures faults == old(faults) + 1 ==> AllOriginal(original, files) || AllRestored(original, files)
    {
      ghost var ready, publishing := files, |trace|;
      var published := PublishBoth(config, metrics);
      KeptAreSafe(original, ready, trace, publishing);
      KeptIsSafe(original, ready, files);
      if published.Err? {
        return Err(published.error);
      }
      PublishedBoth(original, ready, files);
      NothingIsLeft(original, staged, files, config, metrics, published.value.0, published.value.1);
      r := CleanUp(published.value.0, published.value.1, original);
    }

    /** Deletes what was replaced, now that both restored files are live. */
    method CleanUp(configOld: Option<Path>, metricsOld: Option<Path>, ghost original: Disk)
      returns (r: Result<(), RestoreError>)
      requires Published(original, files)
      requires configOld.Some? ==> IsAside(configOld.value, Config) && configOld.value in files
      requires metricsOld.Some? ==> IsAside(metricsOld.value, Metrics) && metricsOld.value in files
      modifies `files, `trace, `faults
      ensures |trace| >= |old(trace)| && trace[..|old(trace)|] == old(trace)
      ensures forall k :: |old(trace)| <= k < |trace| ==> Safe(original, trace[k])
      ensures Safe(original, files) && Published(original, files)
      ensures r.Ok? ==> faults == old(faults) && files == Without(Without(old(files), configOld), metricsOld)
      ensures r.Err? ==> r.error.CleanupFailed? && faults > old(faults)
    {
      ghost var done, start := files, |trace|;
      r := Discard(configOld, metricsOld);
      DiscardsAreSafe(original, done, trace, start, configOld, metricsOld);
      DiscardIsSafe(original, done, files, configOld, metricsOld);
    }

    /** The backup's files are live, the files they replaced are at `.pre-restore`, and nothing else is
        different. */
    ghost function FullyRestored(d: Disk): Disk {
      var config := WithStash(d, Config)[Live(Config) := Restored(d, Config)];
      if InBackup(Metrics) in d then WithStash(config, Metrics)[Live(Metrics) := Restored(d, Metrics)] else config
    }

    lemma NothingIsLeft(original: Disk, staged: Disk, done: Disk, config: Path, metrics: Option<Path>,
        configOld: Option<Path>, metricsOld: Option<Path>)
      requires StagedAs(original, staged, config, metrics)
      requires SwappedBoth(StashedBoth(staged, metrics.Some?), done, config, metrics, configOld, metricsOld)
      ensures Without(Without(done, configOld), metricsOld) == FullyRestored(original)
    {
      var bytes := Restored(original, Config);
      var one := original[config := bytes];
      if metrics.None? {
        OneFileRestored(original, config, Config, configOld, bytes);
      } else {
        var data := Restored(original, Metrics);
        var ready := WithStash(WithStash(one[metrics.value := data], Config), Metrics);
        var swapped := Swapped(ready, config, Config, configOld);
        var mid := WithStash(original, Config)[Live(Config) := bytes];
        SwapBeside(original, config, configOld, bytes, metrics.value, data);
        assert Without(swapped, configOld) == WithStash(mid[metrics.value := data], Metrics);
        SwapKeepsAside(swapped, metrics.value, configOld, metricsOld);
        OneFileRestored(mid, metrics.value, Metrics, metricsOld, data);
      }
    }

    /** Both restored files are live and what they replaced is at `.pre-restore`. */
    ghost predicate Published(original: Disk, d: Disk) {
      && AllRestored(original, d)
      && Replaced(original, d, Config)
      && (InBackup(Metrics) in original ==> Replaced(original, d, Metrics))
    }

    /** What each refusal leaves behind. */
    ghost predicate LeftBy(original: Disk, d: Disk, error: RestoreError) {
      match error
      case CleanupFailed(_) => AllRestored(original, d)
      case PublishFailed(f) =>
        && SameLive(original, d, if f == Config then Metrics else Config)
        && (Live(f) in d ==> AllOriginal(original, d))
      case RollbackFailed => true
      case _ => AllOriginal(original, d)
    }

    lemma PublishedBoth(original: Disk, ready: Disk, done: Disk)
      requires AllOriginal(original, ready) && BothKept(ready, done) && AllRestored(original, done)
      requires Stashed(ready, Config) && (InBackup(Metrics) in original ==> Stashed(ready, Metrics))
      ensures Published(original, done)
    {
    }

    lemma StagingIsSafe(original: Disk, d: Disk)
      requires OnlyStaging(original, d)
      ensures Safe(original, d) && AllOriginal(original, d)
    {
    }

    lemma StagingsAreSafe(original: Disk, trace: seq<Disk>, start: nat)
      requires forall k :: start <= k < |trace| ==> OnlyStaging(original, trace[k])
      ensures forall k :: start <= k < |trace| ==> Safe(original, trace[k])
    {
      forall k | start <= k < |trace| ensures Safe(original, trace[k]) {
        StagingIsSafe(original, trace[k]);
      }
    }

    lemma StashIsSafe(original: Disk, before: Disk, d: Disk)
      requires OnlyStaging(original, before) && OnlyStashes(before, d)
      ensures Safe(original, d) && AllOriginal(original, d)
    {
    }

    lemma StashesAreSafe(original: Disk, before: Disk, trace: seq<Disk>, start: nat)
      requires OnlyStaging(original, before)
      requires forall k :: start <= k < |trace| ==> OnlyStashes(before, trace[k])
      ensures forall k :: start <= k < |trace| ==> Safe(original, trace[k])
    {
      forall k | start <= k < |trace| ensures Safe(original, trace[k]) {
        StashIsSafe(original, before, trace[k]);
      }
    }

    lemma KeptAreSafe(original: Disk, ready: Disk, trace: seq<Disk>, start: nat)
      requires AllOriginal(original, ready)
      requires forall k :: start <= k < |trace| ==> BothKept(ready, trace[k])
      ensures forall k :: start <= k < |trace| ==> Safe(original, trace[k])
    {
      forall k | start <= k < |trace| ensures Safe(original, trace[k]) {
        KeptIsSafe(original, ready, trace[k]);
      }
    }

    lemma DiscardsAreSafe(original: Disk, done: Disk, trace: seq<Disk>, start: nat, configOld: Option<Path>,
        metricsOld: Option<Path>)
      requires Published(original, done)
      requires configOld.Some? ==> IsAside(configOld.value, Config)
      requires metricsOld.Some? ==> IsAside(metricsOld.value, Metrics)
      requires forall k :: start <= k < |trace| ==> OnlyDiscards(done, trace[k], configOld, metricsOld)
      ensures forall k :: start <= k < |trace| ==> Safe(original, trace[k])
    {
      forall k | start <= k < |trace| ensures Safe(original, trace[k]) {
        DiscardIsSafe(original, done, trace[k], configOld, metricsOld);
      }
    }

    lemma KeptIsSafe(original: Disk, ready: Disk, d: Disk)
      requires AllOriginal(original, ready) && BothKept(ready, d)
      ensures Safe(original, d)
    {
      forall f: File
        ensures Survives(original, d, f, Restored(original, f))
      {
        assert SameLive(original, ready, f) by { match f case Config => case Metrics => }
      }
    }

    lemma DiscardIsSafe(original: Disk, done: Disk, d: Disk, configOld: Option<Path>, metricsOld: Option<Path>)
      requires Published(original, done)
      requires configOld.Some? ==> IsAside(configOld.value, Config)
      requires metricsOld.Some? ==> IsAside(metricsOld.value, Metrics)
      requires OnlyDiscards(done, d, configOld, metricsOld)
      ensures Safe(original, d) && Published(original, d)
    {
      forall f: File
        ensures Survives(original, d, f, Restored(original, f))
      {
        match f case Config => case Metrics =>
      }
    }
  }

  /** After one broken operation the step had cleaned up after itself: the copies it made are dropped. */
  predicate Tidied(step: StagingStep, broken: int) {
    broken == 1 && !step.Copying?
  }

  /** The refusals that leave the disk as it was. */
  predicate Traceless(error: RestoreError, broken: int) {
    match error
    case NoBackupConfig => true
    case InvalidBackup => true
    case StagingFailed(step) => step != Naming && Tidied(step, broken)
    case _ => false
  }

  predicate AfterStaging(error: RestoreError) {
    error.StashFailed? || error.PublishFailed? || error.RollbackFailed? || error.CleanupFailed?
  }

  /** The disk with the live file also at `.pre-restore`. */
  ghost function WithStash(d: Disk, f: File): Disk {
    if Live(f) in d then d[PreRestore(f) := d[Live(f)]] else d
  }

  ghost function StashedBoth(d: Disk, metrics: bool): Disk {
    if metrics then WithStash(WithStash(d, Config), Metrics) else WithStash(d, Config)
  }

  /** Both swaps, one after the other, each with a name of its own for what it set aside. */
  ghost predicate SwappedBoth(before: Disk, d: Disk, config: Path, metrics: Option<Path>, configOld: Option<Path>,
                              metricsOld: Option<Path>)
    requires config in before && (metrics.Some? ==> metrics.value in before)
  {
    var one := Swapped(before, config, Config, configOld);
    && (configOld.Some? ==> IsAside(configOld.value, Config) && configOld.value !in before)
    && (metricsOld.Some? ==> IsAside(metricsOld.value, Metrics) && metricsOld.value !in before)
    && (if metrics.None? then d == one else metrics.value in one && d == Swapped(one, metrics.value, Metrics, metricsOld))
  }

  ghost function Without(d: Disk, p: Option<Path>): Disk {
    if p.Some? then d - {p.value} else d
  }

  /** Staged, stashed, swapped in and its predecessor deleted: one file is restored. */
  lemma OneFileRestored(d: Disk, staged: Path, f: File, aside: Option<Path>, bytes: Bytes)
    requires IsStaged(staged, f) && staged !in d
    requires aside.Some? ==> IsAside(aside.value, f) && aside.value !in d
    ensures Without(Swapped(WithStash(d[staged := bytes], f), staged, f, aside), aside)
         == WithStash(d, f)[Live(f) := bytes]
  {
  }

  /** Swapping the config in touches nothing of the metrics. */
  lemma SwapBeside(d: Disk, config: Path, aside: Option<Path>, bytes: Bytes, metrics: Path, data: Bytes)
    requires IsStaged(config, Config) && config !in d && IsStaged(metrics, Metrics) && metrics !in d
    requires aside.Some? ==> IsAside(aside.value, Config) && aside.value !in d
    ensures var ready := WithStash(WithStash(d[config := bytes][metrics := data], Config), Metrics);
      Without(Swapped(ready, config, Config, aside), aside)
      == WithStash(WithStash(d, Config)[Live(Config) := bytes][metrics := data], Metrics)
  {
  }

  lemma SwapKeepsAside(d: Disk, staged: Path, configOld: Option<Path>, metricsOld: Option<Path>)
    requires staged in d && IsStaged(staged, Metrics)
    requires configOld.Some? ==> IsAside(configOld.value, Config)
    requires metricsOld.Some? ==> IsAside(metricsOld.value, Metrics)
    ensures staged in Without(d, configOld)
    ensures Without(Swapped(d, staged, Metrics, metricsOld), configOld)
         == Swapped(Without(d, configOld), staged, Metrics, metricsOld)
  {
  }

  /** The live files of `before` are the live files of `d`. */
  ghost predicate AllOriginal(before: Disk, d: Disk) {
    SameLive(before, d, Config) && SameLive(before, d, Metrics)
  }

  /** The file that was replaced, if any, is at `.pre-restore`. */
  ghost predicate Replaced(before: Disk, d: Disk, f: File) {
    Live(f) in before ==> PreRestore(f) in d && d[PreRestore(f)] == before[Live(f)]
  }

  /** At most the files set aside are gone. */
  ghost predicate OnlyDiscards(before: Disk, d: Disk, configOld: Option<Path>, metricsOld: Option<Path>) {
    forall p: Path :: Some(p) != configOld && Some(p) != metricsOld ==>
      (p in d <==> p in before) && (p in d ==> d[p] == before[p])
  }

  lemma StagingComposes(a: Disk, b: Disk, c: Disk)
    requires OnlyStaging(a, b) && OnlyStaging(b, c)
    ensures OnlyStaging(a, c)
  {
  }

  lemma StagingsCompose(a: Disk, b: Disk, trace: seq<Disk>, start: nat, point: nat)
    requires OnlyStaging(a, b)
    requires forall k :: start <= k < point && k < |trace| ==> OnlyStaging(a, trace[k])
    requires forall k :: point <= k < |trace| ==> OnlyStaging(b, trace[k])
    ensures forall k :: start <= k < |trace| ==> OnlyStaging(a, trace[k])
  {
    forall k | start <= k < |trace| ensures OnlyStaging(a, trace[k]) {
      if k >= point {
        StagingComposes(a, b, trace[k]);
      }
    }
  }

  /** The config is published, its predecessor set aside, and nothing else of either file
      that matters later has changed. */
  ghost predicate ConfigSwapped(before: Disk, d: Disk, aside: Option<Path>) {
    && HeldAside(before, d, Config, aside)
    && (forall p: Path :: p.file == Metrics || p.PreRestore? ==>
          (p in d <==> p in before) && (p in d ==> d[p] == before[p]))
  }

  ghost predicate SameConfig(before: Disk, d: Disk) {
    Live(Config) in before && Live(Config) in d && d[Live(Config)] == before[Live(Config)]
  }

  lemma SwapConfigKeeps(before: Disk, d: Disk, staged: Path)
    requires IsStaged(staged, Config) && OnlySwaps(before, d, Config, staged)
    requires Live(Config) in before ==> Kept(d, Config, before[Live(Config)])
    ensures BothKept(before, d)
  {
    forall f: File | Live(f) in before
      ensures Kept(d, f, before[Live(f)])
    {
    }
  }

  lemma ConfigSwapsKeep(before: Disk, trace: seq<Disk>, start: nat, staged: Path)
    requires IsStaged(staged, Config)
    requires forall k :: start <= k < |trace| ==>
      OnlySwaps(before, trace[k], Config, staged)
      && (Live(Config) in before ==> Kept(trace[k], Config, before[Live(Config)]))
    ensures forall k :: start <= k < |trace| ==> BothKept(before, trace[k])
  {
    forall k | start <= k < |trace| ensures BothKept(before, trace[k]) {
      SwapConfigKeeps(before, trace[k], staged);
    }
  }

  lemma SwapMetricsKeeps(before: Disk, mid: Disk, d: Disk, staged: Path, aside: Option<Path>)
    requires ConfigSwapped(before, mid, aside)
    requires IsStaged(staged, Metrics) && OnlySwaps(mid, d, Metrics, staged)
    requires Live(Metrics) in mid ==> Kept(d, Metrics, mid[Live(Metrics)])
    ensures BothKept(before, d) && HeldAside(before, d, Config, aside)
  {
    if aside.Some? {
      assert aside.value in d && d[aside.value] == mid[aside.value];
      assert aside.value == Sibling(Config, Aside, aside.value.nonce);
    }
    forall f: File | Live(f) in before
      ensures Kept(d, f, before[Live(f)])
    {
    }
  }

  lemma SwapsKeep(before: Disk, mid: Disk, trace: seq<Disk>, start: nat, staged: Path, aside: Option<Path>)
    requires ConfigSwapped(before, mid, aside) && IsStaged(staged, Metrics)
    requires forall k :: start <= k < |trace| ==>
      OnlySwaps(mid, trace[k], Metrics, staged) && (Live(Metrics) in mid ==> Kept(trace[k], Metrics, mid[Live(Metrics)]))
    ensures forall k :: start <= k < |trace| ==> BothKept(before, trace[k])
  {
    forall k | start <= k < |trace|
      ensures BothKept(before, trace[k])
    {
      SwapMetricsKeeps(before, mid, trace[k], staged, aside);
    }
  }

  lemma RollbacksKeep(before: Disk, late: Disk, trace: seq<Disk>, start: nat, aside: Option<Path>)
    requires BothKept(before, late) && HeldAside(before, late, Config, aside)
    requires forall k :: start <= k < |trace| ==> RollbackState(late, trace[k], Config, aside)
    ensures forall k :: start <= k < |trace| ==> BothKept(before, trace[k])
  {
    forall k | start <= k < |trace|
      ensures BothKept(before, trace[k])
    {
      RollbackKeeps(before, late, trace[k], aside);
    }
  }

  lemma RollbackKeeps(before: Disk, late: Disk, d: Disk, aside: Option<Path>)
    requires BothKept(before, late) && HeldAside(before, late, Config, aside)
    requires RollbackState(late, d, Config, aside)
    ensures BothKept(before, d)
  {
    if aside.Some? {
      assert aside.value == Sibling(Config, Aside, aside.value.nonce);
    }
    forall f: File | Live(f) in before
      ensures Kept(d, f, before[Live(f)])
    {
      if f == Metrics {
        if !(Live(f) in late && late[Live(f)] == before[Live(f)]) {
          var n :| Sibling(f, Aside, n) in late && late[Sibling(f, Aside, n)] == before[Live(f)];
          assert Sibling(f, Aside, n) in d;
        }
      }
    }
  }

  /** Only staging names and `.pre-restore` copies differ. */
  ghost predicate OnlyStashes(before: Disk, d: Disk) {
    forall p: Path :: !p.PreRestore? ==> (p in d <==> p in before) && (p in d ==> d[p] == before[p])
  }

  ghost predicate Stashed(d: Disk, f: File) {
    Live(f) in d ==> PreRestore(f) in d && d[PreRestore(f)] == d[Live(f)]
  }

  /** Both live files are in place or set aside, and the `.pre-restore` copies are untouched. */
  ghost predicate BothKept(before: Disk, d: Disk) {
    forall f: File ::
      && (Live(f) in before ==> Kept(d, f, before[Live(f)]))
      && (PreRestore(f) in before ==> PreRestore(f) in d && d[PreRestore(f)] == before[PreRestore(f)])
  }

  /** The previous live file, if there was one, is at `aside`. */
  ghost predicate HeldAside(before: Disk, d: Disk, f: File, aside: Option<Path>) {
    && (aside.Some? <==> Live(f) in before)
    && (aside.Some? ==> IsAside(aside.value, f) && aside.value in d && d[aside.value] == before[Live(f)])
  }

  /** Live and backup files are as they were; only staging names differ. */
  ghost predicate OnlyStaging(before: Disk, d: Disk) {
    forall p: Path :: !(p.Sibling? && p.tag == Staging) ==>
      (p in d <==> p in before) && (p in d ==> d[p] == before[p])
  }

  ghost predicate SameLive(before: Disk, d: Disk, f: File) {
    (Live(f) in d <==> Live(f) in before) && (Live(f) in d ==> d[Live(f)] == before[Live(f)])
  }

  /** While a swap is undone: the published file is at most removed, and the file set aside
      is still aside or already back. */
  ghost predicate RollbackState(before: Disk, d: Disk, f: File, aside: Option<Path>) {
    && (forall p: Path :: p != Live(f) && Some(p) != aside ==>
          (p in d <==> p in before) && (p in d ==> d[p] == before[p]))
    && (aside.Some? && aside.value in before ==>
          || (aside.value in d && d[aside.value] == before[aside.value])
          || (Live(f) in d && d[Live(f)] == before[aside.value]))
  }
}
