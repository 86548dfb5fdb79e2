/**
  The binary update: back up every managed path, replace the two binaries,
  restart, and restore the backup when the second write or the restart fails.
 */
module Update {
  import opened Wrappers
  import opened ManagedFiles
  import opened ServiceRestart
  import opened Text

  const SBCTL: string := "usr/local/bin/sbctl"
  const SING_BOX: string := "usr/local/bin/sing-box"

  const MANAGED_PATHS: seq<string> := [
    SBCTL,
    SING_BOX,
    "etc/sbctl/config.toml",
    "var/lib/sbctl/state.json",
    "etc/sing-box/config.json",
    "var/lib/sbctl/artifacts/sing-box-server.json",
    "var/lib/sbctl/artifacts/subscription-sing-box.json",
    "var/lib/sbctl/artifacts/subscription-clash.yaml",
    "var/lib/sbctl/artifacts/subscription-uri.txt",
    "etc/systemd/system/sing-box.service",
    SERVICE_UNIT,
    SOCKET_UNIT,
    "etc/systemd/system/sbctl-accounting-reset.service",
    "etc/systemd/system/sbctl-accounting-reset.timer",
    DEPLOY_HOOK]

  const CERTIFICATES: string := "var/lib/sbctl/certificates/"
  const ROLLBACK_ROOT: string := "var/backups/sbctl/rollback/"
  const ROLLBACK_GENERATIONS_KEPT: nat := 3

  datatype BackupEntry = BackupEntry(relative: string, contents: Option<Bytes>)

  datatype Error = NotReady | BackupFailed | BinaryStorage(binary: string) | ServiceHealth | RollbackFailed

  /** The restart after the binaries are replaced, and the one after a rollback. */
  datatype Restarts = Restarts(direct: bool, texts: Texts, first: Attempt, second: Attempt) {
    function First(files: Files): Step { AfterRestart(files, direct, texts, first) }

    function Second(files: Files): Step { AfterRestart(files, direct, texts, second) }
  }

  function ReadOption(files: Files, p: string): Option<Bytes> { if p in files then Some(files[p]) else None }

  /** Direct mode also covers the pinned certificate of its host. */
  function RollbackPaths(directHost: Option<string>): seq<string> {
    match directHost
    case None => MANAGED_PATHS
    case Some(host) => MANAGED_PATHS + [CERTIFICATES + host + "/fullchain.pem", CERTIFICATES + host + "/privkey.pem"]
  }

  /** In Direct mode both files of its host's pin are managed, besides what always is; nothing else ever is. */
  lemma PinsAreManaged(directHost: Option<string>, p: string)
    ensures p in RollbackPaths(directHost)
       <==> p in MANAGED_PATHS
            || exists host, name :: directHost == Some(host) && name in {"/fullchain.pem", "/privkey.pem"} && p == CERTIFICATES + host + name
  {
    if directHost.Some? {
      var paths := RollbackPaths(directHost);
      assert paths[|MANAGED_PATHS|] == CERTIFICATES + directHost.value + "/fullchain.pem";
      assert paths[|MANAGED_PATHS| + 1] == CERTIFICATES + directHost.value + "/privkey.pem";
    }
  }

  function BackupPath(generation: string, p: string): string { ROLLBACK_ROOT + generation + "/" + p }

  /** The start of every path below var/backups. */
  predicate BelowBackups(p: string) { |p| > 4 && p[0] == 'v' && p[4] == 'b' }

  lemma StartsOfManagedPaths(i: nat)
    requires i < |MANAGED_PATHS|
    ensures MANAGED_PATHS[i][0] != 'v' || MANAGED_PATHS[i][4] == 'l'
  {
    if i < 3 {
      assert SBCTL[0] == 'u' && SING_BOX[0] == 'u' && "etc/sbctl/config.toml"[0] == 'e';
    } else if i < 6 {
      assert "var/lib/sbctl/state.json"[4] == 'l' && "etc/sing-box/config.json"[0] == 'e';
      assert "var/lib/sbctl/artifacts/sing-box-server.json"[4] == 'l';
    } else if i < 9 {
      assert "var/lib/sbctl/artifacts/subscription-sing-box.json"[4] == 'l';
      assert "var/lib/sbctl/artifacts/subscription-clash.yaml"[4] == 'l';
      assert "var/lib/sbctl/artifacts/subscription-uri.txt"[4] == 'l';
    } else if i < 11 {
      assert "etc/systemd/system/sing-box.service"[0] == 'e' && SERVICE_UNIT[0] == UNIT_DIRECTORY[0] == 'e';
    } else if i < 14 {
      assert SOCKET_UNIT[0] == UNIT_DIRECTORY[0] == 'e';
      assert "etc/systemd/system/sbctl-accounting-reset.service"[0] == 'e';
      assert "etc/systemd/system/sbctl-accounting-reset.timer"[0] == 'e';
    } else {
      assert DEPLOY_HOOK[0] == HOOK_DIRECTORY[0] == 'e';
    }
  }

  lemma ManagedPathsAreNotBackups(directHost: Option<string>, p: string)
    requires p in RollbackPaths(directHost)
    ensures !BelowBackups(p)
  {
    if p in MANAGED_PATHS {
      var i :| 0 <= i < |MANAGED_PATHS| && MANAGED_PATHS[i] == p;
      StartsOfManagedPaths(i);
    } else {
      var directory := CERTIFICATES + directHost.value;
      assert directory[4] == CERTIFICATES[4] == 'l';
      assert (directory + "/fullchain.pem")[4] == directory[4] && (directory + "/privkey.pem")[4] == directory[4];
    }
  }

  lemma BackupsAreBelowBackups(generation: string, p: string, q: string)
    ensures BelowBackups(BackupPath(generation, p))
    ensures BackupPath(generation, p) == BackupPath(generation, q) ==> p == q
  {
    assert BackupPath(generation, p)[0] == ROLLBACK_ROOT[0] && BackupPath(generation, p)[4] == ROLLBACK_ROOT[4];
    var prefix := ROLLBACK_ROOT + generation + "/";
    assert BackupPath(generation, p) == prefix + p && (prefix + p)[|prefix|..] == p;
    assert BackupPath(generation, q) == prefix + q && (prefix + q)[|prefix|..] == q;
  }

  // ---------------------------------------------------------------- backup and restore

  ghost predicate Entries(before: Files, paths: seq<string>, entries: seq<BackupEntry>) {
    && |entries| == |paths|
    && forall i :: 0 <= i < |paths| ==> entries[i] == BackupEntry(paths[i], ReadOption(before, paths[i]))
  }

  /** The rollback point holds the old contents of every path that existed. */
  ghost predicate HoldsBackup(before: Files, files: Files, generation: string, paths: seq<string>) {
    forall p :: p in paths && p in before ==>
      BackupPath(generation, p) in files && files[BackupPath(generation, p)] == before[p]
  }

  /** How many of the paths exist, and so are copied. */
  function Existing(files: Files, paths: seq<string>): nat {
    if paths == [] then 0
    else Existing(files, paths[..|paths| - 1]) + (if paths[|paths| - 1] in files then 1 else 0)
  }

  lemma {:induction false} ExistingGrows(files: Files, paths: seq<string>, i: nat)
    requires i <= |paths|
    ensures Existing(files, paths[..i]) <= Existing(files, paths)
    decreases |paths| - i
  {
    if i < |paths| {
      assert paths[..i + 1][..i] == paths[..i];
      ExistingGrows(files, paths, i + 1);
    } else {
      assert paths[..i] == paths;
    }
  }

  method Backup(store: FileStore<string>, generation: string, paths: seq<string>) returns (r: Option<seq<BackupEntry>>)
    requires forall p :: p in paths ==> !BelowBackups(p)
    modifies store
    ensures store.tried >= old(store.tried)
    ensures r.Some? <==> store.AllDone(old(store.tried), store.tried)
    // It fails exactly when one of its copies does.
    ensures r.Some? <==> store.AllDone(old(store.tried), old(store.tried) + Existing(old(store.files), paths))
    ensures r.Some? ==> store.tried == old(store.tried) + Existing(old(store.files), paths)
    ensures r.Some? ==> Entries(old(store.files), paths, r.value)
    ensures r.Some? ==> HoldsBackup(old(store.files), store.files, generation, paths)
    ensures forall p :: !BelowBackups(p) ==> SameAt(old(store.files), store.files, p)
  {
    var entries: seq<BackupEntry> := [];
    for i := 0 to |paths|
      invariant store.tried == old(store.tried) + Existing(old(store.files), paths[..i])
      invariant store.AllDone(old(store.tried), store.tried)
      invariant Entries(old(store.files), paths[..i], entries)
      invariant HoldsBackup(old(store.files), store.files, generation, paths[..i])
      invariant forall p :: !BelowBackups(p) ==> SameAt(old(store.files), store.files, p)
    {
      var relative := paths[i];
      assert SameAt(old(store.files), store.files, relative);
      assert paths[..i + 1][..i] == paths[..i];
      ExistingGrows(old(store.files), paths, i + 1);
      var contents := ReadOption(store.files, relative);
      ghost var previous := store.files;
      if contents.Some? {
        BackupsAreBelowBackups(generation, relative, relative);
        var ok := store.Write(BackupPath(generation, relative), contents.value);
        forall p | !BelowBackups(p) ensures SameAt(old(store.files), store.files, p) {
          assert SameAt(old(store.files), previous, p);
        }
        if !ok {
          return None;
        }
        forall p | p in paths[..i + 1] && p in old(store.files)
          ensures BackupPath(generation, p) in store.files && store.files[BackupPath(generation, p)] == old(store.files)[p]
        {
          BackupsAreBelowBackups(generation, p, relative);
          assert p == relative || p in paths[..i];
        }
      }
      entries := entries + [BackupEntry(relative, contents)];
    }
    assert paths[..|paths|] == paths;
    r := Some(entries);
  }

  /** Puts back contents and absence alike; stops at the first failure. */
  method Restore(store: FileStore<string>, entries: seq<BackupEntry>, ghost before: Files, ghost paths: seq<string>) returns (ok: bool)
    requires Entries(before, paths, entries)
    modifies store
    ensures store.tried >= old(store.tried)
    ensures ok <==> store.AllDone(old(store.tried), store.tried)
    ensures ok ==> forall p :: p in paths ==> SameAt(before, store.files, p)
    ensures forall p :: p !in paths ==> SameAt(old(store.files), store.files, p)
  {
    for i := 0 to |entries|
      invariant store.tried >= old(store.tried)
      invariant store.AllDone(old(store.tried), store.tried)
      invariant forall p :: p in paths[..i] ==> SameAt(before, store.files, p)
      invariant forall p :: p !in paths ==> SameAt(old(store.files), store.files, p)
    {
      var entry := entries[i];
      ghost var previous := store.files;
      ok := true;
      if entry.contents.Some? {
        ok := store.Write(entry.relative, entry.contents.value);
      } else if entry.relative in store.files {
        ok := store.Remove(entry.relative);
      }
      forall p | p !in paths ensures SameAt(old(store.files), store.files, p) {
        assert SameAt(old(store.files), previous, p) && p != entry.relative;
      }
      if !ok {
        return;
      }
      forall p | p in paths[..i + 1] ensures SameAt(before, store.files, p) {
        assert p == entry.relative || (p in paths[..i] && SameAt(before, previous, p));
      }
    }
    assert paths[..|paths|] == paths;
    ok := true;
  }

  // ---------------------------------------------------------------- the update

  lemma OwnPathsStartWithE()
    ensures SERVICE_UNIT[0] == SOCKET_UNIT[0] == DEPLOY_HOOK[0] == 'e'
  {
    assert UNIT_DIRECTORY[0] == 'e' && HOOK_DIRECTORY[0] == 'e';
    assert SERVICE_UNIT[0] == UNIT_DIRECTORY[0] && SOCKET_UNIT[0] == UNIT_DIRECTORY[0] && DEPLOY_HOOK[0] == HOOK_DIRECTORY[0];
  }

  /**
    Of the managed paths a restart may rewrite exactly the service unit, the socket
    unit and the hook: no binary, configuration, accounting state, artifact or
    certificate.
   */
  lemma RestartSparesTheRest(directHost: Option<string>, i: nat)
    requires i < |RollbackPaths(directHost)|
    ensures MayRewrite(RollbackPaths(directHost)[i]) <==> i == 10 || i == 11 || i == 14
  {
    assert MANAGED_PATHS[10] == SERVICE_UNIT && MANAGED_PATHS[11] == SOCKET_UNIT && MANAGED_PATHS[14] == DEPLOY_HOOK;
    if i != 10 && i != 11 && i != 14 {
      OthersAreNotRewritten(directHost, i);
    }
  }

  lemma OthersAreNotRewritten(directHost: Option<string>, i: nat)
    requires i < |RollbackPaths(directHost)| && i != 10 && i != 11 && i != 14
    ensures !MayRewrite(RollbackPaths(directHost)[i])
  {
    OwnPathsStartWithE();
    assert UNIT_DIRECTORY[5] == 'y' && HOOK_DIRECTORY[5] == 'e';
    assert SERVICE_UNIT[5] == SOCKET_UNIT[5] == 'y' && DEPLOY_HOOK[5] == 'e';
    if i >= |MANAGED_PATHS| {
      assert CERTIFICATES[0] == 'v' && (CERTIFICATES + directHost.value)[0] == 'v';
    }
  }

  /** At every path the files are what the step leaves. */
  ghost predicate LeftBy(step: Step, files: Files, paths: seq<string>) {
    forall p :: p in paths ==> SameAt(step.files, files, p)
  }

  /**
    After a rollback whose restart succeeds on the live host, every managed path
    is as it was before the update if and only if units and hook were in line
    with the subscription mode then.
   */
  lemma RollbackIsExactIff(before: Files, after: Files, restarts: Restarts, paths: seq<string>)
    requires LeftBy(restarts.Second(before), after, paths)
    requires SERVICE_UNIT in paths && SOCKET_UNIT in paths && DEPLOY_HOOK in paths
    requires restarts.second.live && restarts.Second(before).ok
    ensures Unchanged(before, after, paths) <==> InLine(before, restarts.direct, restarts.texts)
  {
    var step := restarts.Second(before);
    SuccessBringsInLine(before, restarts.direct, restarts.texts, restarts.second);
    if InLine(before, restarts.direct, restarts.texts) {
      InLineIsLeftAlone(before, restarts.direct, restarts.texts, restarts.second);
    }
    if Unchanged(before, after, paths) {
      assert SameAt(before, after, SERVICE_UNIT) && SameAt(step.files, after, SERVICE_UNIT);
      assert SameAt(before, after, SOCKET_UNIT) && SameAt(step.files, after, SOCKET_UNIT);
      assert SameAt(before, after, DEPLOY_HOOK) && SameAt(step.files, after, DEPLOY_HOOK);
    }
  }

  /** In line, they are left alone however the rollback's restart goes. */
  lemma RollbackOfFilesInLineIsExact(before: Files, after: Files, restarts: Restarts, paths: seq<string>)
    requires LeftBy(restarts.Second(before), after, paths) && InLine(before, restarts.direct, restarts.texts)
    ensures Unchanged(before, after, paths)
  {
    InLineIsLeftAlone(before, restarts.direct, restarts.texts, restarts.second);
  }

  /** Every path of the update is as it was. */
  ghost predicate Unchanged(before: Files, files: Files, paths: seq<string>) {
    forall p :: p in paths ==> SameAt(before, files, p)
  }

  ghost predicate BackupsUntouched(saved: Files, files: Files) {
    forall p :: BelowBackups(p) ==> SameAt(saved, files, p)
  }

  /** The first binary write is not rolled back: it alone may have landed. */
  ghost predicate FirstWriteFailed(before: Files, after: Files, paths: seq<string>, sbctl: Bytes, landed: bool) {
    && (forall p :: p in paths && p != SBCTL ==> SameAt(before, after, p))
    && (if landed then SBCTL in after && after[SBCTL] == sbctl else SameAt(before, after, SBCTL))
  }

  /** Both binaries are new, and everything else is what the restart makes of the old files. */
  ghost predicate Replaced(before: Files, after: Files, paths: seq<string>, sbctl: Bytes, singBox: Bytes, restarts: Restarts) {
    && SBCTL in after && after[SBCTL] == sbctl
    && SING_BOX in after && after[SING_BOX] == singBox
    && (forall p :: p in paths && p != SBCTL && p != SING_BOX ==> SameAt(restarts.First(before).files, after, p))
  }

  /** Writes both binaries; a failure of the first is not rolled back, one of the second is. */
  method ReplaceBinaries(store: FileStore<string>, entries: seq<BackupEntry>, sbctl: Bytes, singBox: Bytes,
                         ghost before: Files, ghost paths: seq<string>)
    returns (failed: Option<Error>)
    requires Entries(before, paths, entries) && Unchanged(before, store.files, paths)
    requires SBCTL in paths && SING_BOX in paths && SBCTL != SING_BOX
    requires forall p :: p in paths ==> !BelowBackups(p)
    modifies store
    ensures store.tried >= old(store.tried)
    ensures BackupsUntouched(old(store.files), store.files)
    // Which of the two writes fails decides.
    ensures var t := old(store.tried);
            failed == if store.outcome(t) != Done then Some(BinaryStorage(SBCTL))
                      else if store.outcome(t + 1) != Done then Some(BinaryStorage(SING_BOX))
                      else None
    ensures failed.Some? ==> !store.AllDone(old(store.tried), store.tried)
    ensures failed.None? ==> store.tried == old(store.tried) + 2
    ensures failed == Some(BinaryStorage(SBCTL)) ==>
              FirstWriteFailed(before, store.files, paths, sbctl, store.outcome(old(store.tried)) == DoneButFailed)
    ensures failed == Some(BinaryStorage(SING_BOX)) && store.OneFailure(old(store.tried), store.tried) ==>
              Unchanged(before, store.files, paths)
    ensures failed.None? ==>
              && store.AllDone(old(store.tried), store.tried)
              && SBCTL in store.files && store.files[SBCTL] == sbctl
              && SING_BOX in store.files && store.files[SING_BOX] == singBox
              && (forall p :: p in paths && p != SBCTL && p != SING_BOX ==> SameAt(before, store.files, p))
  {
    ghost var start := store.files;
    var ok := store.Write(SBCTL, sbctl);
    assert forall p :: p != SBCTL ==> SameAt(start, store.files, p);
    assert forall p :: p in paths ==> SameAt(before, start, p);
    if !ok {
      return Some(BinaryStorage(SBCTL));
    }
    ghost var failure := store.tried;
    ok := store.Write(SING_BOX, singBox);
    assert forall p :: p != SBCTL && p != SING_BOX ==> SameAt(start, store.files, p);
    if !ok {
      ghost var written := store.files;
      var restored := Restore(store, entries, before, paths);
      assert store.outcome(failure) != Done && old(store.tried) <= failure < store.tried;
      assert store.OneFailure(old(store.tried), store.tried) ==> store.AllDone(failure + 1, store.tried);
      forall p | BelowBackups(p) ensures SameAt(start, store.files, p) {
        assert p !in paths;
        assert SameAt(written, store.files, p) && SameAt(start, written, p);
      }
      return Some(BinaryStorage(SING_BOX));
    }
    failed := None;
  }

  /** Restarts; a failed restart restores the backup and restarts again. */
  method RestartOrRestore(store: FileStore<string>, entries: seq<BackupEntry>, restarts: Restarts,
                          ghost before: Files, ghost paths: seq<string>)
    returns (failed: Option<Error>)
    requires Entries(before, paths, entries)
    requires forall p :: p in paths ==> !BelowBackups(p)
    requires SERVICE_UNIT in paths && SOCKET_UNIT in paths && DEPLOY_HOOK in paths
    modifies store
    ensures store.tried >= old(store.tried)
    ensures BackupsUntouched(old(store.files), store.files)
    ensures failed.None? <==> restarts.First(old(store.files)).ok
    ensures failed.None? ==> store.tried == old(store.tried) && store.files == restarts.First(old(store.files)).files
    ensures failed.Some? ==> failed.value == if store.AllDone(old(store.tried), store.tried) then ServiceHealth else RollbackFailed
    // What is left is what the second restart makes of the old contents, whatever the first did.
    ensures failed == Some(ServiceHealth) ==> LeftBy(restarts.Second(before), store.files, paths)
  {
    ghost var start := store.files;
    var ok := RestartServices(store, restarts.direct, restarts.texts, restarts.first);
    ghost var restarted := store.files;
    RestartSparesBackups(start, restarts.direct, restarts.texts, restarts.first);
    if ok {
      return None;
    }
    ok := Restore(store, entries, before, paths);
    ghost var restored := store.files;
    forall p | BelowBackups(p) ensures SameAt(start, restored, p) {
      assert p !in paths;
      assert SameAt(restarted, restored, p) && SameAt(start, restarted, p);
    }
    if !ok {
      return Some(RollbackFailed);
    }
    var _ := RestartServices(store, restarts.direct, restarts.texts, restarts.second);
    RestartSparesBackups(restored, restarts.direct, restarts.texts, restarts.second);
    RestartedAlike(before, restored, restarts.direct, restarts.texts, restarts.second, paths);
    forall p | BelowBackups(p) ensures SameAt(start, store.files, p) {
      assert SameAt(start, restored, p) && SameAt(restored, store.files, p);
    }
    failed := Some(ServiceHealth);
  }

  lemma RestartSparesBackups(files: Files, direct: bool, texts: Texts, a: Attempt)
    ensures BackupsUntouched(files, AfterRestart(files, direct, texts, a).files)
  {
    forall p | BelowBackups(p) ensures SameAt(files, AfterRestart(files, direct, texts, a).files, p) {
      RestartTouchesNothingElse(files, direct, texts, a, p);
    }
  }

  lemma RestartedAlike(one: Files, other: Files, direct: bool, texts: Texts, a: Attempt, paths: seq<string>)
    requires SERVICE_UNIT in paths && SOCKET_UNIT in paths && DEPLOY_HOOK in paths
    requires forall p :: p in paths ==> SameAt(one, other, p)
    ensures LeftBy(AfterRestart(one, direct, texts, a), AfterRestart(other, direct, texts, a).files, paths)
  {
    forall p | p in paths ensures SameAt(AfterRestart(one, direct, texts, a).files, AfterRestart(other, direct, texts, a).files, p) {
      RestartedAlikeAt(one, other, direct, texts, a, p);
    }
  }

  /** The update once the rollback point is complete. */
  method ReplaceAndRestart(store: FileStore<string>, entries: seq<BackupEntry>, sbctl: Bytes, singBox: Bytes,
                           restarts: Restarts, ghost before: Files, ghost paths: seq<string>)
    returns (failed: Option<Error>)
    requires Entries(before, paths, entries) && Unchanged(before, store.files, paths)
    requires SBCTL in paths && SING_BOX in paths && SBCTL != SING_BOX && !MayRewrite(SBCTL) && !MayRewrite(SING_BOX)
    requires SERVICE_UNIT in paths && SOCKET_UNIT in paths && DEPLOY_HOOK in paths
    requires forall p :: p in paths ==> !BelowBackups(p)
    modifies store
    ensures store.tried >= old(store.tried)
    ensures BackupsUntouched(old(store.files), store.files)
    ensures failed == ReplacementVerdict(old(store.tried), store.outcome, restarts.First(before).ok, store.tried)
    ensures Ends(before, store.files, paths, sbctl, singBox, restarts,
                 store.outcome(old(store.tried)) == DoneButFailed, store.OneFailure(old(store.tried), store.tried), failed)
  {
    ghost var start := store.files;
    failed := ReplaceBinaries(store, entries, sbctl, singBox, before, paths);
    if failed.Some? {
      return;
    }
    ghost var replaced, replacedAt := store.files, store.tried;
    failed := RestartOrRestore(store, entries, restarts, before, paths);
    forall p | BelowBackups(p) ensures SameAt(start, store.files, p) {
      assert SameAt(start, replaced, p) && SameAt(replaced, store.files, p);
    }
    GoodStart(store.outcome, old(store.tried), replacedAt, store.tried);
    UpdatedAfterRestart(before, replaced, restarts.direct, restarts.texts, restarts.first, paths);
  }

  /**
    The error is decided by the first step that fails: one of the copies, a
    binary, the restart, or the restore after it. `until` is where the tries end.
   */
  ghost function Verdict(first: nat, copies: nat, outcome: nat -> Outcome, restarted: bool, until: nat): Option<Error> {
    if AllWell(outcome, first, first + copies) then ReplacementVerdict(first + copies, outcome, restarted, until)
    else Some(BackupFailed)
  }

  ghost function ReplacementVerdict(first: nat, outcome: nat -> Outcome, restarted: bool, until: nat): Option<Error> {
    if outcome(first) != Done then Some(BinaryStorage(SBCTL))
    else if outcome(first + 1) != Done then Some(BinaryStorage(SING_BOX))
    else if restarted then None
    else if AllWell(outcome, first, until) then Some(ServiceHealth)
    else Some(RollbackFailed)
  }

  /**
    What each end leaves at the managed paths. A failed second write is undone
    if nothing else fails; after a failed restart they hold what the rollback's
    restart makes of their old contents.
   */
  ghost predicate Ends(before: Files, after: Files, paths: seq<string>, sbctl: Bytes, singBox: Bytes, restarts: Restarts,
                       landed: bool, oneFailure: bool, failed: Option<Error>) {
    match failed
    case None => Replaced(before, after, paths, sbctl, singBox, restarts)
    case Some(NotReady) => after == before
    case Some(BackupFailed) => Unchanged(before, after, paths)
    case Some(BinaryStorage(binary)) =>
      if binary == SBCTL then FirstWriteFailed(before, after, paths, sbctl, landed)
      else oneFailure ==> Unchanged(before, after, paths)
    case Some(ServiceHealth) => LeftBy(restarts.Second(before), after, paths)
    case Some(RollbackFailed) => true
  }

  /**
    The whole outcome of an update whose tries run from `first` to `until`: the
    error, what the managed paths hold, and a rollback point that is complete and
    stays so once binaries are being replaced.
   */
  ghost predicate Updated(before: Files, after: Files, generation: string, paths: seq<string>, sbctl: Bytes, singBox: Bytes,
                          restarts: Restarts, outcome: nat -> Outcome, first: nat, until: nat, failed: Option<Error>) {
    var copies := Existing(before, paths);
    && failed == Verdict(first, copies, outcome, restarts.First(before).ok, until)
    && Ends(before, after, paths, sbctl, singBox, restarts,
            outcome(first + copies) == DoneButFailed, AtMostOneFailure(outcome, first, until), failed)
    && (failed != Some(BackupFailed) ==> HoldsBackup(before, after, generation, paths))
  }

  /** The paths hold the binaries and the restart's files, and no backups. */
  ghost predicate Manageable(paths: seq<string>) {
    && SBCTL in paths && SING_BOX in paths && SBCTL != SING_BOX && !MayRewrite(SBCTL) && !MayRewrite(SING_BOX)
    && SERVICE_UNIT in paths && SOCKET_UNIT in paths && DEPLOY_HOOK in paths
    && forall p :: p in paths ==> !BelowBackups(p)
  }

  lemma RollbackPathsAreManageable(directHost: Option<string>)
    ensures Manageable(RollbackPaths(directHost))
  {
    forall p | p in RollbackPaths(directHost) ensures !BelowBackups(p) {
      ManagedPathsAreNotBackups(directHost, p);
    }
  }

  /** The update of any list of managed paths. */
  method UpdatePaths(store: FileStore<string>, generation: string, paths: seq<string>, sbctl: Bytes, singBox: Bytes, restarts: Restarts)
    returns (failed: Option<Error>)
    requires Manageable(paths)
    modifies store
    ensures Updated(old(store.files), store.files, generation, paths, sbctl, singBox, restarts,
                    store.outcome, old(store.tried), store.tried, failed)
  {
    var backup := Backup(store, generation, paths);
    if backup.None? {
      return Some(BackupFailed);
    }
    ghost var saved, savedAt := store.files, store.tried;
    failed := ReplaceAndRestart(store, backup.value, sbctl, singBox, restarts, old(store.files), paths);
    BackupOutlives(old(store.files), saved, store.files, generation, paths);
    AfterGoodBackup(old(store.files), store.files, generation, paths, sbctl, singBox, restarts, store.outcome,
                    old(store.tried), savedAt, store.tried, failed);
  }

  lemma AfterGoodBackup(before: Files, after: Files, generation: string, paths: seq<string>, sbctl: Bytes, singBox: Bytes,
                        restarts: Restarts, outcome: nat -> Outcome, first: nat, saved: nat, until: nat, failed: Option<Error>)
    requires saved == first + Existing(before, paths) && saved <= until && AllWell(outcome, first, saved)
    requires failed == ReplacementVerdict(saved, outcome, restarts.First(before).ok, until)
    requires Ends(before, after, paths, sbctl, singBox, restarts, outcome(saved) == DoneButFailed, AtMostOneFailure(outcome, saved, until), failed)
    requires HoldsBackup(before, after, generation, paths)
    ensures Updated(before, after, generation, paths, sbctl, singBox, restarts, outcome, first, until, failed)
  {
    GoodStart(outcome, first, saved, until);
    SameVerdict(saved, outcome, restarts.First(before).ok, first, until);
    assert AtMostOneFailure(outcome, first, until) == AtMostOneFailure(outcome, saved, until);
  }

  lemma SameVerdict(saved: nat, outcome: nat -> Outcome, restarted: bool, first: nat, until: nat)
    requires first <= saved && AllWell(outcome, first, saved)
    ensures Verdict(first, saved - first, outcome, restarted, until) == ReplacementVerdict(saved, outcome, restarted, until)
  {
  }

  /**
    `ready` stands for the signature, digest, candidate and configuration checks;
    the restarts follow the replacement and a rollback.
   */
  method Apply(store: FileStore<string>, ready: bool, directHost: Option<string>, generation: string,
               sbctl: Bytes, singBox: Bytes, texts: Texts, first: Attempt, second: Attempt)
    returns (failed: Option<Error>)
    modifies store
    ensures !ready ==> failed == Some(NotReady) && store.files == old(store.files)
    ensures ready ==>
              Updated(old(store.files), store.files, generation, RollbackPaths(directHost), sbctl, singBox,
                      Restarts(directHost.Some?, texts, first, second), store.outcome, old(store.tried), store.tried, failed)
  {
    if !ready {
      return Some(NotReady);
    }
    RollbackPathsAreManageable(directHost);
    failed := UpdatePaths(store, generation, RollbackPaths(directHost), sbctl, singBox, Restarts(directHost.Some?, texts, first, second));
  }

  /** A restart over the new binaries is a restart over the old files, but for the binaries. */
  lemma UpdatedAfterRestart(before: Files, replaced: Files, direct: bool, texts: Texts, a: Attempt, paths: seq<string>)
    requires forall p :: p in paths && p != SBCTL && p != SING_BOX ==> SameAt(before, replaced, p)
    requires SERVICE_UNIT in paths && SOCKET_UNIT in paths && DEPLOY_HOOK in paths
    requires !MayRewrite(SBCTL) && !MayRewrite(SING_BOX)
    ensures AfterRestart(replaced, direct, texts, a).ok == AfterRestart(before, direct, texts, a).ok
    ensures forall p :: p in paths && p != SBCTL && p != SING_BOX ==>
              SameAt(AfterRestart(before, direct, texts, a).files, AfterRestart(replaced, direct, texts, a).files, p)
    ensures SameAt(replaced, AfterRestart(replaced, direct, texts, a).files, SBCTL)
    ensures SameAt(replaced, AfterRestart(replaced, direct, texts, a).files, SING_BOX)
  {
    assert SameOwnFiles(before, replaced);
    RestartDependsOnItsFiles(before, replaced, direct, texts, a);
    forall p | p in paths && p != SBCTL && p != SING_BOX
      ensures SameAt(AfterRestart(before, direct, texts, a).files, AfterRestart(replaced, direct, texts, a).files, p)
    {
      RestartedAlikeAt(before, replaced, direct, texts, a, p);
    }
    RestartTouchesNothingElse(replaced, direct, texts, a, SBCTL);
    RestartTouchesNothingElse(replaced, direct, texts, a, SING_BOX);
  }

  /** Copies of the rollback point survive whatever changes elsewhere. */
  lemma BackupOutlives(before: Files, saved: Files, files: Files, generation: string, paths: seq<string>)
    requires HoldsBackup(before, saved, generation, paths)
    requires BackupsUntouched(saved, files)
    ensures HoldsBackup(before, files, generation, paths)
  {
    forall p | p in paths && p in before
      ensures BackupPath(generation, p) in files && files[BackupPath(generation, p)] == before[p]
    {
      BackupsAreBelowBackups(generation, p, p);
    }
  }

  // ---------------------------------------------------------------- two runs

  /** Everything goes well on the live host, up to the services coming up. */
  function LiveAttempt(started: bool): Attempt { Attempt(true, true, true, true, true, true, true, started) }

  /**
    A run of a failed update in Direct mode on a host without the certificate
    hook: the failed restart creates it, the restore removes it, and the restart
    after the rollback creates it again.
   */
  method RollbackCreatesTheMissingHook() returns (failed: Option<Error>, hook: Option<Bytes>)
    ensures failed == Some(ServiceHealth) && hook == Some([4])
  {
    var texts := Texts([1], [2], [3], [4], b => true, b => true, b => true);
    var files := map[SERVICE_UNIT := [1], SOCKET_UNIT := [3]];
    var paths := [SERVICE_UNIT, SOCKET_UNIT, DEPLOY_HOOK];
    var entries := [BackupEntry(SERVICE_UNIT, Some([1])), BackupEntry(SOCKET_UNIT, Some([3])), BackupEntry(DEPLOY_HOOK, None)];
    OwnPathsDiffer();
    OwnPathsStartWithE();
    var store := new FileStore<string>(files, _ => Done);
    assert paths[0] in paths && paths[1] in paths && paths[2] in paths;
    failed := RestartOrRestore(store, entries, Restarts(true, texts, LiveAttempt(false), LiveAttempt(true)), files, paths);
    hook := ReadOption(store.files, DEPLOY_HOOK);
  }

  /** A run in which the first binary write lands, is reported as failed, and stays. */
  method ALandedBinaryStays(first: Attempt, second: Attempt, texts: Texts) returns (failed: Option<Error>, binary: Option<Bytes>)
    ensures failed == Some(BinaryStorage(SBCTL)) && binary == Some([2])
  {
    var store := new FileStore<string>(map[], k => if k == 0 then DoneButFailed else Done);
    NothingExists(RollbackPaths(None));
    failed := Apply(store, true, None, "1", [2], [3], texts, first, second);
    binary := ReadOption(store.files, SBCTL);
  }

  lemma {:induction false} NothingExists(paths: seq<string>)
    ensures Existing(map[], paths) == 0
  {
    if paths != [] {
      NothingExists(paths[..|paths| - 1]);
    }
  }

  // ---------------------------------------------------------------- rollback history

  function Newest(sorted: seq<string>): seq<string> {
    if |sorted| <= ROLLBACK_GENERATIONS_KEPT then sorted else sorted[|sorted| - ROLLBACK_GENERATIONS_KEPT..]
  }

  /** The generations whose names sort after this one. */
  function Newer(generations: set<string>, g: string): set<string> { set h | h in generations && Less(g, h) }

  lemma NewerAreAfter(sorted: seq<string>, i: nat)
    requires Sorted(sorted) && i < |sorted|
    ensures Newer(Elements(sorted), sorted[i]) == Elements(sorted[i + 1..])
  {
    forall h ensures h in Newer(Elements(sorted), sorted[i]) <==> h in Elements(sorted[i + 1..]) {
      if h in Newer(Elements(sorted), sorted[i]) {
        var j :| 0 <= j < |sorted| && sorted[j] == h;
        if j < i {
          LessEqAntisymmetric(sorted[i], h);
        }
        assert sorted[i + 1..][j - (i + 1)] == h;
      }
    }
  }

  lemma {:induction false} SortedHasItsSize(sorted: seq<string>)
    requires Sorted(sorted)
    ensures |Elements(sorted)| == |sorted|
  {
    if sorted != [] {
      TailElements(sorted);
      SortedHasItsSize(sorted[1..]);
      assert sorted[0] in Elements(sorted);
    }
  }

  /** A generation is among the newest exactly when fewer than three others are newer. */
  lemma NewestIff(sorted: seq<string>, g: string)
    requires Sorted(sorted) && g in sorted
    ensures g in Elements(Newest(sorted)) <==> |Newer(Elements(sorted), g)| < ROLLBACK_GENERATIONS_KEPT
  {
    var i :| 0 <= i < |sorted| && sorted[i] == g;
    NewerAreAfter(sorted, i);
    SortedHasItsSize(sorted[i + 1..]);
    var first := |sorted| - |Newest(sorted)|;
    assert Newest(sorted) == sorted[first..];
    if i >= first {
      assert Newest(sorted)[i - first] == g;
    }
  }

  /** Removes all but the newest generations; a generation that cannot be removed is skipped. */
  method PruneRollbackHistory(listing: seq<string>, removable: string -> bool) returns (left: set<string>)
    requires forall i, j :: 0 <= i < j < |listing| ==> listing[i] != listing[j]
    ensures left == LeftByPruning(SortNames(listing), removable) && left <= Elements(listing)
    ensures forall g :: g in left <==> g in listing && (!removable(g) || |Newer(Elements(listing), g)| < ROLLBACK_GENERATIONS_KEPT)
  {
    var generations := SortNames(listing);
    forall g ensures g in listing <==> g in Elements(generations) {
      assert g in listing <==> g in Elements(listing);
    }
    forall g | g in listing
      ensures g in Elements(Newest(generations)) <==> |Newer(Elements(listing), g)| < ROLLBACK_GENERATIONS_KEPT
    {
      NewestIff(generations, g);
    }
    var surplus := if |generations| <= ROLLBACK_GENERATIONS_KEPT then 0 else |generations| - ROLLBACK_GENERATIONS_KEPT;
    left := RemoveOldest(generations, surplus, removable);
  }

  /** The newest generations and those that cannot be removed. */
  function LeftByPruning(sorted: seq<string>, removable: string -> bool): set<string> {
    LeftFrom(sorted, Newest(sorted), removable)
  }

  function LeftFrom(sorted: seq<string>, kept: seq<string>, removable: string -> bool): set<string> {
    set g | g in Elements(sorted) && (g in Elements(kept) || !removable(g))
  }

  method RemoveOldest(generations: seq<string>, surplus: nat, removable: string -> bool) returns (left: set<string>)
    requires Sorted(generations) && surplus <= |generations|
    ensures left == LeftFrom(generations, generations[surplus..], removable)
  {
    left := Elements(generations);
    assert generations[0..] == generations;
    for i := 0 to surplus
      invariant left == LeftFrom(generations, generations[i..], removable)
    {
      if removable(generations[i]) {
        left := left - {generations[i]};
      }
    }
  }

  /** Generation names are nanosecond counts: of one width, the latest is among the newest. */
  lemma LatestGenerationIsKept(sorted: seq<string>, latest: string)
    requires Sorted(sorted) && latest in sorted
    requires AllDigits(latest)
    requires forall g :: g in sorted ==> AllDigits(g) && |g| == |latest|
    requires forall g :: g in sorted ==> DecimalValue(g) <= DecimalValue(latest)
    ensures latest in Newest(sorted)
    ensures latest == sorted[|sorted| - 1]
  {
    var i :| 0 <= i < |sorted| && sorted[i] == latest;
    LastIsLatest(sorted, i);
  }

  lemma LastIsLatest(sorted: seq<string>, i: nat)
    requires Sorted(sorted) && i < |sorted|
    requires forall g :: g in sorted ==> AllDigits(g) && |g| == |sorted[i]|
    requires forall g :: g in sorted ==> DecimalValue(g) <= DecimalValue(sorted[i])
    ensures sorted[i] == sorted[|sorted| - 1]
  {
    var last := sorted[|sorted| - 1];
    assert last in sorted;
    if i < |sorted| - 1 {
      EqualWidthOrder(last, sorted[i]);
      LessEqAntisymmetric(sorted[i], last);
    }
  }
}
