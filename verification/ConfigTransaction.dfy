/**
  Configuration, artifacts and active configuration replaced together, rolled
  back when a write fails, pruned when they succeed, restorable from a snapshot.
 */
module ConfigTransaction {
  import opened Wrappers
  import opened ManagedFiles

  const SING_BOX_SERVER_ARTIFACT: string := "sing-box-server.json"
  const OWNED_PREFIX: string := "subscription-"

  datatype Path = Config | Active | Artifact(name: string) | Foreign(name: string)

  type Files = map<Path, Bytes>

  datatype Generated = Generated(name: string, contents: Bytes)

  datatype Error =
    | InvalidConfig
    | GenerationFailed
    | NoServerArtifact
    | BinaryRequired
    | CheckFailed
    | ArtifactStorage
    | ActiveStorage
    | ConfigMissing
    | ConfigStorage

  /** The prior versions of everything the transaction can replace. */
  datatype Snapshot = Snapshot(config: Bytes, artifacts: seq<(string, Option<Bytes>)>, active: Option<Bytes>)

  predicate DistinctNames(artifacts: seq<Generated>) {
    forall i, j :: 0 <= i < j < |artifacts| ==> artifacts[i].name != artifacts[j].name
  }

  predicate Generates(artifacts: seq<Generated>, name: string) {
    exists i :: 0 <= i < |artifacts| && artifacts[i].name == name
  }

  /** Only names of this generator are eligible for removal. */
  predicate Owned(name: string) { OWNED_PREFIX <= name || name == SING_BOX_SERVER_ARTIFACT }

  function ReadOption(files: Files, p: Path): Option<Bytes> { if p in files then Some(files[p]) else None }

  function Priors(files: Files, artifacts: seq<Generated>): (r: seq<(string, Option<Bytes>)>)
    ensures |r| == |artifacts|
  {
    seq(|artifacts|, i requires 0 <= i < |artifacts| => (artifacts[i].name, ReadOption(files, Artifact(artifacts[i].name))))
  }

  function ServerOf(artifacts: seq<Generated>): Option<Bytes> {
    if artifacts == [] then None
    else if artifacts[0].name == SING_BOX_SERVER_ARTIFACT then Some(artifacts[0].contents)
    else ServerOf(artifacts[1..])
  }

  /** The contents of the generated server configuration, the first artifact with its name. */
  ghost predicate Serves(artifacts: seq<Generated>, contents: Bytes) {
    exists i: nat ::
      && i < |artifacts| && artifacts[i].name == SING_BOX_SERVER_ARTIFACT && artifacts[i].contents == contents
      && forall k :: 0 <= k < i ==> artifacts[k].name != SING_BOX_SERVER_ARTIFACT
  }

  /** The search finds the server configuration, and nothing exactly when none is generated. */
  lemma {:induction false} ServerIsFound(artifacts: seq<Generated>)
    ensures ServerOf(artifacts).Some? <==> Generates(artifacts, SING_BOX_SERVER_ARTIFACT)
    ensures forall contents :: Serves(artifacts, contents) <==> ServerOf(artifacts) == Some(contents)
  {
    if artifacts != [] {
      var rest := artifacts[1..];
      ServerIsFound(rest);
      forall i | 0 < i < |artifacts| ensures artifacts[i] == rest[i - 1] {}
      if artifacts[0].name != SING_BOX_SERVER_ARTIFACT {
        if Generates(artifacts, SING_BOX_SERVER_ARTIFACT) {
          var i :| 0 <= i < |artifacts| && artifacts[i].name == SING_BOX_SERVER_ARTIFACT;
          assert rest[i - 1].name == SING_BOX_SERVER_ARTIFACT;
        }
        forall contents ensures Serves(artifacts, contents) <==> Serves(rest, contents) {
          ServesLater(artifacts, contents);
        }
      }
    }
  }

  /** What the search gives tells whether there is anything to check. */
  lemma SearchDecides(files: Files, artifacts: seq<Generated>)
    ensures var server, active := ServerOf(artifacts), ReadOption(files, Active);
            var changed := exists i :: 0 <= i < |artifacts| && Priors(files, artifacts)[i].1 != Some(artifacts[i].contents);
            && (server.Some? <==> Generates(artifacts, SING_BOX_SERVER_ARTIFACT))
            && (server.Some? ==> Serves(artifacts, server.value))
            && (server.Some? ==> (NeedsCheck(files, Some(artifacts)) <==> changed || (active.Some? && (changed || active != server))))
  {
    ServerIsFound(artifacts);
    assert Active in files ==> (Serves(artifacts, files[Active]) <==> ServerOf(artifacts) == Some(files[Active]));
    ChangedIffNotWritten(files, artifacts);
  }

  lemma ChangedIffNotWritten(files: Files, artifacts: seq<Generated>)
    ensures (exists i :: 0 <= i < |artifacts| && Priors(files, artifacts)[i].1 != Some(artifacts[i].contents)) <==> !Written(files, artifacts)
  {
  }

  lemma ServesLater(artifacts: seq<Generated>, contents: Bytes)
    requires artifacts != [] && artifacts[0].name != SING_BOX_SERVER_ARTIFACT
    ensures Serves(artifacts, contents) <==> Serves(artifacts[1..], contents)
  {
    var rest := artifacts[1..];
    if Serves(artifacts, contents) {
      var i: nat :| i < |artifacts| && artifacts[i].name == SING_BOX_SERVER_ARTIFACT && artifacts[i].contents == contents
                    && forall k :: 0 <= k < i ==> artifacts[k].name != SING_BOX_SERVER_ARTIFACT;
      assert rest[i - 1] == artifacts[i];
      assert forall k :: 0 <= k < i - 1 ==> rest[k] == artifacts[k + 1];
    }
    if Serves(rest, contents) {
      var i: nat :| i < |rest| && rest[i].name == SING_BOX_SERVER_ARTIFACT && rest[i].contents == contents
                    && forall k :: 0 <= k < i ==> rest[k].name != SING_BOX_SERVER_ARTIFACT;
      assert artifacts[i + 1] == rest[i];
      assert forall k :: 0 < k < i + 1 ==> artifacts[k] == rest[k - 1];
    }
  }

  // ---------------------------------------------------------------- what a transaction leaves

  /** p holds the new contents of a generated artifact. */
  ghost predicate HoldsGenerated(files: Files, artifacts: seq<Generated>, p: Path) {
    p in files && exists i :: 0 <= i < |artifacts| && p == Artifact(artifacts[i].name) && files[p] == artifacts[i].contents
  }

  /** A file that existed is as it was; one that did not is absent still or is a generated artifact. */
  ghost predicate RolledBack(before: Files, after: Files, artifacts: seq<Generated>, p: Path) {
    SameAt(before, after, p) || (p !in before && HoldsGenerated(after, artifacts, p))
  }

  ghost predicate Written(after: Files, artifacts: seq<Generated>) {
    forall i :: 0 <= i < |artifacts| ==>
      Artifact(artifacts[i].name) in after && after[Artifact(artifacts[i].name)] == artifacts[i].contents
  }

  /** A superseded artifact: owned and no longer generated. */
  predicate Stale(artifacts: seq<Generated>, p: Path) {
    p.Artifact? && Owned(p.name) && !Generates(artifacts, p.name)
  }

  /** The active configuration is the generated server configuration, the one now stored under its name. */
  ghost predicate RunsTheServer(files: Files, artifacts: seq<Generated>) {
    && Active in files && Artifact(SING_BOX_SERVER_ARTIFACT) in files
    && files[Active] == files[Artifact(SING_BOX_SERVER_ARTIFACT)]
    && Generates(artifacts, SING_BOX_SERVER_ARTIFACT)
    && forall i :: 0 <= i < |artifacts| && artifacts[i].name == SING_BOX_SERVER_ARTIFACT ==> files[Active] == artifacts[i].contents
  }

  /** The deployment after a successful transaction. */
  ghost predicate Applied(before: Files, after: Files, artifacts: seq<Generated>, config: Bytes) {
    && Config in before && Config in after && after[Config] == config
    && Written(after, artifacts)
    && (Active in before <==> Active in after)
    && (Active in before ==> RunsTheServer(after, artifacts))
    && (forall p :: Stale(artifacts, p) && p in after ==> p in before && after[p] == before[p])
    && (forall p :: p != Config && p != Active && !Stale(artifacts, p) && !(p.Artifact? && Generates(artifacts, p.name)) ==>
          SameAt(before, after, p))
  }

  // ---------------------------------------------------------------- steps

  method WriteArtifacts(store: FileStore<Path>, artifacts: seq<Generated>) returns (ok: bool)
    requires DistinctNames(artifacts)
    modifies store
    ensures store.tried >= old(store.tried)
    ensures forall p :: SameAt(old(store.files), store.files, p) || HoldsGenerated(store.files, artifacts, p)
    ensures ok <==> store.AllDone(old(store.tried), store.tried)
    ensures ok ==> Written(store.files, artifacts) && store.tried == old(store.tried) + |artifacts|
    ensures !ok ==> old(store.tried) < store.tried <= old(store.tried) + |artifacts|
                    && store.AllDone(old(store.tried), store.tried - 1) && store.outcome(store.tried - 1) != Done
  {
    for i := 0 to |artifacts|
      invariant store.tried == old(store.tried) + i
      invariant store.AllDone(old(store.tried), store.tried)
      invariant forall p :: SameAt(old(store.files), store.files, p) || HoldsGenerated(store.files, artifacts, p)
      invariant Written(store.files, artifacts[..i])
    {
      ghost var before := store.files;
      ok := store.Write(Artifact(artifacts[i].name), artifacts[i].contents);
      forall p ensures SameAt(old(store.files), store.files, p) || HoldsGenerated(store.files, artifacts, p) {
        assert SameAt(old(store.files), before, p) || HoldsGenerated(before, artifacts, p);
      }
      if !ok {
        return;
      }
    }
    assert artifacts[..|artifacts|] == artifacts;
    ok := true;
  }

  predicate Restores(priors: seq<(string, Option<Bytes>)>, from: nat, p: Path) {
    exists i :: from <= i < |priors| && priors[i].1.Some? && p == Artifact(priors[i].0)
  }

  /** The prior versions from index i on are in place. */
  ghost predicate BackFrom(files: Files, artifacts: seq<(string, Option<Bytes>)>, i: nat) {
    forall j :: i <= j < |artifacts| && artifacts[j].1.Some? ==>
      Artifact(artifacts[j].0) in files && files[Artifact(artifacts[j].0)] == artifacts[j].1.value
  }

  /** How many files from index i on had a version before. */
  function VersionsFrom(priors: seq<(string, Option<Bytes>)>, i: nat): nat
    requires i <= |priors|
    decreases |priors| - i
  {
    if i == |priors| then 0 else (if priors[i].1.Some? then 1 else 0) + VersionsFrom(priors, i + 1)
  }

  /** From index i on every prior version whose own write, counted from `first`, went well is in place. */
  ghost predicate BackWhereWritten(files: Files, priors: seq<(string, Option<Bytes>)>, i: nat, outcome: nat -> Outcome, first: nat)
    requires i <= |priors|
  {
    forall j :: i <= j < |priors| && priors[j].1.Some? && outcome(first + VersionsFrom(priors, j + 1)) == Done ==>
      Artifact(priors[j].0) in files && files[Artifact(priors[j].0)] == priors[j].1.value
  }

  lemma {:induction false} VersionsBefore(priors: seq<(string, Option<Bytes>)>, i: nat, j: nat)
    requires i <= j < |priors| && priors[j].1.Some?
    ensures VersionsFrom(priors, j + 1) < VersionsFrom(priors, i)
    decreases j - i
  {
    if i < j {
      VersionsBefore(priors, i + 1, j);
    }
  }

  /** Best effort: writes the prior versions back, last first, past any write that fails. */
  method WriteBack(store: FileStore<Path>, priors: seq<(string, Option<Bytes>)>)
    requires forall i, j :: 0 <= i < j < |priors| ==> priors[i].0 != priors[j].0
    modifies store
    ensures store.tried == old(store.tried) + VersionsFrom(priors, 0)
    ensures BackWhereWritten(store.files, priors, 0, store.outcome, old(store.tried))
    ensures forall p :: !Restores(priors, 0, p) ==> SameAt(old(store.files), store.files, p)
  {
    var i := |priors|;
    while i > 0
      invariant 0 <= i <= |priors|
      invariant store.tried == old(store.tried) + VersionsFrom(priors, i)
      invariant BackWhereWritten(store.files, priors, i, store.outcome, old(store.tried))
      invariant forall p :: !Restores(priors, i, p) ==> SameAt(old(store.files), store.files, p)
    {
      ghost var before := store.files;
      i := i - 1;
      if priors[i].1.Some? {
        var _ := store.Write(Artifact(priors[i].0), priors[i].1.value);
        assert Restores(priors, i, Artifact(priors[i].0));
      }
      forall p | !Restores(priors, i, p) ensures SameAt(old(store.files), store.files, p) {
        assert !Restores(priors, i + 1, p);
        assert SameAt(old(store.files), before, p);
      }
    }
  }

  /** The rollback's writes: the artifacts that were there, then the active configuration if there was one. */
  method RestoreReplaced(store: FileStore<Path>, priors: seq<(string, Option<Bytes>)>, priorActive: Option<Bytes>)
    requires forall i, j :: 0 <= i < j < |priors| ==> priors[i].0 != priors[j].0
    modifies store
    ensures store.tried == old(store.tried) + VersionsFrom(priors, 0) + (if priorActive.Some? then 1 else 0)
    ensures BackWhereWritten(store.files, priors, 0, store.outcome, old(store.tried))
    ensures priorActive.Some? && store.outcome(store.tried - 1) == Done ==> Active in store.files && store.files[Active] == priorActive.value
    ensures forall p :: (p == Active ==> priorActive.None?) && !Restores(priors, 0, p) ==> SameAt(old(store.files), store.files, p)
  {
    WriteBack(store, priors);
    ghost var artifactsBack := store.files;
    if priorActive.Some? {
      var _ := store.Write(Active, priorActive.value);
    }
    forall p | (p == Active ==> priorActive.None?) && !Restores(priors, 0, p) ensures SameAt(old(store.files), store.files, p) {
      assert SameAt(old(store.files), artifactsBack, p);
    }
  }

  lemma AllWrittenAllBack(files: Files, priors: seq<(string, Option<Bytes>)>, outcome: nat -> Outcome, first: nat, until: nat)
    requires BackWhereWritten(files, priors, 0, outcome, first)
    requires AllWell(outcome, first, until) && first + VersionsFrom(priors, 0) <= until
    ensures BackFrom(files, priors, 0)
  {
    forall j | 0 <= j < |priors| && priors[j].1.Some? ensures outcome(first + VersionsFrom(priors, j + 1)) == Done {
      VersionsBefore(priors, 0, j);
    }
  }

  /** The rollback of whatever part of the transaction was written. */
  method Rollback(store: FileStore<Path>, ghost before: Files, artifacts: seq<Generated>,
                  priors: seq<(string, Option<Bytes>)>, priorActive: Option<Bytes>)
    requires DistinctNames(artifacts)
    requires priors == Priors(before, artifacts) && priorActive == ReadOption(before, Active)
    requires forall p :: p != Config && p != Active ==> SameAt(before, store.files, p) || HoldsGenerated(store.files, artifacts, p)
    requires Active !in before ==> Active !in store.files
    modifies store
    ensures store.tried >= old(store.tried)
    ensures SameAt(old(store.files), store.files, Config)
    ensures store.AllDone(old(store.tried), store.tried) ==>
              forall p :: p != Config ==> RolledBack(before, store.files, artifacts, p)
  {
    ghost var current := store.files;
    RestoreReplaced(store, priors, priorActive);
    assert SameAt(current, store.files, Config);
    if store.AllDone(old(store.tried), store.tried) {
      AllWrittenAllBack(store.files, priors, store.outcome, old(store.tried), store.tried);
      forall p | p != Config ensures RolledBack(before, store.files, artifacts, p) {
        RolledBackAt(before, current, store.files, artifacts, p);
      }
    }
  }

  lemma RolledBackAt(before: Files, current: Files, after: Files, artifacts: seq<Generated>, p: Path)
    requires DistinctNames(artifacts) && p != Config
    requires p != Active ==> SameAt(before, current, p) || HoldsGenerated(current, artifacts, p)
    requires Active !in before ==> Active !in current
    requires forall i :: 0 <= i < |artifacts| && Priors(before, artifacts)[i].1.Some? ==>
               Artifact(artifacts[i].name) in after && after[Artifact(artifacts[i].name)] == Priors(before, artifacts)[i].1.value
    requires Active in before ==> Active in after && after[Active] == before[Active]
    requires (p == Active ==> Active !in before) && !Restores(Priors(before, artifacts), 0, p) ==> SameAt(current, after, p)
    ensures RolledBack(before, after, artifacts, p)
  {
    if p in before && exists i :: 0 <= i < |artifacts| && p == Artifact(artifacts[i].name) {
      var i :| 0 <= i < |artifacts| && p == Artifact(artifacts[i].name);
      assert Priors(before, artifacts)[i].1 == Some(before[p]);
    }
  }

  /** Removes superseded artifacts in directory order until one removal fails. */
  method RemoveStaleArtifacts(store: FileStore<Path>, artifacts: seq<Generated>) returns (ok: bool)
    modifies store
    ensures store.tried >= old(store.tried)
    ensures ok <==> store.AllDone(old(store.tried), store.tried)
    ensures ok ==> forall p :: Stale(artifacts, p) ==> p !in store.files
    ensures forall p :: Stale(artifacts, p) && p in store.files ==> p in old(store.files) && store.files[p] == old(store.files)[p]
    ensures forall p :: !Stale(artifacts, p) ==> SameAt(old(store.files), store.files, p)
  {
    var entries := set p | p in store.files && p.Artifact?;
    while entries != {}
      invariant store.tried >= old(store.tried)
      invariant store.AllDone(old(store.tried), store.tried)
      invariant forall p :: Stale(artifacts, p) && p in store.files ==> p in entries
      invariant forall p :: p in entries ==> p.Artifact?
      invariant forall p :: Stale(artifacts, p) && p in store.files ==> p in old(store.files) && store.files[p] == old(store.files)[p]
      invariant forall p :: !Stale(artifacts, p) ==> SameAt(old(store.files), store.files, p)
      decreases entries
    {
      var entry :| entry in entries;
      entries := entries - {entry};
      if !Owned(entry.name) || Generates(artifacts, entry.name) {
        continue;
      }
      ok := store.Remove(entry);
      if !ok {
        return;
      }
    }
    ok := true;
  }

  // ---------------------------------------------------------------- the transaction

  /** The error is decided by the first try that fails: one of the artifacts, then the active configuration. */
  ghost function SyncVerdict(first: nat, artifacts: nat, active: bool, outcome: nat -> Outcome): Option<Error> {
    if !AllWell(outcome, first, first + artifacts) then Some(ArtifactStorage)
    else if active && outcome(first + artifacts) != Done then Some(ActiveStorage)
    else None
  }

  /** Writes the artifacts and, when asked to, the active configuration; rolls back at the first failure. */
  method Sync(store: FileStore<Path>, artifacts: seq<Generated>, server: Bytes, needActiveSync: bool) returns (failed: Option<Error>)
    requires DistinctNames(artifacts)
    requires needActiveSync ==> Active in store.files
    modifies store
    ensures store.tried >= old(store.tried)
    ensures failed.None? ==>
              && store.AllDone(old(store.tried), store.tried)
              && Written(store.files, artifacts)
              && (if needActiveSync then Active in store.files && store.files[Active] == server
                  else SameAt(old(store.files), store.files, Active))
              && (forall p :: p != Active ==> SameAt(old(store.files), store.files, p) || HoldsGenerated(store.files, artifacts, p))
    ensures failed == SyncVerdict(old(store.tried), |artifacts|, needActiveSync, store.outcome)
    ensures failed.None? ==> store.tried == old(store.tried) + |artifacts| + (if needActiveSync then 1 else 0)
    ensures failed.Some? && store.OneFailure(old(store.tried), store.tried) ==>
              forall p :: p != Config ==> RolledBack(old(store.files), store.files, artifacts, p)
    ensures SameAt(old(store.files), store.files, Config)
  {
    var priors := Priors(store.files, artifacts);
    var priorActive := ReadOption(store.files, Active);
    var written := WriteArtifacts(store, artifacts);
    assert SameAt(old(store.files), store.files, Config);
    assert SameAt(old(store.files), store.files, Active);
    if !written {
      ghost var failure := store.tried - 1;
      Rollback(store, old(store.files), artifacts, priors, priorActive);
      assert old(store.tried) <= failure < old(store.tried) + |artifacts| && store.outcome(failure) != Done;
      assert store.OneFailure(old(store.tried), store.tried) ==> store.AllDone(failure + 1, store.tried);
      return Some(ArtifactStorage);
    }
    if needActiveSync {
      ghost var failure, synced := store.tried, store.files;
      written := store.Write(Active, server);
      forall p | p != Active ensures SameAt(old(store.files), store.files, p) || HoldsGenerated(store.files, artifacts, p) {
        assert SameAt(old(store.files), synced, p) || HoldsGenerated(synced, artifacts, p);
      }
      if !written {
        Rollback(store, old(store.files), artifacts, priors, priorActive);
        assert store.OneFailure(old(store.tried), store.tried) ==> store.AllDone(failure + 1, store.tried);
        return Some(ActiveStorage);
      }
    }
    failed := None;
  }

  /** The files between the sync and the configuration write. */
  ghost predicate Synced(before: Files, files: Files, artifacts: seq<Generated>) {
    && Written(files, artifacts)
    && (Active in before <==> Active in files)
    && (Active in before ==> Serves(artifacts, files[Active]))
    && SameAt(before, files, Config)
    && (forall p :: p != Active ==> SameAt(before, files, p) || HoldsGenerated(files, artifacts, p))
  }

  /** Without a configuration there is nothing to replace; else its own write decides. */
  ghost function CommitVerdict(first: nat, hasConfig: bool, outcome: nat -> Outcome): Option<Error> {
    if !hasConfig then Some(ConfigMissing)
    else if outcome(first) != Done then Some(ConfigStorage)
    else None
  }

  /** Replaces the configuration over synced files, rolls back when that fails, prunes when it does not. */
  method Commit(store: FileStore<Path>, ghost before: Files, artifacts: seq<Generated>, priors: seq<(string, Option<Bytes>)>,
                priorActive: Option<Bytes>, config: Bytes)
    returns (failed: Option<Error>)
    requires DistinctNames(artifacts)
    requires priors == Priors(before, artifacts) && priorActive == ReadOption(before, Active)
    requires Synced(before, store.files, artifacts)
    modifies store
    ensures store.tried >= old(store.tried)
    ensures failed == CommitVerdict(old(store.tried), Config in before, store.outcome)
    ensures failed.Some? && (if failed.value == ConfigMissing then store.AllDone(old(store.tried), store.tried)
                             else store.OneFailure(old(store.tried), store.tried)) ==>
              && (forall p :: p != Config ==> RolledBack(before, store.files, artifacts, p))
              && (if failed.value == ConfigStorage && store.outcome(old(store.tried)) == DoneButFailed
                  then Config in store.files && store.files[Config] == config
                  else SameAt(before, store.files, Config))
    ensures failed.None? ==> Applied(before, store.files, artifacts, config)
    ensures failed.None? && store.AllDone(old(store.tried), store.tried) ==> forall p :: Stale(artifacts, p) ==> p !in store.files
  {
    if Config !in store.files {
      Rollback(store, before, artifacts, priors, priorActive);
      return Some(ConfigMissing);
    }
    ghost var failure, synced := store.tried, store.files;
    var replaced := store.Write(Config, config);
    forall p | p != Config && p != Active ensures SameAt(before, store.files, p) || HoldsGenerated(store.files, artifacts, p) {
      assert SameAt(before, synced, p) || HoldsGenerated(synced, artifacts, p);
    }
    if !replaced {
      ghost var current := store.files;
      Rollback(store, before, artifacts, priors, priorActive);
      if store.OneFailure(old(store.tried), store.tried) {
        assert store.AllDone(failure + 1, store.tried);
        assert SameAt(current, store.files, Config);
      }
      return Some(ConfigStorage);
    }
    ghost var committed := store.files;
    var _ := RemoveStaleArtifacts(store, artifacts);
    AppliedAfterPrune(before, committed, store.files, artifacts, config);
    failed := None;
  }

  lemma ServerIsActive(files: Files, artifacts: seq<Generated>)
    requires DistinctNames(artifacts) && Written(files, artifacts) && Active in files && Serves(artifacts, files[Active])
    ensures RunsTheServer(files, artifacts)
  {
    var i: nat :| i < |artifacts| && artifacts[i].name == SING_BOX_SERVER_ARTIFACT && artifacts[i].contents == files[Active]
                  && forall k :: 0 <= k < i ==> artifacts[k].name != SING_BOX_SERVER_ARTIFACT;
    assert files[Artifact(artifacts[i].name)] == artifacts[i].contents;
  }

  lemma AppliedAfterPrune(before: Files, committed: Files, after: Files, artifacts: seq<Generated>, config: Bytes)
    requires Config in before && Config in committed && committed[Config] == config
    requires DistinctNames(artifacts) && Written(committed, artifacts)
    requires Active in before <==> Active in committed
    requires Active in before ==> Serves(artifacts, committed[Active])
    requires forall p :: p != Config && p != Active ==> SameAt(before, committed, p) || HoldsGenerated(committed, artifacts, p)
    requires forall p :: Stale(artifacts, p) && p in after ==> p in committed && after[p] == committed[p]
    requires forall p :: !Stale(artifacts, p) ==> SameAt(committed, after, p)
    ensures Applied(before, after, artifacts, config)
  {
    assert SameAt(committed, after, Config) && SameAt(committed, after, Active);
    forall i | 0 <= i < |artifacts|
      ensures Artifact(artifacts[i].name) in after && after[Artifact(artifacts[i].name)] == artifacts[i].contents
    {
      assert SameAt(committed, after, Artifact(artifacts[i].name));
    }
    if Active in before {
      ServerIsActive(after, artifacts);
    }
    forall p | Stale(artifacts, p) && p in after ensures p in before && after[p] == before[p] {
      assert SameAt(before, committed, p) || HoldsGenerated(committed, artifacts, p);
    }
    forall p | p != Config && p != Active && !Stale(artifacts, p) && !(p.Artifact? && Generates(artifacts, p.name))
      ensures SameAt(before, after, p)
    {
      assert SameAt(committed, after, p);
      assert SameAt(before, committed, p) || HoldsGenerated(committed, artifacts, p);
    }
  }

  /** The generated artifacts or the active configuration are not all in place yet. */
  ghost predicate NeedsCheck(files: Files, generated: Option<seq<Generated>>) {
    && generated.Some? && Generates(generated.value, SING_BOX_SERVER_ARTIFACT)
    && (!Written(files, generated.value) || (Active in files && !Serves(generated.value, files[Active])))
  }

  /** Why a transaction is refused before its first write, if it is. */
  ghost function Refusal(files: Files, valid: bool, generated: Option<seq<Generated>>, check: Option<bool>): Option<Error> {
    if !valid then Some(InvalidConfig)
    else if generated.None? then Some(GenerationFailed)
    else if !Generates(generated.value, SING_BOX_SERVER_ARTIFACT) then Some(NoServerArtifact)
    else if !NeedsCheck(files, generated) || check == Some(true) then None
    else if check.None? then Some(BinaryRequired)
    else Some(CheckFailed)
  }

  /** The artifacts, and the active configuration if there is one, are written together or not at all. */
  ghost function SyncTries(files: Files, artifacts: seq<Generated>): nat {
    if NeedsCheck(files, Some(artifacts)) then |artifacts| + (if Active in files then 1 else 0) else 0
  }

  ghost function Verdict(first: nat, files: Files, artifacts: seq<Generated>, outcome: nat -> Outcome): Option<Error> {
    var sync := if NeedsCheck(files, Some(artifacts)) then SyncVerdict(first, |artifacts|, Active in files, outcome) else None;
    if sync.Some? then sync else CommitVerdict(first + SyncTries(files, artifacts), Config in files, outcome)
  }

  /**
    What each end leaves. A failed transaction, if its rollback writes succeed,
    leaves every file that existed at its old contents, except the configuration
    when its own write landed before it failed; a successful one leaves the new
    deployment and, if the prune succeeds too, no superseded artifact.
   */
  ghost predicate Ends(before: Files, after: Files, artifacts: seq<Generated>, config: Bytes, landed: bool,
                       outcome: nat -> Outcome, first: nat, until: nat, failed: Option<Error>) {
    match failed
    case None => Applied(before, after, artifacts, config) && (AllWell(outcome, first, until) ==> forall p :: Stale(artifacts, p) ==> p !in after)
    case Some(error) =>
      (if error == ConfigMissing then AllWell(outcome, first, until) else AtMostOneFailure(outcome, first, until)) ==>
        && (forall p :: p != Config ==> RolledBack(before, after, artifacts, p))
        && (if error == ConfigStorage && landed then Config in after && after[Config] == config else SameAt(before, after, Config))
  }

  /** The transaction once nothing stands against it but a failing write. */
  method Transact(store: FileStore<Path>, artifacts: seq<Generated>, server: Bytes, sync: bool, needActiveSync: bool,
                  priors: seq<(string, Option<Bytes>)>, priorActive: Option<Bytes>, config: Bytes)
    returns (failed: Option<Error>)
    requires DistinctNames(artifacts) && Serves(artifacts, server)
    requires priors == Priors(store.files, artifacts) && priorActive == ReadOption(store.files, Active)
    requires sync == NeedsCheck(store.files, Some(artifacts)) && needActiveSync == (sync && Active in store.files)
    modifies store
    ensures failed == Verdict(old(store.tried), old(store.files), artifacts, store.outcome)
    ensures Ends(old(store.files), store.files, artifacts, config,
                 store.outcome(old(store.tried) + SyncTries(old(store.files), artifacts)) == DoneButFailed,
                 store.outcome, old(store.tried), store.tried, failed)
  {
    if sync {
      failed := Sync(store, artifacts, server, needActiveSync);
      if failed.Some? {
        return;
      }
    }
    ghost var synced := store.tried;
    failed := Commit(store, old(store.files), artifacts, priors, priorActive, config);
    GoodStart(store.outcome, old(store.tried), synced, store.tried);
  }

  /** A file in the artifact directory under a name that is neither generated nor of the generator's kind is spared. */
  lemma ForeignArtifactsAreSpared(before: Files, after: Files, artifacts: seq<Generated>, config: Bytes, name: string)
    requires Applied(before, after, artifacts, config)
    requires name != SING_BOX_SERVER_ARTIFACT && !exists rest :: name == OWNED_PREFIX + rest
    requires !Generates(artifacts, name)
    ensures SameAt(before, after, Artifact(name))
  {
    var rest := if |name| >= |OWNED_PREFIX| then name[|OWNED_PREFIX|..] else "";
    assert OWNED_PREFIX <= name ==> name == OWNED_PREFIX + rest;
  }

  /** Any other name is pruned once it is no longer generated, if the prune succeeds. */
  lemma SupersededArtifactsArePruned(before: Files, after: Files, artifacts: seq<Generated>, config: Bytes, rest: string,
                                     outcome: nat -> Outcome, first: nat, until: nat)
    requires Ends(before, after, artifacts, config, false, outcome, first, until, None)
    requires AllWell(outcome, first, until)
    requires !Generates(artifacts, OWNED_PREFIX + rest)
    ensures Artifact(OWNED_PREFIX + rest) !in after
  {
    assert OWNED_PREFIX <= OWNED_PREFIX + rest;
    assert Stale(artifacts, Artifact(OWNED_PREFIX + rest));
  }

  /** What is settled before the first write: the refusal, or what there is to replace. */
  method Refuse(files: Files, valid: bool, generated: Option<seq<Generated>>, check: Option<bool>)
    returns (refusal: Option<Error>, sync: bool, needActiveSync: bool)
    ensures refusal == Refusal(files, valid, generated, check)
    ensures refusal.None? ==> sync == NeedsCheck(files, generated) && needActiveSync == (sync && Active in files)
  {
    sync, needActiveSync := false, false;
    if !valid {
      return Some(InvalidConfig), sync, needActiveSync;
    }
    if generated.None? {
      return Some(GenerationFailed), sync, needActiveSync;
    }
    var artifacts := generated.value;
    var server := ServerOf(artifacts);
    SearchDecides(files, artifacts);
    if server.None? {
      return Some(NoServerArtifact), sync, needActiveSync;
    }
    var priors := Priors(files, artifacts);
    var priorActive := ReadOption(files, Active);
    var artifactsChanged := exists i :: 0 <= i < |artifacts| && priors[i].1 != Some(artifacts[i].contents);
    needActiveSync := priorActive.Some? && (artifactsChanged || priorActive != server);
    sync := artifactsChanged || needActiveSync;
    if sync {
      if check.None? {
        return Some(BinaryRequired), sync, needActiveSync;
      }
      if !check.value {
        return Some(CheckFailed), sync, needActiveSync;
      }
    }
    refusal := None;
  }

  /**
    `valid`, `generated` and `check` stand for the configuration's validation,
    the artifact generation and the `sing-box check` (absent without a binary).
   */
  method ApplyConfigTransaction(store: FileStore<Path>, valid: bool, generated: Option<seq<Generated>>,
                                check: Option<bool>, config: Bytes)
    returns (r: Result<Snapshot, Error>)
    requires generated.Some? ==> DistinctNames(generated.value)
    modifies store
    // A refused transaction leaves every file untouched.
    ensures var refusal := Refusal(old(store.files), valid, generated, check);
            refusal.Some? ==> r == Err(refusal.value) && store.files == old(store.files)
    // For the others the first try that fails decides, the prune's own aside.
    ensures Refusal(old(store.files), valid, generated, check).None? ==>
              var artifacts := generated.value;
              var verdict := Verdict(old(store.tried), old(store.files), artifacts, store.outcome);
              && (if verdict.Some? then r == Err(verdict.value) else r.Ok?)
              && Ends(old(store.files), store.files, artifacts, config,
                      store.outcome(old(store.tried) + SyncTries(old(store.files), artifacts)) == DoneButFailed,
                      store.outcome, old(store.tried), store.tried, verdict)
    ensures r.Ok? ==>
              && Config in old(store.files)
              && r.value == Snapshot(old(store.files)[Config], Priors(old(store.files), generated.value), ReadOption(old(store.files), Active))
  {
    var refusal, sync, needActiveSync := Refuse(store.files, valid, generated, check);
    if refusal.Some? {
      return Err(refusal.value);
    }
    var artifacts := generated.value;
    ServerIsFound(artifacts);
    var priors := Priors(store.files, artifacts);
    var priorActive := ReadOption(store.files, Active);
    var priorConfig := ReadOption(store.files, Config);
    var failed := Transact(store, artifacts, ServerOf(artifacts).value, sync, needActiveSync, priors, priorActive, config);
    r := if failed.Some? then Err(failed.value) else Ok(Snapshot(priorConfig.value, priors, priorActive));
  }

  /**
    A run in which the configuration's own write lands and is then reported as
    failed: the transaction fails and the new configuration stays.
   */
  method ALandedConfigurationStays() returns (r: Result<Snapshot, Error>, config: Option<Bytes>)
    ensures r == Err(ConfigStorage) && config == Some([2])
  {
    var server := Generated(SING_BOX_SERVER_ARTIFACT, [1]);
    var store := new FileStore<Path>(map[Config := [0], Artifact(SING_BOX_SERVER_ARTIFACT) := [1]],
                                     k => if k == 0 then DoneButFailed else Done);
    assert [server][0] == server;
    assert Written(store.files, [server]);
    r := ApplyConfigTransaction(store, true, Some([server]), None, [2]);
    config := ReadOption(store.files, Config);
  }

  // ---------------------------------------------------------------- restoring a snapshot

  function RestoredArtifacts(files: Files, artifacts: seq<(string, Option<Bytes>)>): Files {
    if artifacts == [] then files
    else
      // Last first, so the head of the list is restored after its tail.
      var rest := RestoredArtifacts(files, artifacts[1..]);
      var p := Artifact(artifacts[0].0);
      match artifacts[0].1
      case Some(prior) => rest[p := prior]
      case None => rest - {p}
  }

  function Restored(files: Files, snapshot: Snapshot): Files {
    var artifacts := RestoredArtifacts(files, snapshot.artifacts);
    var active := if snapshot.active.Some? then artifacts[Active := snapshot.active.value] else artifacts;
    active[Config := snapshot.config]
  }

  ghost predicate Names(artifacts: seq<(string, Option<Bytes>)>, p: Path) {
    exists i :: 0 <= i < |artifacts| && p == Artifact(artifacts[i].0)
  }

  ghost predicate OnceEach(artifacts: seq<(string, Option<Bytes>)>) {
    forall i, j :: 0 <= i < j < |artifacts| ==> artifacts[i].0 != artifacts[j].0
  }

  /** Last first; stops at the first failed write, while a failed removal is ignored. */
  method RestoreArtifacts(store: FileStore<Path>, artifacts: seq<(string, Option<Bytes>)>) returns (ok: bool)
    modifies store
    ensures store.tried >= old(store.tried)
    ensures store.AllDone(old(store.tried), store.tried) ==> ok && store.files == RestoredArtifacts(old(store.files), artifacts)
    ensures ok && OnceEach(artifacts) ==> BackFrom(store.files, artifacts, 0)
    ensures !ok ==> old(store.tried) < store.tried && store.outcome(store.tried - 1) != Done
    ensures forall p :: !Names(artifacts, p) ==> SameAt(old(store.files), store.files, p)
  {
    var i := |artifacts|;
    while i > 0
      invariant 0 <= i <= |artifacts|
      invariant store.tried >= old(store.tried)
      invariant store.AllDone(old(store.tried), store.tried) ==> store.files == RestoredArtifacts(old(store.files), artifacts[i..])
      invariant OnceEach(artifacts) ==> BackFrom(store.files, artifacts, i)
      invariant forall p :: !Names(artifacts, p) ==> SameAt(old(store.files), store.files, p)
    {
      i := i - 1;
      ghost var tried, before := store.tried, store.files;
      assert artifacts[i..][1..] == artifacts[i + 1..];
      var (name, prior) := artifacts[i];
      assert Names(artifacts, Artifact(name));
      match prior {
        case Some(contents) =>
          ok := store.Write(Artifact(name), contents);
          forall p | !Names(artifacts, p) ensures SameAt(old(store.files), store.files, p) {
            assert SameAt(old(store.files), before, p);
          }
          if !ok {
            assert store.outcome(tried) != Done;
            return;
          }
        case None =>
          if Artifact(name) in store.files {
            var _ := store.Remove(Artifact(name));
            assert store.outcome(tried) == Done || !store.AllDone(old(store.tried), store.tried);
          }
      }
      forall p | !Names(artifacts, p) ensures SameAt(old(store.files), store.files, p) {
        assert SameAt(old(store.files), before, p);
      }
    }
    assert artifacts[0..] == artifacts;
    ok := true;
  }

  /**
    Artifacts, then the active configuration, then the deployment configuration.
    It succeeds only with every version of the snapshot in place; a failed write
    ends it, so that the configuration is the old one unless its own write landed.
   */
  method RestoreConfigTransaction(store: FileStore<Path>, snapshot: Snapshot) returns (ok: bool)
    modifies store
    ensures store.tried >= old(store.tried)
    ensures store.AllDone(old(store.tried), store.tried) ==> ok && store.files == Restored(old(store.files), snapshot)
    ensures ok ==>
              && (OnceEach(snapshot.artifacts) ==> BackFrom(store.files, snapshot.artifacts, 0))
              && (snapshot.active.Some? ==> Active in store.files && store.files[Active] == snapshot.active.value)
              && Config in store.files && store.files[Config] == snapshot.config
    ensures !ok ==>
              && old(store.tried) < store.tried && store.outcome(store.tried - 1) != Done
              && (SameAt(old(store.files), store.files, Config)
                  || (store.outcome(store.tried - 1) == DoneButFailed && Config in store.files && store.files[Config] == snapshot.config))
    ensures forall p :: !Names(snapshot.artifacts, p) && p != Config && (p == Active ==> snapshot.active.None?) ==>
              SameAt(old(store.files), store.files, p)
  {
    ok := RestoreArtifacts(store, snapshot.artifacts);
    assert SameAt(old(store.files), store.files, Config);
    if !ok {
      return;
    }
    ghost var first, artifactsBack := store.tried, store.files;
    if snapshot.active.Some? {
      ok := store.Write(Active, snapshot.active.value);
      if !ok {
        assert store.outcome(first) != Done;
        return;
      }
    }
    ghost var second, activeBack := store.tried, store.files;
    ok := store.Write(Config, snapshot.config);
    if !ok {
      assert store.outcome(second) != Done;
    }
    forall p | !Names(snapshot.artifacts, p) && p != Config && (p == Active ==> snapshot.active.None?)
      ensures SameAt(old(store.files), store.files, p)
    {
      assert SameAt(old(store.files), artifactsBack, p);
    }
  }

  lemma {:induction false} RestoredArtifactsAt(files: Files, artifacts: seq<(string, Option<Bytes>)>, p: Path)
    requires forall i, j :: 0 <= i < j < |artifacts| ==> artifacts[i].0 != artifacts[j].0
    ensures var r := RestoredArtifacts(files, artifacts);
            && (forall i :: 0 <= i < |artifacts| && p == Artifact(artifacts[i].0) ==>
                  (p in r <==> artifacts[i].1.Some?) && (p in r ==> r[p] == artifacts[i].1.value))
            && ((forall i :: 0 <= i < |artifacts| ==> p != Artifact(artifacts[i].0)) ==> SameAt(files, r, p))
  {
    if artifacts != [] {
      RestoredArtifactsAt(files, artifacts[1..], p);
      assert forall i :: 0 <= i < |artifacts| - 1 ==> artifacts[1..][i] == artifacts[i + 1];
    }
  }

  /** What restoring the snapshot gives at each path. */
  lemma RestoredAt(before: Files, after: Files, artifacts: seq<Generated>, config: Bytes, p: Path)
    requires DistinctNames(artifacts) && Applied(before, after, artifacts, config)
    ensures var snapshot := Snapshot(before[Config], Priors(before, artifacts), ReadOption(before, Active));
            if Stale(artifacts, p) then SameAt(after, Restored(after, snapshot), p)
            else SameAt(before, Restored(after, snapshot), p)
  {
    var priors := Priors(before, artifacts);
    RestoredArtifactsAt(after, priors, p);
    if p.Artifact? && Generates(artifacts, p.name) {
      var i :| 0 <= i < |artifacts| && artifacts[i].name == p.name;
      assert priors[i] == (p.name, ReadOption(before, p));
    } else {
      forall i | 0 <= i < |priors| ensures p != Artifact(priors[i].0) {
        assert priors[i].0 == artifacts[i].name;
      }
    }
  }

  /**
    Restoring the snapshot of a successful transaction gives back the whole old
    deployment exactly when the prune removed nothing.
   */
  lemma RestoreUndoesIffNothingWasPruned(before: Files, after: Files, artifacts: seq<Generated>, config: Bytes)
    requires DistinctNames(artifacts) && Applied(before, after, artifacts, config)
    ensures Restored(after, Snapshot(before[Config], Priors(before, artifacts), ReadOption(before, Active))) == before
       <==> forall p :: Stale(artifacts, p) && p in before ==> p in after
  {
    var restored := Restored(after, Snapshot(before[Config], Priors(before, artifacts), ReadOption(before, Active)));
    forall p ensures if Stale(artifacts, p) then SameAt(after, restored, p) else SameAt(before, restored, p) {
      RestoredAt(before, after, artifacts, config, p);
    }
    if forall p :: Stale(artifacts, p) && p in before ==> p in after {
      forall p ensures p in restored <==> p in before
               ensures p in before && p in restored ==> restored[p] == before[p]
      {
        assert if Stale(artifacts, p) then SameAt(after, restored, p) else SameAt(before, restored, p);
      }
      assert restored == before;
    } else {
      var p :| Stale(artifacts, p) && p in before && p !in after;
      assert SameAt(after, restored, p);
    }
  }
}
