/**
  The Direct HTTPS listener's certificate cache, keyed by the times of the two
  pinned files. Each stat and each read is a step of its own, so a pin or a
  removal may fall between any two of them.
 */
module TlsReload {
  import opened Wrappers

  type Content = nat

  /** Every rename into place gives a modification time no file had before. */
  datatype File = File(content: Content, modified: nat)

  datatype Pair = Pair(chain: Content, key: Content)

  /** The pair of modification times; `None` for a missing file. */
  datatype Stamp = Stamp(chain: Option<nat>, key: Option<nat>)

  /** The certificate checks: key fits chain, and chain valid for the host at a time. */
  datatype Checks = Checks(matches: (Content, Content) -> bool, current: (Content, int) -> bool)

  datatype Cache = Cache(tls: Option<Pair>, stamp: Option<Stamp>)

  predicate MustReload(cache: Cache, stamp: Stamp) { cache.tls.None? || cache.stamp != Some(stamp) }

  /** A successful load replaces the cache; a failed one keeps the configuration and forgets the stamp. */
  function Reloaded(cache: Cache, stamp: Stamp, loaded: Option<Pair>): Cache {
    match loaded
    case Some(pair) => Cache(Some(pair), Some(stamp))
    case None => Cache(cache.tls, None)
  }

  class TlsListener {
    var tls: Option<Pair>
    var tlsStamp: Option<Stamp>

    constructor ()
      ensures tls == None && tlsStamp == None
    {
      tls, tlsStamp := None, None;
    }

    /** One accepted connection, given the stamp it saw and what a load would give. */
    method Accept(stamp: Stamp, load: Option<Pair>) returns (served: Option<Pair>)
      modifies this
      ensures Cache(tls, tlsStamp) == if MustReload(old(Cache(tls, tlsStamp)), stamp)
                                      then Reloaded(old(Cache(tls, tlsStamp)), stamp, load)
                                      else old(Cache(tls, tlsStamp))
      ensures served == tls
      ensures old(tls).Some? ==> served.Some?
    {
      if tls.None? || Some(stamp) != tlsStamp {
        match load {
          case Some(reloaded) =>
            tls := Some(reloaded);
            tlsStamp := Some(stamp);
          case None =>
            tlsStamp := None;
        }
      }
      served := tls;
    }
  }

  // ---------------------------------------------------------------- interleavings

  datatype Phase =
    | Waiting
    | SawChain(chain: Option<nat>)
    | Loading(stamp: Stamp)
    | ReadingKey(stamp: Stamp, content: Content)

  datatype System = System(
    chain: Option<File>,
    key: Option<File>,
    clock: nat,
    phase: Phase,
    cache: Cache,
    served: seq<Option<Pair>>)

  datatype Action =
    | RenameChain(content: Content)
    | RenameKey(content: Content)
    | RemoveChain
    | RemoveKey
    | StatChain
    | StatKey
    | ReadChain
    | ReadKey(now: int)

  function Modified(f: Option<File>): Option<nat> { if f.Some? then Some(f.value.modified) else None }

  /** The end of an accept: the connection gets the cached configuration or is dropped. */
  function Serve(s: System, cache: Cache): System {
    s.(phase := Waiting, cache := cache, served := s.served + [cache.tls])
  }

  function Load(checks: Checks, chain: Content, key: Option<File>, now: int): Option<Pair> {
    if key.Some? && checks.current(chain, now) && checks.matches(chain, key.value.content)
    then Some(Pair(chain, key.value.content)) else None
  }

  /** One atomic step; an action the phase does not allow changes nothing. */
  function Act(checks: Checks, s: System, a: Action): System {
    match a
    case RenameChain(content) => s.(chain := Some(File(content, s.clock)), clock := s.clock + 1)
    case RenameKey(content) => s.(key := Some(File(content, s.clock)), clock := s.clock + 1)
    case RemoveChain => s.(chain := None)
    case RemoveKey => s.(key := None)
    case StatChain => if s.phase.Waiting? then s.(phase := SawChain(Modified(s.chain))) else s
    case StatKey =>
      if s.phase.SawChain? then
        var stamp := Stamp(s.phase.chain, Modified(s.key));
        if MustReload(s.cache, stamp) then s.(phase := Loading(stamp)) else Serve(s, s.cache)
      else s
    case ReadChain =>
      if s.phase.Loading? then
        if s.chain.Some? then s.(phase := ReadingKey(s.phase.stamp, s.chain.value.content))
        else Serve(s, Reloaded(s.cache, s.phase.stamp, None))
      else s
    case ReadKey(now) =>
      if s.phase.ReadingKey?
      then Serve(s, Reloaded(s.cache, s.phase.stamp, Load(checks, s.phase.content, s.key, now)))
      else s
  }

  function Exec(checks: Checks, s: System, actions: seq<Action>): System
    decreases |actions|
  {
    if actions == [] then s else Exec(checks, Act(checks, s, actions[0]), actions[1..])
  }

  /** Before the first connection, whatever files are there. */
  predicate Starting(s: System) {
    && s.phase == Waiting && s.cache == Cache(None, None) && s.served == []
    && (s.chain.Some? ==> s.chain.value.modified < s.clock)
    && (s.key.Some? ==> s.key.value.modified < s.clock)
  }

  predicate Older(time: Option<nat>, clock: nat) { time.Some? ==> time.value < clock }

  /** If the chain still has the time in the stamp, the content read after the stamp is its content. */
  predicate FreshChain(s: System, stamp: Stamp, content: Content) {
    s.chain.Some? && stamp.chain == Some(s.chain.value.modified) ==> s.chain.value.content == content
  }

  ghost predicate Inv(checks: Checks, s: System) {
    && Older(Modified(s.chain), s.clock) && Older(Modified(s.key), s.clock)
    && (s.phase.SawChain? ==> Older(s.phase.chain, s.clock))
    && (s.phase.Loading? || s.phase.ReadingKey? ==>
          Older(s.phase.stamp.chain, s.clock) && Older(s.phase.stamp.key, s.clock))
    && (s.phase.ReadingKey? ==> FreshChain(s, s.phase.stamp, s.phase.content))
    && (s.cache.stamp.Some? ==>
          && s.cache.tls.Some?
          && Older(s.cache.stamp.value.chain, s.clock) && Older(s.cache.stamp.value.key, s.clock)
          && (s.chain.Some? && s.key.Some?
              && s.cache.stamp.value == Stamp(Some(s.chain.value.modified), Some(s.key.value.modified)) ==>
                s.cache.tls.value == Pair(s.chain.value.content, s.key.value.content)))
    && (s.cache.tls.Some? ==> checks.matches(s.cache.tls.value.chain, s.cache.tls.value.key))
    && (forall i :: 0 <= i < |s.served| && s.served[i].Some? ==>
          checks.matches(s.served[i].value.chain, s.served[i].value.key))
  }

  lemma FilesKeepInv(checks: Checks, s: System, a: Action)
    requires Inv(checks, s) && (a.RenameChain? || a.RenameKey? || a.RemoveChain? || a.RemoveKey?)
    ensures Inv(checks, Act(checks, s, a))
  {
  }

  lemma StatsKeepInv(checks: Checks, s: System, a: Action)
    requires Inv(checks, s) && (a.StatChain? || a.StatKey?)
    ensures Inv(checks, Act(checks, s, a))
  {
  }

  lemma ReadsKeepInv(checks: Checks, s: System, a: Action)
    requires Inv(checks, s) && (a.ReadChain? || a.ReadKey?)
    ensures Inv(checks, Act(checks, s, a))
  {
  }

  lemma ActKeepsInv(checks: Checks, s: System, a: Action)
    requires Inv(checks, s)
    ensures Inv(checks, Act(checks, s, a))
    ensures s.cache.tls.Some? ==> Act(checks, s, a).cache.tls.Some?
  {
    if a.StatChain? || a.StatKey? {
      StatsKeepInv(checks, s, a);
    } else if a.ReadChain? || a.ReadKey? {
      ReadsKeepInv(checks, s, a);
    } else {
      FilesKeepInv(checks, s, a);
    }
  }

  lemma {:induction false} ExecKeepsInv(checks: Checks, s: System, actions: seq<Action>)
    requires Inv(checks, s)
    ensures Inv(checks, Exec(checks, s, actions))
    ensures s.cache.tls.Some? ==> Exec(checks, s, actions).cache.tls.Some?
    decreases |actions|
  {
    if actions != [] {
      ActKeepsInv(checks, s, actions[0]);
      ExecKeepsInv(checks, Act(checks, s, actions[0]), actions[1..]);
    }
  }

  /** Under any interleaving every configuration served is a key that fits its chain. */
  lemma ServedPairsMatch(checks: Checks, s: System, actions: seq<Action>, i: nat)
    requires Starting(s)
    requires i < |Exec(checks, s, actions).served| && Exec(checks, s, actions).served[i].Some?
    ensures var pair := Exec(checks, s, actions).served[i].value; checks.matches(pair.chain, pair.key)
  {
    ExecKeepsInv(checks, s, actions);
  }

  lemma {:induction false} ExecConcat(checks: Checks, s: System, a: seq<Action>, b: seq<Action>)
    ensures Exec(checks, s, a + b) == Exec(checks, Exec(checks, s, a), b)
    decreases |a|
  {
    if a == [] {
      assert a + b == b;
    } else {
      assert (a + b)[1..] == a[1..] + b;
      ExecConcat(checks, Act(checks, s, a[0]), a[1..], b);
    }
  }

  /** Whatever happens to the files, a configuration once loaded keeps being served. */
  lemma LoadedIsNeverLost(checks: Checks, s: System, first: seq<Action>, later: seq<Action>)
    requires Starting(s)
    requires Exec(checks, s, first).cache.tls.Some?
    ensures Exec(checks, s, first + later).cache.tls.Some?
    ensures var before, after := Exec(checks, s, first), Exec(checks, s, first + later);
            forall i :: |before.served| <= i < |after.served| ==> after.served[i].Some?
  {
    ExecConcat(checks, s, first, later);
    ExecKeepsInv(checks, s, first);
    OnlyServesLoaded(checks, Exec(checks, s, first), later);
  }

  lemma ActServesLoaded(checks: Checks, s: System, a: Action)
    requires Inv(checks, s) && s.cache.tls.Some?
    ensures var t := Act(checks, s, a);
            && Inv(checks, t) && t.cache.tls.Some?
            && (t.served == s.served || (|t.served| == |s.served| + 1 && s.served <= t.served && t.served[|s.served|].Some?))
  {
    ActKeepsInv(checks, s, a);
  }

  lemma {:induction false} ServedIsKept(checks: Checks, s: System, actions: seq<Action>)
    ensures s.served <= Exec(checks, s, actions).served
    decreases |actions|
  {
    if actions != [] {
      var t := Act(checks, s, actions[0]);
      ServedIsKept(checks, t, actions[1..]);
      assert s.served <= t.served <= Exec(checks, s, actions).served;
    }
  }

  lemma {:induction false} OnlyServesLoaded(checks: Checks, s: System, actions: seq<Action>)
    requires Inv(checks, s) && s.cache.tls.Some?
    ensures Exec(checks, s, actions).cache.tls.Some?
    ensures |s.served| <= |Exec(checks, s, actions).served|
    ensures forall i :: |s.served| <= i < |Exec(checks, s, actions).served| ==> Exec(checks, s, actions).served[i].Some?
    decreases |actions|
  {
    if actions != [] {
      var t := Act(checks, s, actions[0]);
      ActServesLoaded(checks, s, actions[0]);
      OnlyServesLoaded(checks, t, actions[1..]);
      if |t.served| > |s.served| {
        ServedIsKept(checks, t, actions[1..]);
      }
    }
  }

  /** What the last connection got; nothing before the first one. */
  function LastServed(s: System): Option<Pair> { if s.served == [] then None else s.served[|s.served| - 1] }

  /** The cache is what the last connection got. */
  lemma {:induction false} ServesTheCache(checks: Checks, s: System, actions: seq<Action>)
    requires s.cache.tls == LastServed(s)
    ensures Exec(checks, s, actions).cache.tls == LastServed(Exec(checks, s, actions))
    decreases |actions|
  {
    if actions != [] {
      ServesTheCache(checks, Act(checks, s, actions[0]), actions[1..]);
    }
  }

  /** Once a connection got a configuration, every later one gets one. */
  lemma {:induction false} ServedOnceServedEver(checks: Checks, s: System, actions: seq<Action>, i: nat, j: nat)
    requires Inv(checks, s) && s.cache.tls == LastServed(s)
    requires |s.served| <= i <= j < |Exec(checks, s, actions).served|
    requires Exec(checks, s, actions).served[i].Some?
    ensures Exec(checks, s, actions).served[j].Some?
    decreases |actions|
  {
    var t := Act(checks, s, actions[0]);
    ActServesTheCache(checks, s, actions[0]);
    if i >= |t.served| {
      ServedOnceServedEver(checks, t, actions[1..], i, j);
    } else {
      ServedLast(checks, t, actions[1..], j);
    }
  }

  lemma ServedLast(checks: Checks, s: System, actions: seq<Action>, j: nat)
    requires Inv(checks, s) && s.cache.tls == LastServed(s) && s.served != []
    requires |s.served| - 1 <= j < |Exec(checks, s, actions).served|
    requires Exec(checks, s, actions).served[|s.served| - 1].Some?
    ensures Exec(checks, s, actions).served[j].Some?
  {
    ServedIsKept(checks, s, actions);
    if j >= |s.served| {
      OnlyServesLoaded(checks, s, actions);
    }
  }

  lemma ActServesTheCache(checks: Checks, s: System, a: Action)
    requires Inv(checks, s) && s.cache.tls == LastServed(s)
    ensures var t := Act(checks, s, a);
            Inv(checks, t) && t.cache.tls == LastServed(t) && |s.served| <= |t.served| <= |s.served| + 1
  {
    ActKeepsInv(checks, s, a);
  }

  /** The steps of one accept, undisturbed. */
  function AcceptSteps(now: int): seq<Action> { [StatChain, StatKey, ReadChain, ReadKey(now)] }

  lemma AcceptUnfolds(checks: Checks, s: System, now: int)
    ensures Exec(checks, s, AcceptSteps(now))
         == Act(checks, Act(checks, Act(checks, Act(checks, s, StatChain), StatKey), ReadChain), ReadKey(now))
  {
    var steps := AcceptSteps(now);
    var s1 := Act(checks, s, StatChain);
    var s2 := Act(checks, s1, StatKey);
    var s3 := Act(checks, s2, ReadChain);
    assert steps[1..] == [StatKey, ReadChain, ReadKey(now)];
    assert [StatKey, ReadChain, ReadKey(now)][1..] == [ReadChain, ReadKey(now)];
    assert [ReadChain, ReadKey(now)][1..] == [ReadKey(now)];
    assert Exec(checks, s3, [ReadKey(now)]) == Exec(checks, Act(checks, s3, ReadKey(now)), []);
    assert Exec(checks, s2, [ReadChain, ReadKey(now)]) == Exec(checks, s3, [ReadKey(now)]);
    assert Exec(checks, s1, [StatKey, ReadChain, ReadKey(now)]) == Exec(checks, s2, [ReadChain, ReadKey(now)]);
  }

  /**
    Once the files stop changing, the next accept serves exactly them if they
    are valid then; if they are not and were not loaded, it serves what was
    served before, or drops the connection when nothing ever loaded.
   */
  lemma NextAcceptServesTheFiles(checks: Checks, s: System, actions: seq<Action>, now: int)
    requires Starting(s)
    requires Exec(checks, s, actions).phase.Waiting?
    requires Exec(checks, s, actions).chain.Some? && Exec(checks, s, actions).key.Some?
    ensures var before := Exec(checks, s, actions);
            var after := Exec(checks, before, AcceptSteps(now));
            var files := Pair(before.chain.value.content, before.key.value.content);
            var valid := checks.current(files.chain, now) && checks.matches(files.chain, files.key);
            && after.phase.Waiting?
            && |after.served| == |before.served| + 1
            && (valid ==> after.served[|before.served|] == Some(files))
            && (!valid ==> after.served[|before.served|] == LastServed(before))
  {
    ExecKeepsInv(checks, s, actions);
    ServesTheCache(checks, s, actions);
    AcceptUnfolds(checks, Exec(checks, s, actions), now);
  }

  /** While the files keep the times of the loaded pair, an accept serves it after looking at the times alone. */
  lemma UnchangedTimesNeedNoRead(checks: Checks, s: System)
    requires s.phase.Waiting? && s.cache.tls.Some?
    requires s.cache.stamp == Some(Stamp(Modified(s.chain), Modified(s.key)))
    ensures Exec(checks, s, [StatChain, StatKey]) == s.(served := s.served + [s.cache.tls])
  {
    var t := Act(checks, s, StatChain);
    assert [StatChain, StatKey][1..] == [StatKey] && [StatKey][1..] == [];
    assert Exec(checks, t, [StatKey]) == Exec(checks, Act(checks, t, StatKey), []);
  }

  // ---------------------------------------------------------------- pins

  /** The contents come from the given pairs. */
  ghost predicate FromPairs(pairs: set<Pair>, s: System) {
    && (s.chain.Some? ==> exists p :: p in pairs && p.chain == s.chain.value.content)
    && (s.key.Some? ==> exists p :: p in pairs && p.key == s.key.value.content)
    && (s.phase.ReadingKey? ==> exists p :: p in pairs && p.chain == s.phase.content)
    && (s.cache.tls.Some? ==> s.cache.tls.value in pairs)
    && (forall i :: 0 <= i < |s.served| && s.served[i].Some? ==> s.served[i].value in pairs)
  }

  ghost predicate PinsFrom(pairs: set<Pair>, a: Action) {
    match a
    case RenameChain(content) => exists p :: p in pairs && p.chain == content
    case RenameKey(content) => exists p :: p in pairs && p.key == content
    case _ => true
  }

  /** No chain of one pair fits the key of another. */
  ghost predicate NeverMix(checks: Checks, pairs: set<Pair>) {
    forall p, q :: p in pairs && q in pairs && checks.matches(p.chain, q.key) ==> Pair(p.chain, q.key) in pairs
  }

  /**
    However pins of whole pairs and accepts interleave, and in whatever order
    their renames land, only pairs that were pinned together are ever served.
   */
  lemma {:induction false} OnlyPinnedPairsAreServed(checks: Checks, pairs: set<Pair>, s: System, actions: seq<Action>)
    requires FromPairs(pairs, s) && NeverMix(checks, pairs)
    requires forall i :: 0 <= i < |actions| ==> PinsFrom(pairs, actions[i])
    ensures FromPairs(pairs, Exec(checks, s, actions))
    decreases |actions|
  {
    if actions != [] {
      OnlyPinnedPairsAreServed(checks, pairs, Act(checks, s, actions[0]), actions[1..]);
    }
  }

  /** A pin of the second pair over the first, interleaved with accepts, serves the one or the other. */
  lemma RenewalServesOldOrNew(checks: Checks, before: Pair, renewed: Pair, s: System, actions: seq<Action>, i: nat)
    requires Starting(s)
    requires s.chain.Some? && s.chain.value.content == before.chain
    requires s.key.Some? && s.key.value.content == before.key
    requires !checks.matches(before.chain, renewed.key) && !checks.matches(renewed.chain, before.key)
    requires forall k :: 0 <= k < |actions| ==>
               (actions[k].RenameChain? ==> actions[k].content == renewed.chain)
               && (actions[k].RenameKey? ==> actions[k].content == renewed.key)
    requires i < |Exec(checks, s, actions).served| && Exec(checks, s, actions).served[i].Some?
    ensures Exec(checks, s, actions).served[i].value in {before, renewed}
  {
    var pairs := {before, renewed};
    assert before in pairs && renewed in pairs;
    forall k | 0 <= k < |actions| ensures PinsFrom(pairs, actions[k]) {
      assert renewed in pairs;
    }
    OnlyPinnedPairsAreServed(checks, pairs, s, actions);
  }
}
