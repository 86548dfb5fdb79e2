/**
  The request budget per address: token buckets, refilled lazily, swept and
  cleared. Times are nanoseconds.
 */
module RequestBudget {

  const REQUEST_BURST: nat := 60
  const SECOND: nat := 1_000_000_000
  const REQUEST_REFILL: nat := SECOND
  const MAX_TRACKED_PEERS: nat := 4096
  const U32_MAX: nat := 0xFFFF_FFFF

  type Peer = nat
  type u32 = n: nat | n <= U32_MAX

  /** `at` is the instant the balance was last topped up. */
  datatype Bucket = Bucket(tokens: u32, at: int)

  datatype Outcome = Granted | Wait(time: nat)

  function Elapsed(now: int, at: int): nat { if now >= at then now - at else 0 }

  /** Whole refill periods since the last top-up, truncated to 32 bits. */
  function Refilled(b: Bucket, now: int): u32 { (Elapsed(now, b.at) / REQUEST_REFILL) % (U32_MAX + 1) }

  function SaturatingAdd(a: u32, b: u32): u32 { if a + b <= U32_MAX then a + b else U32_MAX }

  function Min(a: int, b: int): int { if a <= b then a else b }

  function TopUp(b: Bucket, now: int): Bucket {
    var refilled := Refilled(b, now);
    if refilled > 0 then Bucket(Min(SaturatingAdd(b.tokens, refilled), REQUEST_BURST), b.at + REQUEST_REFILL * refilled)
    else b
  }

  predicate OwesTokens(b: Bucket, now: int) { SaturatingAdd(b.tokens, Refilled(b, now)) < REQUEST_BURST }

  function Retained(buckets: map<Peer, Bucket>, now: int): map<Peer, Bucket> {
    map p | p in buckets && OwesTokens(buckets[p], now) :: buckets[p]
  }

  /** The table after making room for a new address. */
  function Admitted(buckets: map<Peer, Bucket>, now: int): map<Peer, Bucket> {
    if |Retained(buckets, now)| > MAX_TRACKED_PEERS then map[] else Retained(buckets, now)
  }

  function RetryAfter(b: Bucket, now: int): nat {
    var waited := Elapsed(now, b.at);
    var remaining := if REQUEST_REFILL >= waited then REQUEST_REFILL - waited else 0;
    if remaining >= SECOND then remaining else SECOND
  }

  /** The table and the answer after one request. */
  function Acquired(buckets: map<Peer, Bucket>, peer: Peer, now: int): (map<Peer, Bucket>, Outcome) {
    if peer !in buckets then (Admitted(buckets, now)[peer := Bucket(REQUEST_BURST - 1, now)], Granted)
    else
      var b := TopUp(buckets[peer], now);
      if b.tokens == 0 then (buckets[peer := b], Wait(RetryAfter(b, now)))
      else (buckets[peer := b.(tokens := b.tokens - 1)], Granted)
  }

  class IpBudget {
    var buckets: map<Peer, Bucket>

    constructor ()
      ensures buckets == map[]
    {
      buckets := map[];
    }

    method TryAcquire(peer: Peer, now: int) returns (r: Outcome)
      modifies this
      ensures (buckets, r) == Acquired(old(buckets), peer, now)
      ensures r.Wait? ==> buckets == old(buckets)
    {
      if peer !in buckets {
        Admit(now);
        buckets := buckets[peer := Bucket(REQUEST_BURST - 1, now)];
        return Granted;
      }
      var refilled := Refilled(buckets[peer], now);
      if refilled > 0 {
        var tokens := Min(SaturatingAdd(buckets[peer].tokens, refilled), REQUEST_BURST);
        buckets := buckets[peer := buckets[peer].(tokens := tokens)];
        buckets := buckets[peer := buckets[peer].(at := buckets[peer].at + REQUEST_REFILL * refilled)];
      }
      if buckets[peer].tokens == 0 {
        assert buckets == old(buckets) == buckets[peer := buckets[peer]];
        return Wait(RetryAfter(buckets[peer], now));
      }
      assert buckets == old(buckets)[peer := TopUp(old(buckets)[peer], now)];
      buckets := buckets[peer := buckets[peer].(tokens := buckets[peer].tokens - 1)];
      assert buckets == old(buckets)[peer := buckets[peer]];
      r := Granted;
    }

    method Admit(now: int)
      modifies this
      ensures buckets == Admitted(old(buckets), now)
    {
      var unseen := buckets.Keys;
      while unseen != {}
        invariant unseen <= old(buckets).Keys
        invariant buckets == map p | p in old(buckets) && (p in unseen || OwesTokens(old(buckets)[p], now)) :: old(buckets)[p]
        decreases unseen
      {
        var p :| p in unseen;
        if !OwesTokens(buckets[p], now) {
          buckets := buckets - {p};
        }
        unseen := unseen - {p};
      }
      assert buckets == Retained(old(buckets), now);
      if |buckets| > MAX_TRACKED_PEERS {
        buckets := map[];
      }
    }
  }

  // ---------------------------------------------------------------- runs

  datatype Request = Request(peer: Peer, now: int)

  function After(buckets: map<Peer, Bucket>, run: seq<Request>): map<Peer, Bucket>
    decreases |run|
  {
    if run == [] then buckets else After(Acquired(buckets, run[0].peer, run[0].now).0, run[1..])
  }

  function GrantsTo(peer: Peer, buckets: map<Peer, Bucket>, run: seq<Request>): nat
    decreases |run|
  {
    if run == [] then 0
    else
      var (next, outcome) := Acquired(buckets, run[0].peer, run[0].now);
      (if run[0].peer == peer && outcome.Granted? then 1 else 0) + GrantsTo(peer, next, run[1..])
  }

  predicate Overflows(buckets: map<Peer, Bucket>, r: Request) {
    r.peer !in buckets && |Retained(buckets, r.now)| > MAX_TRACKED_PEERS
  }

  /** How often the table is cleared during the run. */
  function Clears(buckets: map<Peer, Bucket>, run: seq<Request>): nat
    decreases |run|
  {
    if run == [] then 0
    else (if Overflows(buckets, run[0]) then 1 else 0) + Clears(Acquired(buckets, run[0].peer, run[0].now).0, run[1..])
  }

  /** No bucket is older than 2^32 refill periods at the given instant. */
  ghost predicate Recent(buckets: map<Peer, Bucket>, now: int) {
    forall p :: p in buckets ==> now - buckets[p].at < (U32_MAX + 1) * REQUEST_REFILL
  }

  ghost predicate NotBefore(buckets: map<Peer, Bucket>, start: int) {
    forall p :: p in buckets ==> start <= buckets[p].at
  }

  /** Requests in time order, none before `from` or after `to`. */
  predicate InWindow(run: seq<Request>, from: int, to: int)
    decreases |run|
  {
    if run == [] then from <= to else from <= run[0].now && InWindow(run[1..], run[0].now, to)
  }

  ghost predicate Valid(buckets: map<Peer, Bucket>, now: int) {
    && |buckets| <= MAX_TRACKED_PEERS + 1
    && forall p :: p in buckets ==> buckets[p].tokens <= REQUEST_BURST && buckets[p].at <= now
  }

  lemma TopUpKeepsTime(b: Bucket, now: int)
    requires b.at <= now
    ensures b.at <= TopUp(b, now).at <= now
    ensures TopUp(b, now) == b ==> Refilled(b, now) == 0
  {
    var periods := Elapsed(now, b.at) / REQUEST_REFILL;
    assert periods % (U32_MAX + 1) <= periods;
  }

  lemma RequestKeepsValid(buckets: map<Peer, Bucket>, peer: Peer, now: int)
    requires Valid(buckets, now)
    ensures Valid(Acquired(buckets, peer, now).0, now)
  {
    if peer in buckets {
      TopUpKeepsTime(buckets[peer], now);
      var b := Acquired(buckets, peer, now).0[peer];
      ReplacingKeepsSize(buckets, peer, b);
    } else {
      AddingGrowsByOne(Admitted(buckets, now), peer, Bucket(REQUEST_BURST - 1, now));
    }
  }

  lemma ReplacingKeepsSize(buckets: map<Peer, Bucket>, peer: Peer, b: Bucket)
    requires peer in buckets
    ensures |buckets[peer := b]| == |buckets|
  {
    assert buckets[peer := b].Keys == buckets.Keys;
    assert |buckets[peer := b]| == |buckets[peer := b].Keys| && |buckets| == |buckets.Keys|;
  }

  lemma AddingGrowsByOne(buckets: map<Peer, Bucket>, peer: Peer, b: Bucket)
    ensures |buckets[peer := b]| <= |buckets| + 1
  {
    assert buckets[peer := b].Keys == buckets.Keys + {peer};
    assert |buckets[peer := b]| == |buckets[peer := b].Keys| && |buckets| == |buckets.Keys|;
  }

  lemma RequestKeepsNotBefore(buckets: map<Peer, Bucket>, peer: Peer, now: int, start: int)
    requires Valid(buckets, now) && NotBefore(buckets, start) && start <= now
    ensures NotBefore(Acquired(buckets, peer, now).0, start)
  {
    if peer in buckets {
      TopUpKeepsTime(buckets[peer], now);
    }
  }

  lemma {:induction false} RunKeepsValid(buckets: map<Peer, Bucket>, run: seq<Request>, from: int, to: int)
    requires Valid(buckets, from) && InWindow(run, from, to)
    ensures Valid(After(buckets, run), to)
    decreases |run|
  {
    if run != [] {
      assert Valid(buckets, run[0].now);
      RequestKeepsValid(buckets, run[0].peer, run[0].now);
      RunKeepsValid(Acquired(buckets, run[0].peer, run[0].now).0, run[1..], run[0].now, to);
    }
  }

  lemma {:induction false} RunKeepsNotBefore(buckets: map<Peer, Bucket>, run: seq<Request>, start: int, from: int, to: int)
    requires Valid(buckets, from) && InWindow(run, from, to)
    requires NotBefore(buckets, start) && start <= from
    ensures NotBefore(After(buckets, run), start)
    decreases |run|
  {
    if run != [] {
      assert Valid(buckets, run[0].now);
      RequestKeepsValid(buckets, run[0].peer, run[0].now);
      RequestKeepsNotBefore(buckets, run[0].peer, run[0].now, start);
      RunKeepsNotBefore(Acquired(buckets, run[0].peer, run[0].now).0, run[1..], start, run[0].now, to);
    }
  }

  /** The table never remembers more than one address beyond its limit. */
  lemma TableStaysBounded(run: seq<Request>, from: int, to: int)
    requires InWindow(run, from, to)
    ensures |After(map[], run)| <= MAX_TRACKED_PEERS + 1
  {
    RunKeepsValid(map[], run, from, to);
  }

  // ---------------------------------------------------------------- the rate bound

  /**
    The allowance of an address in nanoseconds of refill: its tokens and the time
    already gone towards the next one, capped just below one token over the burst.
   */
  function Allowance(buckets: map<Peer, Bucket>, peer: Peer, now: int): int {
    if peer !in buckets then REQUEST_BURST * REQUEST_REFILL
    else Min((REQUEST_BURST + 1) * REQUEST_REFILL - 1, buckets[peer].tokens * REQUEST_REFILL + (now - buckets[peer].at))
  }

  lemma TopUpKeepsAllowance(b: Bucket, now: int)
    requires b.at <= now < b.at + (U32_MAX + 1) * REQUEST_REFILL && b.tokens <= REQUEST_BURST
    ensures now - TopUp(b, now).at < REQUEST_REFILL
    ensures TopUp(b, now).tokens * REQUEST_REFILL + (now - TopUp(b, now).at)
         <= Min((REQUEST_BURST + 1) * REQUEST_REFILL - 1, b.tokens * REQUEST_REFILL + (now - b.at))
  {
  }

  lemma SweptHasFullAllowance(buckets: map<Peer, Bucket>, peer: Peer, now: int)
    requires Valid(buckets, now) && peer in buckets && !OwesTokens(buckets[peer], now)
    ensures Allowance(buckets, peer, now) >= REQUEST_BURST * REQUEST_REFILL
  {
    var b := buckets[peer];
    var periods := Elapsed(now, b.at) / REQUEST_REFILL;
    assert periods % (U32_MAX + 1) <= periods;
    assert periods * REQUEST_REFILL <= now - b.at;
  }

  lemma RequestSpendsAllowance(buckets: map<Peer, Bucket>, peer: Peer, r: Request)
    requires Valid(buckets, r.now) && Recent(buckets, r.now)
    ensures var (next, outcome) := Acquired(buckets, r.peer, r.now);
            Allowance(next, peer, r.now)
              + (if r.peer == peer && outcome.Granted? then REQUEST_REFILL else 0)
            <= Allowance(buckets, peer, r.now)
              + (if Overflows(buckets, r) then REQUEST_BURST * REQUEST_REFILL else 0)
  {
    if r.peer == peer {
      if peer in buckets {
        TopUpKeepsAllowance(buckets[peer], r.now);
      }
    } else if r.peer !in buckets && peer in buckets && !OwesTokens(buckets[peer], r.now) {
      SweptHasFullAllowance(buckets, peer, r.now);
    }
  }

  lemma {:induction false} GrantsAreWithinAllowance(peer: Peer, buckets: map<Peer, Bucket>, run: seq<Request>,
                                                    start: int, from: int, to: int)
    requires Valid(buckets, from) && NotBefore(buckets, start) && start <= from && InWindow(run, from, to)
    requires to - start < (U32_MAX + 1) * REQUEST_REFILL
    ensures GrantsTo(peer, buckets, run) * REQUEST_REFILL
         <= Allowance(buckets, peer, from) + (to - from) + Clears(buckets, run) * (REQUEST_BURST * REQUEST_REFILL)
    decreases |run|
  {
    if run != [] {
      var r := run[0];
      InWindowEnds(run[1..], r.now, to);
      RequestSpendsAllowance(buckets, peer, r);
      RequestKeepsValid(buckets, r.peer, r.now);
      RequestKeepsNotBefore(buckets, r.peer, r.now, start);
      GrantsAreWithinAllowance(peer, Acquired(buckets, r.peer, r.now).0, run[1..], start, r.now, to);
      assert Allowance(buckets, peer, r.now) <= Allowance(buckets, peer, from) + (r.now - from);
    } else {
      assert 0 <= Allowance(buckets, peer, from);
    }
  }

  lemma {:induction false} InWindowEnds(run: seq<Request>, from: int, to: int)
    requires InWindow(run, from, to)
    ensures from <= to
    decreases |run|
  {
    if run != [] {
      InWindowEnds(run[1..], run[0].now, to);
    }
  }

  function CeilingDiv(a: nat, b: nat): nat
    requires b > 0
  {
    (a + b - 1) / b
  }

  /**
    In any window of any run shorter than 2^32 seconds, across sweeps and
    re-creations, one address is granted at most the burst plus one request per
    second begun, plus one more burst for each time the table was cleared inside
    the window.
   */
  lemma GrantsAreBounded(peer: Peer, before: seq<Request>, window: seq<Request>, start: int, from: int, to: int)
    requires InWindow(before, start, from) && InWindow(window, from, to)
    requires to - start < (U32_MAX + 1) * REQUEST_REFILL
    ensures from <= to
    ensures GrantsTo(peer, After(map[], before), window)
         <= REQUEST_BURST * (1 + Clears(After(map[], before), window)) + CeilingDiv(to - from, REQUEST_REFILL)
  {
    var buckets := After(map[], before);
    InWindowEnds(window, from, to);
    InWindowEnds(before, start, from);
    RunKeepsValid(map[], before, start, from);
    RunKeepsNotBefore(map[], before, start, start, from);
    GrantsAreWithinAllowance(peer, buckets, window, start, from, to);
    var grants, clears := GrantsTo(peer, buckets, window), Clears(buckets, window);
    assert (grants - REQUEST_BURST * (1 + clears)) * REQUEST_REFILL <= to - from + REQUEST_REFILL - 1;
  }

  // ---------------------------------------------------------------- waiting and neighbours

  function Available(buckets: map<Peer, Bucket>, peer: Peer, now: int): nat {
    if peer !in buckets then REQUEST_BURST
    else Min(REQUEST_BURST, buckets[peer].tokens + Refilled(buckets[peer], now))
  }

  /** A refusal happens exactly when nothing is available; it asks for one second and changes nothing. */
  lemma RefusalChangesNothing(buckets: map<Peer, Bucket>, peer: Peer, now: int)
    requires Valid(buckets, now)
    ensures Acquired(buckets, peer, now).1.Wait? <==> Available(buckets, peer, now) == 0
    ensures Acquired(buckets, peer, now).1.Wait? ==> Acquired(buckets, peer, now) == (buckets, Wait(SECOND))
  {
    if peer in buckets && Available(buckets, peer, now) == 0 {
      assert buckets[peer := buckets[peer]] == buckets;
    }
  }

  /** Requests at one instant are granted until what was available is used up, and then refused. */
  lemma {:induction false} AvailableIsServed(buckets: map<Peer, Bucket>, peer: Peer, now: int, run: seq<Request>)
    requires Valid(buckets, now)
    requires forall i :: 0 <= i < |run| ==> run[i] == Request(peer, now)
    ensures GrantsTo(peer, buckets, run) == Min(|run|, Available(buckets, peer, now))
    decreases |run|
  {
    if run != [] {
      var next := Acquired(buckets, peer, now).0;
      RequestKeepsValid(buckets, peer, now);
      GrantUsesOne(buckets, peer, now);
      AvailableIsServed(next, peer, now, run[1..]);
    }
  }

  lemma GrantUsesOne(buckets: map<Peer, Bucket>, peer: Peer, now: int)
    requires Valid(buckets, now)
    ensures var (next, outcome) := Acquired(buckets, peer, now);
            && (outcome.Granted? <==> Available(buckets, peer, now) > 0)
            && Available(next, peer, now) == Available(buckets, peer, now) - (if outcome.Granted? then 1 else 0)
  {
    if peer in buckets {
      var b := buckets[peer];
      NothingLeftToRefill(b, now);
    }
  }

  lemma NothingLeftToRefill(b: Bucket, now: int)
    requires b.at <= now
    ensures Refilled(TopUp(b, now), now) == 0
  {
    var periods, width := (now - b.at) / REQUEST_REFILL, U32_MAX + 1;
    var refilled := periods % width;
    assert (now - (b.at + REQUEST_REFILL * refilled)) / REQUEST_REFILL == periods - refilled;
    assert periods - refilled == (periods / width) * width;
  }

  lemma {:induction false} OthersRunLeavesTheBucket(buckets: map<Peer, Bucket>, peer: Peer, run: seq<Request>)
    requires forall r :: r in run ==> r.peer != peer
    ensures peer in After(buckets, run) ==> peer in buckets && After(buckets, run)[peer] == buckets[peer]
    decreases |run|
  {
    if run != [] {
      assert run[0] in run;
      OthersRunLeavesTheBucket(Acquired(buckets, run[0].peer, run[0].now).0, peer, run[1..]);
    }
  }

  /**
    A refused address that waits the second it was asked for is granted its next
    request, whatever other addresses request in between.
   */
  lemma WaitingEarnsAGrant(buckets: map<Peer, Bucket>, peer: Peer, now: int, others: seq<Request>, later: int)
    requires Valid(buckets, now)
    requires Acquired(buckets, peer, now).1.Wait?
    requires forall r :: r in others ==> r.peer != peer
    requires Acquired(buckets, peer, now).1.time <= later - now <= U32_MAX * SECOND
    ensures Acquired(After(Acquired(buckets, peer, now).0, others), peer, later).1.Granted?
  {
    RefusalChangesNothing(buckets, peer, now);
    OthersRunLeavesTheBucket(buckets, peer, others);
    if peer in After(buckets, others) {
      assert Refilled(buckets[peer], now) == 0 && buckets[peer].tokens == 0;
      assert After(buckets, others)[peer] == buckets[peer] && TopUp(buckets[peer], later).tokens > 0;
    }
  }

  /**
    Another address's request never lowers what is available, now or later, and
    changes it only when it clears the table; elapsed times are below 2^32 periods.
   */
  lemma NeighboursAreIndependent(buckets: map<Peer, Bucket>, peer: Peer, r: Request, later: int)
    requires Valid(buckets, r.now) && r.peer != peer && r.now <= later
    requires peer in buckets ==> later - buckets[peer].at < (U32_MAX + 1) * REQUEST_REFILL
    ensures var next := Acquired(buckets, r.peer, r.now).0;
            && Available(buckets, peer, later) <= Available(next, peer, later)
            && (!Overflows(buckets, r) ==> Available(buckets, peer, later) == Available(next, peer, later))
  {
    if peer in buckets {
      if !OwesTokens(buckets[peer], r.now) {
        FullStaysFull(buckets[peer], r.now, later);
      }
      OthersBucketStays(buckets, peer, r);
    }
  }

  lemma FullStaysFull(b: Bucket, now: int, later: int)
    requires b.at <= now <= later < b.at + (U32_MAX + 1) * REQUEST_REFILL && !OwesTokens(b, now)
    ensures b.tokens + Refilled(b, later) >= REQUEST_BURST
  {
    assert (now - b.at) / REQUEST_REFILL <= (later - b.at) / REQUEST_REFILL < U32_MAX + 1;
  }

  lemma OthersBucketStays(buckets: map<Peer, Bucket>, peer: Peer, r: Request)
    requires peer in buckets && r.peer != peer
    ensures var next := Acquired(buckets, r.peer, r.now).0;
            if peer in next then next[peer] == buckets[peer]
            else r.peer !in buckets && (Overflows(buckets, r) || !OwesTokens(buckets[peer], r.now))
  {
  }

  /** The sweep forgets exactly the addresses that would have the whole burst again. */
  lemma SweepForgetsOnlyFullOnes(buckets: map<Peer, Bucket>, peer: Peer, now: int)
    requires Valid(buckets, now) && peer in buckets
    ensures peer in Retained(buckets, now) <==> Available(buckets, peer, now) < REQUEST_BURST
    ensures peer in Retained(buckets, now) ==> Retained(buckets, now)[peer] == buckets[peer]
  {
  }

  /** A new address clears the table exactly when more indebted ones than the limit are left; otherwise all of these are kept. */
  lemma ClearForgetsEveryone(buckets: map<Peer, Bucket>, r: Request)
    requires Valid(buckets, r.now) && r.peer !in buckets
    ensures var next := Acquired(buckets, r.peer, r.now).0;
            var indebted := set p | p in buckets && Available(buckets, p, r.now) < REQUEST_BURST;
            && (Overflows(buckets, r) <==> |indebted| > MAX_TRACKED_PEERS)
            && next.Keys == (if Overflows(buckets, r) then {} else indebted) + {r.peer}
  {
    RetainedAreIndebted(buckets, r.now);
    var admitted := Admitted(buckets, r.now);
    assert Acquired(buckets, r.peer, r.now).0 == admitted[r.peer := Bucket(REQUEST_BURST - 1, r.now)];
  }

  lemma RetainedAreIndebted(buckets: map<Peer, Bucket>, now: int)
    requires Valid(buckets, now)
    ensures var indebted := set p | p in buckets && Available(buckets, p, now) < REQUEST_BURST;
            Retained(buckets, now).Keys == indebted && |Retained(buckets, now)| == |indebted|
  {
    assert |Retained(buckets, now)| == |Retained(buckets, now).Keys|;
  }

  /** An instant before the last top-up refills nothing. */
  lemma EarlierInstantRefillsNothing(buckets: map<Peer, Bucket>, peer: Peer, now: int)
    requires peer in buckets && now <= buckets[peer].at
    ensures Available(buckets, peer, now) == Min(REQUEST_BURST, buckets[peer].tokens)
    ensures Acquired(buckets, peer, now).1.Granted? <==> buckets[peer].tokens > 0
    ensures Acquired(buckets, peer, now).0
         == buckets[peer := buckets[peer].(tokens := if buckets[peer].tokens > 0 then buckets[peer].tokens - 1 else 0)]
  {
  }

  // ---------------------------------------------------------------- what an address is owed

  /** What a bucket holds in nanoseconds of refill, up to the instant 0. */
  function Worth(b: Bucket): int { b.tokens * REQUEST_REFILL - b.at }

  /** A top-up below the cap turns whole periods into tokens and keeps the time already gone towards the next one. */
  lemma TopUpLosesNothing(b: Bucket, now: int)
    requires b.at <= now < b.at + (U32_MAX + 1) * REQUEST_REFILL && b.tokens <= REQUEST_BURST
    ensures 0 <= now - TopUp(b, now).at < REQUEST_REFILL
    ensures var periods := (now - b.at) / REQUEST_REFILL;
            if b.tokens + periods <= REQUEST_BURST
            then Worth(TopUp(b, now)) == Worth(b) && TopUp(b, now).tokens == b.tokens + periods
            else TopUp(b, now).tokens == REQUEST_BURST
  {
    var periods := (now - b.at) / REQUEST_REFILL;
    assert 0 <= periods <= U32_MAX && Refilled(b, now) == periods;
    assert periods * REQUEST_REFILL <= now - b.at < (periods + 1) * REQUEST_REFILL;
  }

  /**
    An address's own request costs exactly one request's worth of its allowance if
    it is granted and nothing if it is refused, as long as the burst is not exceeded.
   */
  lemma OwnRequestCostsExactly(buckets: map<Peer, Bucket>, peer: Peer, now: int)
    requires Valid(buckets, now) && Recent(buckets, now)
    requires peer in buckets ==> buckets[peer].tokens + (now - buckets[peer].at) / REQUEST_REFILL <= REQUEST_BURST
    ensures var (next, outcome) := Acquired(buckets, peer, now);
            Allowance(next, peer, now) + (if outcome.Granted? then REQUEST_REFILL else 0) == Allowance(buckets, peer, now)
  {
    if peer in buckets {
      TopUpLosesNothing(buckets[peer], now);
    }
  }

  /** What a bucket gives until an instant if its tokens were not capped: those it has and one for each whole period since. */
  function Earned(b: Bucket, now: int): int { b.tokens + (now - b.at) / REQUEST_REFILL }

  /** The grants to an address among the first i requests. */
  function GrantsBefore(peer: Peer, buckets: map<Peer, Bucket>, run: seq<Request>, i: nat): nat
    requires i <= |run|
  {
    GrantsTo(peer, buckets, run[..i])
  }

  predicate GrantedAt(buckets: map<Peer, Bucket>, run: seq<Request>, i: nat)
    requires i < |run|
  {
    Acquired(After(buckets, run[..i]), run[i].peer, run[i].now).1.Granted?
  }

  lemma {:induction false} AfterConcat(buckets: map<Peer, Bucket>, a: seq<Request>, b: seq<Request>)
    ensures After(buckets, a + b) == After(After(buckets, a), b)
    decreases |a|
  {
    if a == [] {
      assert a + b == b;
    } else {
      assert (a + b)[1..] == a[1..] + b;
      AfterConcat(Acquired(buckets, a[0].peer, a[0].now).0, a[1..], b);
    }
  }

  lemma {:induction false} GrantsConcat(peer: Peer, buckets: map<Peer, Bucket>, a: seq<Request>, b: seq<Request>)
    ensures GrantsTo(peer, buckets, a + b) == GrantsTo(peer, buckets, a) + GrantsTo(peer, After(buckets, a), b)
    decreases |a|
  {
    if a == [] {
      assert a + b == b;
    } else {
      assert (a + b)[1..] == a[1..] + b;
      GrantsConcat(peer, Acquired(buckets, a[0].peer, a[0].now).0, a[1..], b);
    }
  }

  /** One more request. */
  lemma RunNext(peer: Peer, buckets: map<Peer, Bucket>, run: seq<Request>, i: nat)
    requires i < |run|
    ensures After(buckets, run[..i + 1]) == Acquired(After(buckets, run[..i]), run[i].peer, run[i].now).0
    ensures GrantsBefore(peer, buckets, run, i + 1)
         == GrantsBefore(peer, buckets, run, i) + (if run[i].peer == peer && GrantedAt(buckets, run, i) then 1 else 0)
  {
    assert run[..i + 1] == run[..i] + [run[i]];
    AfterConcat(buckets, run[..i], [run[i]]);
    GrantsConcat(peer, buckets, run[..i], [run[i]]);
    var b := After(buckets, run[..i]);
    assert After(b, [run[i]]) == After(Acquired(b, run[i].peer, run[i].now).0, [run[i]][1..]);
    assert GrantsTo(peer, Acquired(b, run[i].peer, run[i].now).0, [run[i]][1..]) == 0;
  }

  lemma {:induction false} InOrder(run: seq<Request>, from: int, to: int, j: nat, i: nat)
    requires InWindow(run, from, to) && j <= i < |run|
    ensures from <= run[j].now <= run[i].now <= to
    decreases |run|
  {
    InWindowEnds(run[1..], run[0].now, to);
    if i > 0 {
      InOrder(run[1..], run[0].now, to, 0, i - 1);
      if j > 0 {
        InOrder(run[1..], run[0].now, to, j - 1, i - 1);
      }
    }
  }

  lemma {:induction false} PrefixInWindow(run: seq<Request>, from: int, to: int, i: nat)
    requires InWindow(run, from, to) && i < |run|
    ensures InWindow(run[..i], from, run[i].now)
    decreases |run|
  {
    InOrder(run, from, to, 0, i);
    if i > 0 {
      PrefixInWindow(run[1..], run[0].now, to, i - 1);
      assert run[..i][1..] == run[1..][..i - 1];
    }
  }

  /** At its own requests the address is not over the burst, at those of others not even at it: no token is lost, nor the bucket. */
  ghost predicate NeverFull(peer: Peer, buckets: map<Peer, Bucket>, run: seq<Request>)
    requires peer in buckets
  {
    forall i :: 0 <= i < |run| ==>
      Earned(buckets[peer], run[i].now) - GrantsBefore(peer, buckets, run, i) <= (if run[i].peer == peer then REQUEST_BURST else REQUEST_BURST - 1)
  }

  /** The bucket after some requests of the run: it has spent exactly its grants. */
  ghost predicate SpentExactly(peer: Peer, before: map<Peer, Bucket>, after: map<Peer, Bucket>, grants: nat)
    requires peer in before
  {
    && peer in after
    && Worth(after[peer]) == Worth(before[peer]) - grants * REQUEST_REFILL
  }

  lemma SpentEarns(peer: Peer, before: map<Peer, Bucket>, after: map<Peer, Bucket>, grants: nat, now: int)
    requires peer in before && SpentExactly(peer, before, after, grants)
    ensures Earned(after[peer], now) == Earned(before[peer], now) - grants
  {
    var a, b := after[peer], before[peer];
    assert now - a.at == now - b.at + (b.tokens - grants - a.tokens) * REQUEST_REFILL;
    assert (now - a.at) / REQUEST_REFILL == (now - b.at) / REQUEST_REFILL + (b.tokens - grants - a.tokens);
  }

  lemma RequestSpendsExactly(peer: Peer, before: map<Peer, Bucket>, buckets: map<Peer, Bucket>, grants: nat, r: Request)
    requires peer in before && SpentExactly(peer, before, buckets, grants)
    requires Valid(buckets, r.now) && r.now - buckets[peer].at < (U32_MAX + 1) * REQUEST_REFILL && !Overflows(buckets, r)
    requires Earned(buckets[peer], r.now) <= (if r.peer == peer then REQUEST_BURST else REQUEST_BURST - 1)
    ensures var (next, outcome) := Acquired(buckets, r.peer, r.now);
            && SpentExactly(peer, before, next, grants + (if r.peer == peer && outcome.Granted? then 1 else 0))
            && (r.peer == peer ==> (outcome.Granted? <==> Earned(buckets[peer], r.now) > 0))
            && next[peer].at >= buckets[peer].at
  {
    var b := buckets[peer];
    if r.peer == peer {
      TopUpLosesNothing(b, r.now);
    } else {
      assert OwesTokens(b, r.now);
    }
  }

  lemma {:induction false} NoClearAt(buckets: map<Peer, Bucket>, run: seq<Request>, i: nat)
    requires Clears(buckets, run) == 0 && i < |run|
    ensures !Overflows(After(buckets, run[..i]), run[i])
    decreases |run|
  {
    if i > 0 {
      var next := Acquired(buckets, run[0].peer, run[0].now).0;
      NoClearAt(next, run[1..], i - 1);
      assert run[..i][1..] == run[1..][..i - 1];
    }
  }

  /** A window that is not cleared and in which the address is never full, from a table that holds its bucket. */
  ghost predicate Undisturbed(peer: Peer, buckets: map<Peer, Bucket>, run: seq<Request>, from: int, to: int) {
    && peer in buckets && Valid(buckets, from) && InWindow(run, from, to)
    && to - buckets[peer].at < (U32_MAX + 1) * REQUEST_REFILL
    && Clears(buckets, run) == 0 && NeverFull(peer, buckets, run)
  }

  lemma UndisturbedRequest(peer: Peer, buckets: map<Peer, Bucket>, run: seq<Request>, from: int, to: int, i: nat)
    requires Undisturbed(peer, buckets, run, from, to) && i < |run|
    requires SpentExactly(peer, buckets, After(buckets, run[..i]), GrantsBefore(peer, buckets, run, i))
    requires After(buckets, run[..i])[peer].at >= buckets[peer].at
    ensures SpentExactly(peer, buckets, After(buckets, run[..i + 1]), GrantsBefore(peer, buckets, run, i + 1))
    ensures After(buckets, run[..i + 1])[peer].at >= buckets[peer].at
    ensures run[i].peer == peer ==> (GrantedAt(buckets, run, i) <==> GrantsBefore(peer, buckets, run, i) < Earned(buckets[peer], run[i].now))
  {
    var now, grants := After(buckets, run[..i]), GrantsBefore(peer, buckets, run, i);
    RunNext(peer, buckets, run, i);
    NoClearAt(buckets, run, i);
    InOrder(run, from, to, i, i);
    PrefixInWindow(run, from, to, i);
    RunKeepsValid(buckets, run[..i], from, run[i].now);
    SpentEarns(peer, buckets, now, grants, run[i].now);
    RequestSpendsExactly(peer, buckets, now, grants, run[i]);
  }

  lemma {:induction false} GrantsAreSpent(peer: Peer, buckets: map<Peer, Bucket>, run: seq<Request>, from: int, to: int, i: nat)
    requires Undisturbed(peer, buckets, run, from, to) && i <= |run|
    ensures SpentExactly(peer, buckets, After(buckets, run[..i]), GrantsBefore(peer, buckets, run, i))
    ensures After(buckets, run[..i])[peer].at >= buckets[peer].at
    decreases i
  {
    if i > 0 {
      GrantsAreSpent(peer, buckets, run, from, to, i - 1);
      UndisturbedRequest(peer, buckets, run, from, to, i - 1);
    }
  }

  /**
    In a window without a clear in which the address is never full, its requests
    are granted exactly as long as its grants so far stay below the tokens it had
    and the whole periods since its bucket's instant, however its requests lie
    within the periods.
   */
  lemma GrantsAreExact(peer: Peer, buckets: map<Peer, Bucket>, run: seq<Request>, from: int, to: int, i: nat)
    requires Undisturbed(peer, buckets, run, from, to)
    requires i < |run| && run[i].peer == peer
    ensures GrantedAt(buckets, run, i) <==> GrantsBefore(peer, buckets, run, i) < Earned(buckets[peer], run[i].now)
  {
    GrantsAreSpent(peer, buckets, run, from, to, i);
    UndisturbedRequest(peer, buckets, run, from, to, i);
  }

  // ---------------------------------------------------------------- conforming addresses

  function RequestsOf(peer: Peer, run: seq<Request>): nat {
    if run == [] then 0 else RequestsOf(peer, run[..|run| - 1]) + (if run[|run| - 1].peer == peer then 1 else 0)
  }

  /** Between any two of its requests, both included, the address makes at most the burst and one request for each whole period. */
  ghost predicate Conforms(peer: Peer, run: seq<Request>) {
    forall j, i :: 0 <= j <= i < |run| && run[j].peer == run[i].peer == peer ==>
      RequestsOf(peer, run[j..i + 1]) <= REQUEST_BURST + (run[i].now - run[j].now) / REQUEST_REFILL
  }

  /** The bucket is worth a full one at request j less the requests made since. */
  ghost predicate BackedBy(peer: Peer, b: Bucket, run: seq<Request>, i: nat, j: nat)
    requires j < i <= |run|
  {
    && run[j].peer == peer
    && Worth(b) >= (REQUEST_BURST - RequestsOf(peer, run[j..i])) * REQUEST_REFILL - run[j].now
  }

  ghost predicate Backed(peer: Peer, buckets: map<Peer, Bucket>, run: seq<Request>, i: nat)
    requires i <= |run|
  {
    peer in buckets ==> exists j :: 0 <= j < i && BackedBy(peer, buckets[peer], run, i, j)
  }

  lemma OneMoreRequest(peer: Peer, run: seq<Request>, j: nat, i: nat)
    requires j <= i < |run|
    ensures RequestsOf(peer, run[j..i + 1]) == RequestsOf(peer, run[j..i]) + (if run[i].peer == peer then 1 else 0)
  {
    assert run[j..i + 1] == run[j..i] + [run[i]];
    assert run[j..i + 1][..i - j] == run[j..i];
  }

  /** A bucket backed by a full one `made` requests ago is so after one more, or was full itself. */
  lemma RequestIsPaid(b: Bucket, now: int, since: int, made: nat)
    requires b.at <= now < b.at + (U32_MAX + 1) * REQUEST_REFILL && b.tokens <= REQUEST_BURST
    requires Worth(b) >= (REQUEST_BURST - made) * REQUEST_REFILL - since
    requires made + 1 <= REQUEST_BURST + (now - since) / REQUEST_REFILL
    ensures TopUp(b, now).tokens > 0
    ensures var spent := TopUp(b, now).(tokens := TopUp(b, now).tokens - 1);
            || Worth(spent) >= (REQUEST_BURST - (made + 1)) * REQUEST_REFILL - since
            || Worth(spent) >= (REQUEST_BURST - 1) * REQUEST_REFILL - now
  {
    TopUpLosesNothing(b, now);
    if b.tokens + (now - b.at) / REQUEST_REFILL <= REQUEST_BURST {
      EnoughIsLeft(TopUp(b, now), now, since, made);
    }
  }

  lemma ConformsOnceMore(peer: Peer, run: seq<Request>, j: nat, i: nat)
    requires Conforms(peer, run) && j <= i < |run| && run[j].peer == run[i].peer == peer
    ensures RequestsOf(peer, run[j..i + 1]) == RequestsOf(peer, run[j..i]) + 1
    ensures RequestsOf(peer, run[j..i]) + 1 <= REQUEST_BURST + (run[i].now - run[j].now) / REQUEST_REFILL
    ensures RequestsOf(peer, run[i..i + 1]) == 1
  {
    OneMoreRequest(peer, run, j, i);
    assert run[i..i] == [];
    OneMoreRequest(peer, run, i, i);
  }

  lemma SpentOf(peer: Peer, buckets: map<Peer, Bucket>, now: int)
    requires peer in buckets && TopUp(buckets[peer], now).tokens > 0
    ensures Acquired(buckets, peer, now).1.Granted? && peer in Acquired(buckets, peer, now).0
    ensures var top := TopUp(buckets[peer], now); Acquired(buckets, peer, now).0[peer] == top.(tokens := top.tokens - 1)
  {
  }

  lemma OwnRequestIsBacked(peer: Peer, buckets: map<Peer, Bucket>, run: seq<Request>, i: nat)
    requires i < |run| && run[i].peer == peer && peer in buckets && Backed(peer, buckets, run, i)
    requires Valid(buckets, run[i].now) && run[i].now - buckets[peer].at < (U32_MAX + 1) * REQUEST_REFILL
    requires Conforms(peer, run)
    ensures Acquired(buckets, peer, run[i].now).1.Granted?
    ensures Backed(peer, Acquired(buckets, peer, run[i].now).0, run, i + 1)
  {
    var b, now := buckets[peer], run[i].now;
    var j :| 0 <= j < i && BackedBy(peer, b, run, i, j);
    ConformsOnceMore(peer, run, j, i);
    RequestIsPaid(b, now, run[j].now, RequestsOf(peer, run[j..i]));
    SpentOf(peer, buckets, now);
    var k := PaidIsBacked(peer, Acquired(buckets, peer, now).0[peer], run, i, j);
  }

  lemma PaidIsBacked(peer: Peer, spent: Bucket, run: seq<Request>, i: nat, j: nat) returns (k: nat)
    requires j < i < |run| && run[j].peer == run[i].peer == peer
    requires RequestsOf(peer, run[j..i + 1]) == RequestsOf(peer, run[j..i]) + 1 && RequestsOf(peer, run[i..i + 1]) == 1
    requires || Worth(spent) >= (REQUEST_BURST - (RequestsOf(peer, run[j..i]) + 1)) * REQUEST_REFILL - run[j].now
             || Worth(spent) >= (REQUEST_BURST - 1) * REQUEST_REFILL - run[i].now
    ensures k <= i && BackedBy(peer, spent, run, i + 1, k)
  {
    k := if Worth(spent) >= (REQUEST_BURST - 1) * REQUEST_REFILL - run[i].now then i else j;
  }

  lemma EnoughIsLeft(top: Bucket, now: int, since: int, made: nat)
    requires 0 <= now - top.at
    requires Worth(top) >= (REQUEST_BURST - made) * REQUEST_REFILL - since
    requires now - top.at < REQUEST_REFILL
    requires made + 1 <= REQUEST_BURST + (now - since) / REQUEST_REFILL
    ensures top.tokens > 0
  {
    assert (now - since) / REQUEST_REFILL * REQUEST_REFILL <= now - since;
    assert (made + 1 - REQUEST_BURST) * REQUEST_REFILL <= now - since;
  }

  lemma RequestIsBacked(peer: Peer, buckets: map<Peer, Bucket>, run: seq<Request>, i: nat)
    requires i < |run| && Backed(peer, buckets, run, i) && Conforms(peer, run)
    requires Valid(buckets, run[i].now) && Recent(buckets, run[i].now)
    ensures run[i].peer == peer ==> Acquired(buckets, peer, run[i].now).1.Granted?
    ensures Backed(peer, Acquired(buckets, run[i].peer, run[i].now).0, run, i + 1)
  {
    var next := Acquired(buckets, run[i].peer, run[i].now).0;
    if run[i].peer == peer {
      if peer in buckets {
        OwnRequestIsBacked(peer, buckets, run, i);
      } else {
        assert run[i..i] == [];
        OneMoreRequest(peer, run, i, i);
        assert BackedBy(peer, next[peer], run, i + 1, i);
      }
    } else if peer in next {
      var j :| 0 <= j < i && BackedBy(peer, buckets[peer], run, i, j);
      OneMoreRequest(peer, run, j, i);
      assert BackedBy(peer, next[peer], run, i + 1, j);
    }
  }

  lemma {:induction false} RunIsBacked(peer: Peer, run: seq<Request>, from: int, to: int, i: nat)
    requires InWindow(run, from, to) && to - from < (U32_MAX + 1) * REQUEST_REFILL
    requires Conforms(peer, run) && i <= |run|
    ensures Backed(peer, After(map[], run[..i]), run, i)
    decreases i
  {
    if i > 0 {
      RunIsBacked(peer, run, from, to, i - 1);
      ReachedAt(run, from, to, i - 1);
      RequestIsBacked(peer, After(map[], run[..i - 1]), run, i - 1);
      RunNext(peer, map[], run, i - 1);
    }
  }

  lemma ReachedAt(run: seq<Request>, from: int, to: int, i: nat)
    requires InWindow(run, from, to) && to - from < (U32_MAX + 1) * REQUEST_REFILL && i < |run|
    ensures Valid(After(map[], run[..i]), run[i].now) && Recent(After(map[], run[..i]), run[i].now)
  {
    InOrder(run, from, to, i, i);
    PrefixInWindow(run, from, to, i);
    RunKeepsValid(map[], run[..i], from, run[i].now);
    RunKeepsNotBefore(map[], run[..i], from, from, run[i].now);
  }

  /**
    The other side of the rate bound: in any run shorter than 2^32 seconds an
    address that stays within the burst and one request a second is never refused,
    whatever other addresses do and however often the table is swept or cleared.
   */
  lemma ConformingIsNeverRefused(peer: Peer, run: seq<Request>, from: int, to: int, i: nat)
    requires InWindow(run, from, to) && to - from < (U32_MAX + 1) * REQUEST_REFILL
    requires Conforms(peer, run)
    requires i < |run| && run[i].peer == peer
    ensures GrantedAt(map[], run, i)
  {
    RunIsBacked(peer, run, from, to, i);
    ReachedAt(run, from, to, i);
    RequestIsBacked(peer, After(map[], run[..i]), run, i);
  }
}
