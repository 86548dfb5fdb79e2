/**
  Rebuilding a deployment from a complete set of options: protocols that stay
  enabled keep their credentials, ports are taken without collisions, and an
  edit that changes nothing gives the deployment back.
 */
module ProtocolConfig {
  import opened Wrappers

  datatype ManagedProtocol = VlessReality | VmessWebsocket | Hysteria2 | Tuic | Anytls

  /** The order credentials are built in. */
  const PROTOCOLS: seq<ManagedProtocol> := [VlessReality, VmessWebsocket, Hysteria2, Tuic, Anytls]

  const MIN_PROTOCOL_PORT: nat := 10000
  const MAX_PROTOCOL_PORT: nat := 65535
  const MAX_RANDOM_PORT_ATTEMPTS: nat := 256

  type Port = n: nat | n <= 65535

  datatype Credentials = Credentials(listenPort: Port, secret: string)

  type Ports = map<ManagedProtocol, Port>

  /**
    `settings` stands for the fields an edit supplies, `preferences` for those it
    always keeps (or defaults); neither is looked into here except by `others`,
    the validation that does not concern protocols.
   */
  datatype Deployment<S, P> = Deployment(
    settings: S, preferences: P, subscriptionCredential: string, realityDecoySni: Option<string>,
    enabled: seq<ManagedProtocol>, credentials: map<ManagedProtocol, Credentials>)

  datatype Options<S> = Options(settings: S, realityDecoySni: Option<string>, enabled: seq<ManagedProtocol>, ports: Ports)

  datatype Error = DisabledPort | PortRange | PortCollision | PortInUse | NoPortFound | Invalid

  // ---------------------------------------------------------------- validation

  predicate Distinct(s: seq<ManagedProtocol>) {
    forall i, j :: 0 <= i < j < |s| ==> s[i] != s[j]
  }

  predicate PortsDistinct(credentials: map<ManagedProtocol, Credentials>) {
    forall p, q :: p in credentials && q in credentials && p != q ==> credentials[p].listenPort != credentials[q].listenPort
  }

  predicate PortsInRange(credentials: map<ManagedProtocol, Credentials>) {
    forall p :: p in credentials ==> MIN_PROTOCOL_PORT <= credentials[p].listenPort <= MAX_PROTOCOL_PORT
  }

  predicate ValidProtocols<S, P>(d: Deployment<S, P>) {
    && d.enabled != []
    && PortsInRange(d.credentials)
    && PortsDistinct(d.credentials)
    && Distinct(d.enabled)
    && (VlessReality in d.enabled ==> d.realityDecoySni.Some? && d.realityDecoySni.value != "")
    && (forall p :: p in d.enabled ==> p in d.credentials)
  }

  /** A requested port belongs to an enabled protocol, is in range and is requested once. */
  predicate RequestedPortsFit(enabled: seq<ManagedProtocol>, ports: Ports) {
    && (forall p :: p in ports ==> p in enabled && MIN_PROTOCOL_PORT <= ports[p] <= MAX_PROTOCOL_PORT)
    && (forall p, q :: p in ports && q in ports && p != q ==> ports[p] != ports[q])
  }

  function ProtocolSet(s: seq<ManagedProtocol>): set<ManagedProtocol> { set p | p in s }

  function Position(p: ManagedProtocol): nat {
    match p
    case VlessReality => 0
    case VmessWebsocket => 1
    case Hysteria2 => 2
    case Tuic => 3
    case Anytls => 4
  }

  lemma EveryProtocolIsListed(p: ManagedProtocol)
    ensures Position(p) < |PROTOCOLS| && PROTOCOLS[Position(p)] == p
    ensures forall i :: 0 <= i < |PROTOCOLS| ==> Position(PROTOCOLS[i]) == i
    ensures exists i :: 0 <= i < |PROTOCOLS| && PROTOCOLS[i] == p
    ensures p in PROTOCOLS
    ensures Distinct(PROTOCOLS)
  {
    assert PROTOCOLS[Position(p)] == p;
  }

  /** The requested ports of the protocols in `done` fit, and `values` lists them. */
  ghost predicate FitSoFar(enabled: seq<ManagedProtocol>, ports: Ports, done: seq<ManagedProtocol>, values: seq<Port>) {
    && (forall p :: p in done && p in ports ==>
          p in enabled && MIN_PROTOCOL_PORT <= ports[p] <= MAX_PROTOCOL_PORT && ports[p] in values)
    && (forall v :: v in values ==> exists p :: p in done && p in ports && ports[p] == v)
    && (forall p, q :: p in done && q in done && p in ports && q in ports && p != q ==> ports[p] != ports[q])
  }

  /** Goes through the protocols in order and stops at the first port that does not fit. */
  method ValidateRequestedPorts(enabled: seq<ManagedProtocol>, ports: Ports) returns (failed: Option<Error>)
    ensures failed.None? <==> RequestedPortsFit(enabled, ports)
    ensures failed.Some? ==>
              match failed.value
              case DisabledPort => exists p :: p in ports && p !in enabled
              case PortRange => exists p :: p in ports && !(MIN_PROTOCOL_PORT <= ports[p] <= MAX_PROTOCOL_PORT)
              case PortCollision => exists p, q :: p in ports && q in ports && p != q && ports[p] == ports[q]
              case _ => false
  {
    var values: seq<Port> := [];
    for i := 0 to |PROTOCOLS|
      invariant FitSoFar(enabled, ports, PROTOCOLS[..i], values)
    {
      var protocol := PROTOCOLS[i];
      EveryProtocolIsListed(protocol);
      assert PROTOCOLS[..i + 1] == PROTOCOLS[..i] + [protocol];
      if protocol in ports {
        var port := ports[protocol];
        if protocol !in enabled {
          return Some(DisabledPort);
        }
        if !(MIN_PROTOCOL_PORT <= port <= MAX_PROTOCOL_PORT) {
          return Some(PortRange);
        }
        if port in values {
          assert protocol !in PROTOCOLS[..i];
          return Some(PortCollision);
        }
        values := values + [port];
      }
    }
    AllFit(enabled, ports, values);
    failed := None;
  }

  lemma AllFit(enabled: seq<ManagedProtocol>, ports: Ports, values: seq<Port>)
    requires FitSoFar(enabled, ports, PROTOCOLS[..|PROTOCOLS|], values)
    ensures RequestedPortsFit(enabled, ports)
  {
    assert PROTOCOLS[..|PROTOCOLS|] == PROTOCOLS;
    forall p: ManagedProtocol ensures p in PROTOCOLS {
      EveryProtocolIsListed(p);
    }
  }

  // ---------------------------------------------------------------- port allocation

  /** A port that was tried to bind, and whether it was free just then. */
  datatype Probe = Probe(port: Port, free: bool)

  /**
    The host as the allocation sees it: whether a port is free at the n-th probe,
    since each probe is a snapshot, and a source of randomness.
   */
  class Host {
    const free: (nat, Port) -> bool
    const random: nat -> nat
    const secret: nat -> string
    var drawn: nat
    var probes: seq<Probe>

    /** How many credentials were generated; each has a secret of its own. */
    var generated: nat

    constructor (free: (nat, Port) -> bool, random: nat -> nat, secret: nat -> string)
      ensures this.free == free && this.random == random && this.secret == secret
      ensures drawn == 0 && probes == [] && generated == 0
    {
      this.free, this.random, this.secret := free, random, secret;
      drawn, probes, generated := 0, [], 0;
    }

    method EnsureProtocolPortAvailable(port: Port) returns (ok: bool)
      modifies this
      ensures ok == free(|old(probes)|, port)
      ensures probes == old(probes) + [Probe(port, ok)] && drawn == old(drawn) && generated == old(generated)
    {
      ok := free(|probes|, port);
      probes := probes + [Probe(port, ok)];
    }

    function RandomPort(k: nat): (port: Port)
      ensures MIN_PROTOCOL_PORT <= port <= MAX_PROTOCOL_PORT
    {
      MIN_PROTOCOL_PORT + random(k) % (MAX_PROTOCOL_PORT - MIN_PROTOCOL_PORT + 1)
    }

    /** Every port of the range can be drawn. */
    lemma EveryPortCanBeDrawn(k: nat, port: Port)
      requires MIN_PROTOCOL_PORT <= port <= MAX_PROTOCOL_PORT && random(k) == port - MIN_PROTOCOL_PORT
      ensures RandomPort(k) == port
    {
    }

    /** One of the numbers drawn from `first` up to `until` gives the port. */
    ghost predicate Drew(first: nat, until: nat, port: Port) { exists k :: first <= k < until && RandomPort(k) == port }

    /** The numbers drawn from `first` up to `until` gave only ports that are taken or in use. */
    ghost predicate NoneFits(first: nat, until: nat, taken: seq<Port>, probed: seq<Probe>) {
      forall k :: first <= k < until ==> RandomPort(k) in taken || Probe(RandomPort(k), false) in probed
    }

    lemma MoreDontFit(first: nat, until: nat, taken: seq<Port>, probed: seq<Probe>, more: seq<Probe>)
      requires NoneFits(first, until, taken, probed)
      requires RandomPort(until) in taken || Probe(RandomPort(until), false) in more
      ensures NoneFits(first, until + 1, taken, probed + more)
    {
    }

    // -------------------------------------------------------------- why a build fails

    /** The port is the protocol's fixed one or, when it has none, was drawn. */
    ghost predicate MayHold(existing: map<ManagedProtocol, Credentials>, ports: Ports, p: ManagedProtocol, port: Port,
                            first: nat, until: nat) {
      if IsFixed(existing, ports, p) then FixedPort(existing, ports, p) == port else Drew(first, until, port)
    }

    ghost predicate HeldByEarlier(existing: map<ManagedProtocol, Credentials>, enabled: seq<ManagedProtocol>, ports: Ports,
                                  position: nat, port: Port, first: nat, until: nat) {
      exists q :: q in enabled && Position(q) < position && MayHold(existing, ports, q, port, first, until)
    }

    /**
      What is the case when a build fails: a requested port that changes cannot be
      bound; a fixed port is the fixed port of an earlier protocol or was drawn for
      one; or the last 256 numbers drawn gave only ports held by earlier protocols
      or in use.
     */
    ghost predicate HasCause(existing: map<ManagedProtocol, Credentials>, enabled: seq<ManagedProtocol>, ports: Ports,
                             first: nat, until: nat, probed: seq<Probe>, error: Error) {
      match error
      case PortInUse =>
        exists p :: p in enabled && p in ports && Probe(ports[p], false) in probed && !(p in existing && existing[p].listenPort == ports[p])
      case PortCollision =>
        exists p :: p in enabled && IsFixed(existing, ports, p)
                    && HeldByEarlier(existing, enabled, ports, Position(p), FixedPort(existing, ports, p), first, until)
      case NoPortFound =>
        && first + MAX_RANDOM_PORT_ATTEMPTS <= until
        && exists p :: p in enabled && !IsFixed(existing, ports, p)
             && forall k :: until - MAX_RANDOM_PORT_ATTEMPTS <= k < until ==>
                  Probe(RandomPort(k), false) in probed || HeldByEarlier(existing, enabled, ports, Position(p), RandomPort(k), first, until)
      case _ => false
    }

    /** The built credentials belong to protocols before the position, each with a port it may hold. */
    ghost predicate HeldPorts(existing: map<ManagedProtocol, Credentials>, enabled: seq<ManagedProtocol>, ports: Ports,
                              position: nat, built: map<ManagedProtocol, Credentials>, first: nat, until: nat) {
      forall q :: q in built ==>
        q in enabled && Position(q) < position && MayHold(existing, ports, q, built[q].listenPort, first, until)
    }

    lemma HeldLater(existing: map<ManagedProtocol, Credentials>, enabled: seq<ManagedProtocol>, ports: Ports, position: nat,
                    built: map<ManagedProtocol, Credentials>, first: nat, until: nat, later: nat)
      requires HeldPorts(existing, enabled, ports, position, built, first, until) && until <= later
      ensures HeldPorts(existing, enabled, ports, position, built, first, later)
    {
      forall q | q in built ensures MayHold(existing, ports, q, built[q].listenPort, first, later) {
        assert MayHold(existing, ports, q, built[q].listenPort, first, until);
      }
    }

    lemma HeldExtends(existing: map<ManagedProtocol, Credentials>, enabled: seq<ManagedProtocol>, ports: Ports, protocol: ManagedProtocol,
                      built: map<ManagedProtocol, Credentials>, c: Credentials, first: nat, until: nat)
      requires HeldPorts(existing, enabled, ports, Position(protocol), built, first, until)
      requires protocol in enabled && MayHold(existing, ports, protocol, c.listenPort, first, until)
      ensures HeldPorts(existing, enabled, ports, Position(protocol) + 1, built[protocol := c], first, until)
    {
    }

    lemma TakenIsHeld(existing: map<ManagedProtocol, Credentials>, enabled: seq<ManagedProtocol>, ports: Ports, position: nat,
                      built: map<ManagedProtocol, Credentials>, taken: seq<Port>, port: Port, first: nat, until: nat)
      requires HeldPorts(existing, enabled, ports, position, built, first, until)
      requires TakenPorts(built, taken) && port in taken
      ensures HeldByEarlier(existing, enabled, ports, position, port, first, until)
    {
      var q :| q in built && built[q].listenPort == port;
      assert MayHold(existing, ports, q, port, first, until);
    }

    /** What stands against a port for one protocol. */
    ghost predicate Hinders(existing: map<ManagedProtocol, Credentials>, ports: Ports, protocol: ManagedProtocol, taken: seq<Port>,
                            first: nat, until: nat, probed: seq<Probe>, error: Error) {
      match error
      case PortInUse =>
        && protocol in ports && Probe(ports[protocol], false) in probed
        && !(protocol in existing && existing[protocol].listenPort == ports[protocol])
      case PortCollision => IsFixed(existing, ports, protocol) && FixedPort(existing, ports, protocol) in taken
      case NoPortFound =>
        && !IsFixed(existing, ports, protocol) && first + MAX_RANDOM_PORT_ATTEMPTS <= until
        && NoneFits(until - MAX_RANDOM_PORT_ATTEMPTS, until, taken, probed)
      case _ => false
    }

    lemma HindersStill(existing: map<ManagedProtocol, Credentials>, ports: Ports, protocol: ManagedProtocol, taken: seq<Port>,
                       first: nat, later: nat, until: nat, before: seq<Probe>, probed: seq<Probe>, error: Error)
      requires Hinders(existing, ports, protocol, taken, later, until, probed, error) && first <= later
      ensures Hinders(existing, ports, protocol, taken, first, until, before + probed, error)
    {
    }

    lemma FailureHasCause(existing: map<ManagedProtocol, Credentials>, enabled: seq<ManagedProtocol>, ports: Ports, protocol: ManagedProtocol,
                          built: map<ManagedProtocol, Credentials>, taken: seq<Port>, first: nat, until: nat,
                          probed: seq<Probe>, error: Error)
      requires protocol in enabled && TakenPorts(built, taken)
      requires HeldPorts(existing, enabled, ports, Position(protocol), built, first, until)
      requires Hinders(existing, ports, protocol, taken, first, until, probed, error)
      ensures HasCause(existing, enabled, ports, first, until, probed, error)
    {
      forall port | port in taken ensures HeldByEarlier(existing, enabled, ports, Position(protocol), port, first, until) {
        TakenIsHeld(existing, enabled, ports, Position(protocol), built, taken, port, first, until);
      }
    }

    /** A port that was probed and found free, and collides with none given out before. */
    ghost predicate NewlyProbed(first: nat, port: Port)
      reads this
    {
      first <= |probes| && Probe(port, true) in probes[first..]
    }

    method AllocatePort(taken: seq<Port>, requested: Option<Port>) returns (r: Result<Port, Error>)
      modifies this
      ensures old(probes) <= probes && generated == old(generated)
      ensures r.Ok? ==> r.value !in taken && NewlyProbed(|old(probes)|, r.value)
      ensures r.Ok? ==> if requested.Some? then r.value == requested.value
                        else MIN_PROTOCOL_PORT <= r.value <= MAX_PROTOCOL_PORT
      // It fails only when it has to: the requested port is taken, or every random candidate was.
      ensures r.Err? && requested.Some? ==>
                r.error == if requested.value in taken then PortCollision else PortInUse
      ensures requested.Some? ==>
                && (r.Ok? <==> requested.value !in taken && free(|old(probes)|, requested.value))
                && probes == old(probes) + (if requested.value in taken then [] else [Probe(requested.value, r.Ok?)])
      ensures r.Err? && requested.None? ==>
                && r.error == NoPortFound
                && drawn == old(drawn) + MAX_RANDOM_PORT_ATTEMPTS
                && NoneFits(old(drawn), drawn, taken, probes[|old(probes)|..])
      ensures drawn >= old(drawn)
      ensures r.Ok? && requested.None? ==> Drew(old(drawn), drawn, r.value)
    {
      if requested.Some? {
        if requested.value in taken {
          return Err(PortCollision);
        }
        var ok := EnsureProtocolPortAvailable(requested.value);
        if !ok {
          return Err(PortInUse);
        }
        assert probes[|old(probes)|..] == [Probe(requested.value, true)];
        return Ok(requested.value);
      }
      for attempt := 0 to MAX_RANDOM_PORT_ATTEMPTS
        invariant drawn == old(drawn) + attempt && old(probes) <= probes && generated == old(generated)
        invariant NoneFits(old(drawn), drawn, taken, probes[|old(probes)|..])
      {
        var port := RandomPort(drawn);
        ghost var before := probes;
        drawn := drawn + 1;
        if port !in taken {
          var ok := EnsureProtocolPortAvailable(port);
          assert probes[|old(probes)|..] == before[|old(probes)|..] + [Probe(port, ok)];
          if ok {
            return Ok(port);
          }
        } else {
          assert probes[|old(probes)|..] == before[|old(probes)|..] + [];
        }
        MoreDontFit(old(drawn), drawn - 1, taken, before[|old(probes)|..], if port in taken then [] else [Probe(port, false)]);
      }
      r := Err(NoPortFound);
    }

    /** A protocol that stays keeps its credential; only its port may change, and only a changed port is probed. */
    method BuildProtocolCredentials(existing: Option<Credentials>, requested: Option<Port>, taken: seq<Port>)
      returns (r: Result<Credentials, Error>)
      modifies this
      ensures old(probes) <= probes
      ensures r.Ok? ==> r.value.listenPort !in taken
      ensures r.Ok? && requested.Some? ==> r.value.listenPort == requested.value
      ensures existing.Some? ==>
                var port := if requested.Some? then requested.value else existing.value.listenPort;
                && r == (if port in taken then Err(PortCollision)
                         else if port != existing.value.listenPort && !free(|old(probes)|, port) then Err(PortInUse)
                         else Ok(existing.value.(listenPort := port)))
                && probes == old(probes) + (if port in taken || port == existing.value.listenPort then [] else [Probe(port, r.Ok?)])
      ensures existing.None? || (requested.Some? && requested.value != existing.value.listenPort) ==>
                r.Ok? ==> NewlyProbed(|old(probes)|, r.value.listenPort)
      ensures existing.None? && requested.Some? ==> (r.Ok? <==> requested.value !in taken && free(|old(probes)|, requested.value))
      ensures drawn >= old(drawn)
      ensures existing.None? && requested.None? ==> if r.Ok? then Drew(old(drawn), drawn, r.value.listenPort) else r.error == NoPortFound
      ensures r == Err(PortInUse) ==>
                requested.Some? && Probe(requested.value, false) in probes[|old(probes)|..] && !(existing.Some? && existing.value.listenPort == requested.value)
      ensures r == Err(PortCollision) ==>
                if requested.Some? then requested.value in taken else existing.Some? && existing.value.listenPort in taken
      ensures r == Err(NoPortFound) ==>
                && existing.None? && requested.None? && drawn == old(drawn) + MAX_RANDOM_PORT_ATTEMPTS
                && NoneFits(old(drawn), drawn, taken, probes[|old(probes)|..])
      ensures r.Err? ==> r.error in {PortInUse, PortCollision, NoPortFound}
      ensures existing.None? && requested.None? && r.Ok? ==> MIN_PROTOCOL_PORT <= r.value.listenPort <= MAX_PROTOCOL_PORT
      // A new protocol gets the next secret; one that stays uses none up.
      ensures existing.None? && r.Ok? ==> r.value.secret == secret(old(generated)) && generated == old(generated) + 1
      ensures existing.Some? ==> generated == old(generated)
    {
      if existing.Some? {
        var current := existing.value.listenPort;
        var port := if requested.Some? && requested.value != current then requested.value else current;
        if port in taken {
          return Err(PortCollision);
        }
        if port != current {
          var ok := EnsureProtocolPortAvailable(port);
          assert probes[|old(probes)|..] == [Probe(port, ok)];
          if !ok {
            return Err(PortInUse);
          }
        }
        return Ok(existing.value.(listenPort := port));
      }
      var port := AllocatePort(taken, requested);
      if requested.Some? && requested.value !in taken {
        assert probes[|old(probes)|..] == [Probe(requested.value, port.Ok?)];
      }
      if port.Err? {
        return Err(port.error);
      }
      r := Ok(Credentials(port.value, secret(generated)));
      generated := generated + 1;
    }

    // -------------------------------------------------------------- rebuilding

    /** A protocol that has a credential: what becomes of it, and what is probed for it. */
    ghost predicate OneEdited(existing: map<ManagedProtocol, Credentials>, ports: Ports, protocol: ManagedProtocol, taken: seq<Port>,
                              before: seq<Probe>, after: seq<Probe>, r: Result<Credentials, Error>)
      requires protocol in existing
    {
      var port := FixedPort(existing, ports, protocol);
      && (r.Ok? <==> port !in taken && (port != existing[protocol].listenPort ==> free(|before|, port)))
      && (r.Ok? ==> r.value == existing[protocol].(listenPort := port))
      && after == before + (if port in taken || port == existing[protocol].listenPort then [] else [Probe(port, r.Ok?)])
    }

    /** A protocol without a credential takes the next secret; one that has a credential takes none. */
    ghost predicate NextSecret(existing: map<ManagedProtocol, Credentials>, protocol: ManagedProtocol, c: Credentials, before: nat, after: nat) {
      if protocol in existing then after == before else after == before + 1 && c.secret == secret(before)
    }

    /** The protocols newly enabled have the secrets from `first` on, in the order of building. */
    ghost predicate FreshSecrets(existing: map<ManagedProtocol, Credentials>, enabled: seq<ManagedProtocol>, i: nat,
                                 built: map<ManagedProtocol, Credentials>, first: nat, after: nat)
      requires i <= |PROTOCOLS|
    {
      && after == first + NewBefore(existing, enabled, i)
      && forall p :: p in built && p !in existing ==> built[p].secret == secret(first + NewBefore(existing, enabled, Position(p)))
    }

    lemma OneMoreSecret(existing: map<ManagedProtocol, Credentials>, enabled: seq<ManagedProtocol>, i: nat,
                        built: map<ManagedProtocol, Credentials>, c: Credentials, first: nat, before: nat, after: nat)
      requires i < |PROTOCOLS| && PROTOCOLS[i] in enabled
      requires FreshSecrets(existing, enabled, i, built, first, before) && NextSecret(existing, PROTOCOLS[i], c, before, after)
      ensures FreshSecrets(existing, enabled, i + 1, built[PROTOCOLS[i] := c], first, after)
    {
      EveryProtocolIsListed(PROTOCOLS[i]);
      NewBeforeNext(existing, enabled, i);
    }

    /** The credential of one enabled protocol, from what it has and what is asked for. */
    method BuildOne(existing: map<ManagedProtocol, Credentials>, ports: Ports, protocol: ManagedProtocol, taken: seq<Port>)
      returns (r: Result<Credentials, Error>)
      modifies this
      ensures old(probes) <= probes && old(drawn) <= drawn
      ensures r.Ok? ==>
                && Follows(existing, ports, protocol, r.value) && r.value.listenPort !in taken
                && KeptOrProbed(existing, protocol, r.value.listenPort, probes[|old(probes)|..])
                && (!IsFixed(existing, ports, protocol) ==> Drew(old(drawn), drawn, r.value.listenPort))
      ensures r.Err? ==> Hinders(existing, ports, protocol, taken, old(drawn), drawn, probes[|old(probes)|..], r.error)
      ensures r.Ok? ==> NextSecret(existing, protocol, r.value, old(generated), generated)
      ensures protocol in existing ==> OneEdited(existing, ports, protocol, taken, old(probes), probes, r)
    {
      r := BuildProtocolCredentials(if protocol in existing then Some(existing[protocol]) else None,
                                    if protocol in ports then Some(ports[protocol]) else None, taken);
    }

    /** One more enabled protocol, given what was built for those before it. */
    method BuildNext(existing: map<ManagedProtocol, Credentials>, enabled: seq<ManagedProtocol>, ports: Ports,
                     protocol: ManagedProtocol, built: map<ManagedProtocol, Credentials>, taken: seq<Port>,
                     ghost done: seq<ManagedProtocol>, ghost start: seq<Probe>, ghost first: nat)
      returns (r: Result<Credentials, Error>)
      requires protocol in enabled && protocol !in done && start <= probes && first <= drawn
      requires TakenPorts(built, taken)
      requires HeldPorts(existing, enabled, ports, Position(protocol), built, first, drawn)
      requires BuiltFrom(existing, ports, enabled, done, built, probes[|start|..])
      modifies this
      ensures old(probes) <= probes
      ensures r.Ok? ==> TakenPorts(built[protocol := r.value], taken + [r.value.listenPort])
      ensures r.Ok? ==> BuiltFrom(existing, ports, enabled, done + [protocol], built[protocol := r.value], probes[|start|..])
      ensures protocol in existing ==> OneEdited(existing, ports, protocol, taken, old(probes), probes, r)
      ensures drawn >= old(drawn)
      ensures r.Ok? ==> HeldPorts(existing, enabled, ports, Position(protocol) + 1, built[protocol := r.value], first, drawn)
      ensures r.Ok? ==> NextSecret(existing, protocol, r.value, old(generated), generated)
      ensures r.Err? ==> HasCause(existing, enabled, ports, first, drawn, probes[|start|..], r.error)
    {
      assert protocol !in built;
      r := BuildOne(existing, ports, protocol, taken);
      HeldLater(existing, enabled, ports, Position(protocol), built, first, old(drawn), drawn);
      assert probes[|start|..] == old(probes)[|start|..] + probes[|old(probes)|..];
      if r.Err? {
        HindersStill(existing, ports, protocol, taken, first, old(drawn), drawn, old(probes)[|start|..], probes[|old(probes)|..], r.error);
        FailureHasCause(existing, enabled, ports, protocol, built, taken, first, drawn, probes[|start|..], r.error);
      } else {
        NextIsBuilt(existing, enabled, ports, protocol, built, taken, done, r.value, first, drawn,
                    old(probes)[|start|..], probes[|old(probes)|..]);
      }
    }

    lemma NextIsBuilt(existing: map<ManagedProtocol, Credentials>, enabled: seq<ManagedProtocol>, ports: Ports, protocol: ManagedProtocol,
                      built: map<ManagedProtocol, Credentials>, taken: seq<Port>, done: seq<ManagedProtocol>, c: Credentials,
                      first: nat, until: nat, probed: seq<Probe>, more: seq<Probe>)
      requires protocol in enabled && protocol !in built && TakenPorts(built, taken)
      requires HeldPorts(existing, enabled, ports, Position(protocol), built, first, until)
      requires BuiltFrom(existing, ports, enabled, done, built, probed)
      requires Follows(existing, ports, protocol, c) && c.listenPort !in taken
      requires KeptOrProbed(existing, protocol, c.listenPort, more)
      requires !IsFixed(existing, ports, protocol) ==> Drew(first, until, c.listenPort)
      ensures TakenPorts(built[protocol := c], taken + [c.listenPort])
      ensures BuiltFrom(existing, ports, enabled, done + [protocol], built[protocol := c], probed + more)
      ensures HeldPorts(existing, enabled, ports, Position(protocol) + 1, built[protocol := c], first, until)
    {
      HeldExtends(existing, enabled, ports, protocol, built, c, first, until);
      BuiltExtends(existing, ports, enabled, done, built, probed, more, protocol, c);
      TakenExtends(built, taken, protocol, c);
    }

    /**
      The credentials of all enabled protocols in the fixed order, with the ports
      given out so far kept apart.
     */
    method BuildAll(existing: map<ManagedProtocol, Credentials>, enabled: seq<ManagedProtocol>, ports: Ports)
      returns (r: Result<map<ManagedProtocol, Credentials>, Error>)
      modifies this
      ensures old(probes) <= probes
      ensures r.Ok? ==> r.value.Keys == ProtocolSet(enabled) && PortsDistinct(r.value)
      ensures r.Ok? ==> forall p :: p in r.value ==> Follows(existing, ports, p, r.value[p])
      ensures r.Ok? ==> forall p :: p in r.value ==> KeptOrProbed(existing, p, r.value[p].listenPort, probes[|old(probes)|..])
      ensures r.Ok? ==> FreshSecrets(existing, enabled, |PROTOCOLS|, r.value, old(generated), generated)
      // When every enabled protocol has a credential, the outcome is exact.
      ensures AllExist(existing, enabled) ==> (r.Ok? <==> EditFits(existing, enabled, ports, |old(probes)|))
      ensures AllExist(existing, enabled) && r.Ok? ==>
                && r.value == Edited(existing, enabled, ports)
                && probes == old(probes) + FoundFree(Changed(existing, enabled, ports, |PROTOCOLS|))
      ensures KeepsAll(existing, enabled, ports) ==> probes == old(probes)
      ensures r.Err? ==> HasCause(existing, enabled, ports, old(drawn), drawn, probes[|old(probes)|..], r.error)
    {
      var built: map<ManagedProtocol, Credentials> := map[];
      var taken: seq<Port> := [];
      NewBeforeNext(existing, enabled, 0);
      for i := 0 to |PROTOCOLS|
        invariant InProgress(existing, enabled, ports, i, built, taken, old(probes), probes, old(drawn), drawn)
        invariant FreshSecrets(existing, enabled, i, built, old(generated), generated)
      {
        var next := BuildStep(existing, enabled, ports, i, built, taken, old(probes), old(drawn), old(generated));
        if next.Err? {
          return Err(next.error);
        }
        built, taken := next.value.0, next.value.1;
      }
      WholeEdit(existing, enabled, ports, built, taken, old(probes), probes, old(drawn), drawn);
      r := Ok(built);
    }

    /** The first i protocols are done. */
    ghost predicate InProgress(existing: map<ManagedProtocol, Credentials>, enabled: seq<ManagedProtocol>, ports: Ports, i: nat,
                               built: map<ManagedProtocol, Credentials>, taken: seq<Port>,
                               start: seq<Probe>, now: seq<Probe>, first: nat, until: nat) {
      && i <= |PROTOCOLS| && start <= now && first <= until
      && TakenPorts(built, taken)
      && BuiltFrom(existing, ports, enabled, PROTOCOLS[..i], built, now[|start|..])
      && HeldPorts(existing, enabled, ports, i, built, first, until)
      && (AllExist(existing, enabled) ==>
            IsEditOf(built, existing, ports) && ChangedAreFree(existing, enabled, ports, i, start, now))
    }

    /** The edit of existing credentials does not fit, and if it keeps all ports nothing was probed. */
    ghost predicate NoEdit(existing: map<ManagedProtocol, Credentials>, enabled: seq<ManagedProtocol>, ports: Ports,
                           start: seq<Probe>, now: seq<Probe>) {
      && (AllExist(existing, enabled) ==> !EditFits(existing, enabled, ports, |start|))
      && (KeepsAll(existing, enabled, ports) ==> now == start)
    }

    /** One protocol, enabled or not. */
    method BuildStep(existing: map<ManagedProtocol, Credentials>, enabled: seq<ManagedProtocol>, ports: Ports, i: nat,
                     built: map<ManagedProtocol, Credentials>, taken: seq<Port>, ghost start: seq<Probe>, ghost first: nat,
                     ghost firstSecret: nat)
      returns (r: Result<(map<ManagedProtocol, Credentials>, seq<Port>), Error>)
      requires i < |PROTOCOLS| && InProgress(existing, enabled, ports, i, built, taken, start, probes, first, drawn)
      requires FreshSecrets(existing, enabled, i, built, firstSecret, generated)
      modifies this
      ensures old(probes) <= probes
      ensures r.Ok? ==> InProgress(existing, enabled, ports, i + 1, r.value.0, r.value.1, start, probes, first, drawn)
      ensures r.Ok? ==> FreshSecrets(existing, enabled, i + 1, r.value.0, firstSecret, generated)
      ensures r.Err? ==>
                && HasCause(existing, enabled, ports, first, drawn, probes[|start|..], r.error)
                && NoEdit(existing, enabled, ports, start, probes)
    {
      if PROTOCOLS[i] in enabled {
        r := BuildEnabled(existing, enabled, ports, i, built, taken, start, first, firstSecret);
      } else {
        OneMoreSkipped(existing, enabled, ports, i, built, taken, start, probes, first, drawn);
        NewBeforeNext(existing, enabled, i);
        r := Ok((built, taken));
      }
    }

    method BuildEnabled(existing: map<ManagedProtocol, Credentials>, enabled: seq<ManagedProtocol>, ports: Ports, i: nat,
                        built: map<ManagedProtocol, Credentials>, taken: seq<Port>, ghost start: seq<Probe>, ghost first: nat,
                        ghost firstSecret: nat)
      returns (r: Result<(map<ManagedProtocol, Credentials>, seq<Port>), Error>)
      requires i < |PROTOCOLS| && InProgress(existing, enabled, ports, i, built, taken, start, probes, first, drawn)
      requires FreshSecrets(existing, enabled, i, built, firstSecret, generated)
      requires PROTOCOLS[i] in enabled
      modifies this
      ensures old(probes) <= probes
      ensures r.Ok? ==> InProgress(existing, enabled, ports, i + 1, r.value.0, r.value.1, start, probes, first, drawn)
      ensures r.Ok? ==> FreshSecrets(existing, enabled, i + 1, r.value.0, firstSecret, generated)
      ensures r.Err? ==>
                && HasCause(existing, enabled, ports, first, drawn, probes[|start|..], r.error)
                && NoEdit(existing, enabled, ports, start, probes)
    {
      EveryProtocolIsListed(PROTOCOLS[i]);
      ghost var before := probes;
      var next := BuildNext(existing, enabled, ports, PROTOCOLS[i], built, taken, PROTOCOLS[..i], start, first);
      if next.Err? {
        NothingFits(existing, enabled, ports, i, built, taken, start, before, probes, first, old(drawn), next);
        return Err(next.error);
      }
      OneMoreInProgress(existing, enabled, ports, i, built, taken, start, before, probes, first, old(drawn), drawn, next);
      OneMoreSecret(existing, enabled, i, built, next.value, firstSecret, old(generated), generated);
      r := Ok((built[PROTOCOLS[i] := next.value], taken + [next.value.listenPort]));
    }

    lemma NothingFits(existing: map<ManagedProtocol, Credentials>, enabled: seq<ManagedProtocol>, ports: Ports, i: nat,
                      built: map<ManagedProtocol, Credentials>, taken: seq<Port>, start: seq<Probe>, before: seq<Probe>, now: seq<Probe>,
                      first: nat, until: nat, r: Result<Credentials, Error>)
      requires i < |PROTOCOLS| && PROTOCOLS[i] in enabled && r.Err?
      requires InProgress(existing, enabled, ports, i, built, taken, start, before, first, until)
      requires PROTOCOLS[i] in existing ==> OneEdited(existing, ports, PROTOCOLS[i], taken, before, now, r)
      ensures NoEdit(existing, enabled, ports, start, now)
    {
      EveryProtocolIsListed(PROTOCOLS[i]);
      if AllExist(existing, enabled) {
        NoNextNoFit(existing, enabled, ports, i, built, taken, start, before);
        KeepingAllFits(existing, enabled, ports, i, |start|);
      }
    }

    lemma OneMoreInProgress(existing: map<ManagedProtocol, Credentials>, enabled: seq<ManagedProtocol>, ports: Ports, i: nat,
                            built: map<ManagedProtocol, Credentials>, taken: seq<Port>, start: seq<Probe>, before: seq<Probe>, now: seq<Probe>,
                            first: nat, until: nat, later: nat, r: Result<Credentials, Error>)
      requires i < |PROTOCOLS| && PROTOCOLS[i] in enabled && r.Ok?
      requires InProgress(existing, enabled, ports, i, built, taken, start, before, first, until)
      requires before <= now && until <= later
      requires TakenPorts(built[PROTOCOLS[i] := r.value], taken + [r.value.listenPort])
      requires BuiltFrom(existing, ports, enabled, PROTOCOLS[..i] + [PROTOCOLS[i]], built[PROTOCOLS[i] := r.value], now[|start|..])
      requires PROTOCOLS[i] in existing ==> OneEdited(existing, ports, PROTOCOLS[i], taken, before, now, r)
      requires HeldPorts(existing, enabled, ports, i + 1, built[PROTOCOLS[i] := r.value], first, later)
      ensures InProgress(existing, enabled, ports, i + 1, built[PROTOCOLS[i] := r.value], taken + [r.value.listenPort],
                         start, now, first, later)
    {
      assert PROTOCOLS[..i + 1] == PROTOCOLS[..i] + [PROTOCOLS[i]];
      if AllExist(existing, enabled) {
        OneMoreIsFree(existing, enabled, ports, i, taken, start, before, now, r);
      }
    }

    lemma OneMoreSkipped(existing: map<ManagedProtocol, Credentials>, enabled: seq<ManagedProtocol>, ports: Ports, i: nat,
                         built: map<ManagedProtocol, Credentials>, taken: seq<Port>, start: seq<Probe>, now: seq<Probe>,
                         first: nat, until: nat)
      requires i < |PROTOCOLS| && PROTOCOLS[i] !in enabled
      requires InProgress(existing, enabled, ports, i, built, taken, start, now, first, until)
      ensures InProgress(existing, enabled, ports, i + 1, built, taken, start, now, first, until)
    {
      assert PROTOCOLS[..i + 1] == PROTOCOLS[..i] + [PROTOCOLS[i]];
      assert AllExist(existing, enabled) ==> Changed(existing, enabled, ports, i + 1) == Changed(existing, enabled, ports, i);
    }

    lemma WholeEdit(existing: map<ManagedProtocol, Credentials>, enabled: seq<ManagedProtocol>, ports: Ports,
                    built: map<ManagedProtocol, Credentials>, taken: seq<Port>,
                    start: seq<Probe>, now: seq<Probe>, first: nat, until: nat)
      requires InProgress(existing, enabled, ports, |PROTOCOLS|, built, taken, start, now, first, until)
      ensures built.Keys == ProtocolSet(enabled) && PortsDistinct(built)
      ensures AllExist(existing, enabled) ==>
                && EditFits(existing, enabled, ports, |start|) && built == Edited(existing, enabled, ports)
                && now == start + FoundFree(Changed(existing, enabled, ports, |PROTOCOLS|))
      ensures KeepsAll(existing, enabled, ports) ==> now == start
    {
      BuiltFromAll(existing, ports, enabled, built, now[|start|..]);
      if AllExist(existing, enabled) {
        BuiltFits(existing, enabled, ports, built, start, now);
        KeepingAllFits(existing, enabled, ports, |PROTOCOLS|, |start|);
      }
    }

    /** The edited ports are all different, and those that change are free when they are probed, one after the other. */
    ghost predicate EditFits(existing: map<ManagedProtocol, Credentials>, enabled: seq<ManagedProtocol>, ports: Ports, first: nat)
      requires AllExist(existing, enabled)
    {
      && StayApart(existing, enabled, ports)
      && AllFree(Changed(existing, enabled, ports, |PROTOCOLS|), first)
    }

    ghost predicate AllFree(ports: seq<Port>, first: nat) { forall n :: 0 <= n < |ports| ==> free(first + n, ports[n]) }

    /** So far exactly the changed ports were probed, and found free. */
    ghost predicate ChangedAreFree(existing: map<ManagedProtocol, Credentials>, enabled: seq<ManagedProtocol>, ports: Ports, i: nat,
                                   start: seq<Probe>, now: seq<Probe>)
      requires i <= |PROTOCOLS| && AllExist(existing, enabled)
    {
      && now == start + FoundFree(Changed(existing, enabled, ports, i))
      && AllFree(Changed(existing, enabled, ports, i), |start|)
    }

    lemma OneMoreIsFree(existing: map<ManagedProtocol, Credentials>, enabled: seq<ManagedProtocol>, ports: Ports, i: nat, taken: seq<Port>,
                        start: seq<Probe>, before: seq<Probe>, now: seq<Probe>, r: Result<Credentials, Error>)
      requires i < |PROTOCOLS| && AllExist(existing, enabled) && PROTOCOLS[i] in enabled
      requires ChangedAreFree(existing, enabled, ports, i, start, before)
      requires r.Ok? && OneEdited(existing, ports, PROTOCOLS[i], taken, before, now, r)
      ensures ChangedAreFree(existing, enabled, ports, i + 1, start, now)
    {
      var port, own := FixedPort(existing, ports, PROTOCOLS[i]), existing[PROTOCOLS[i]].listenPort;
      var soFar := Changed(existing, enabled, ports, i);
      if port != own {
        assert Changed(existing, enabled, ports, i + 1) == soFar + [port];
        assert FoundFree(soFar + [port]) == FoundFree(soFar) + [Probe(port, true)];
      } else {
        assert Changed(existing, enabled, ports, i + 1) == soFar;
      }
    }

    /** A protocol whose port is taken by an earlier one, or changes to one that is not free, keeps the whole edit from fitting. */
    lemma NoNextNoFit(existing: map<ManagedProtocol, Credentials>, enabled: seq<ManagedProtocol>, ports: Ports, i: nat,
                      built: map<ManagedProtocol, Credentials>, taken: seq<Port>, start: seq<Probe>, before: seq<Probe>)
      requires i < |PROTOCOLS| && AllExist(existing, enabled) && PROTOCOLS[i] in enabled && PROTOCOLS[i] !in built
      requires TakenPorts(built, taken) && IsEditOf(built, existing, ports)
      requires forall p :: p in built ==> p in enabled
      requires ChangedAreFree(existing, enabled, ports, i, start, before)
      requires var port := FixedPort(existing, ports, PROTOCOLS[i]);
               port in taken || (port != existing[PROTOCOLS[i]].listenPort && !free(|before|, port))
      ensures !EditFits(existing, enabled, ports, |start|)
    {
      var port := FixedPort(existing, ports, PROTOCOLS[i]);
      if port in taken {
        var p :| p in built && built[p].listenPort == port;
        assert FixedPort(existing, ports, p) == port;
      } else {
        var soFar, all := Changed(existing, enabled, ports, i), Changed(existing, enabled, ports, |PROTOCOLS|);
        ChangedGrows(existing, enabled, ports, i + 1, |PROTOCOLS|);
        assert Changed(existing, enabled, ports, i + 1) == soFar + [port];
        assert all[|soFar|] == port;
      }
    }

    lemma BuiltFits(existing: map<ManagedProtocol, Credentials>, enabled: seq<ManagedProtocol>, ports: Ports,
                    built: map<ManagedProtocol, Credentials>, start: seq<Probe>, now: seq<Probe>)
      requires AllExist(existing, enabled) && built.Keys == ProtocolSet(enabled)
      requires IsEditOf(built, existing, ports) && PortsDistinct(built)
      requires ChangedAreFree(existing, enabled, ports, |PROTOCOLS|, start, now)
      ensures EditFits(existing, enabled, ports, |start|)
      ensures built == Edited(existing, enabled, ports)
    {
      forall p | p in enabled ensures p in built && built[p].listenPort == FixedPort(existing, ports, p) {
        assert p in ProtocolSet(enabled);
      }
    }

    /** Where no port changes none is probed, and ports that differ now fit. */
    lemma {:induction false} KeepingAllFits(existing: map<ManagedProtocol, Credentials>, enabled: seq<ManagedProtocol>, ports: Ports, i: nat, first: nat)
      requires i <= |PROTOCOLS| && AllExist(existing, enabled)
      ensures KeepsAll(existing, enabled, ports) ==> Changed(existing, enabled, ports, i) == []
      ensures KeepsAll(existing, enabled, ports) && StayApart(existing, enabled, ports) && i == |PROTOCOLS| ==>
                EditFits(existing, enabled, ports, first)
    {
      if i > 0 {
        KeepingAllFits(existing, enabled, ports, i - 1, first);
      }
    }

    /**
      The deployment the options describe. An existing one lends its preferences,
      its subscription credential and the credentials of protocols that stay.
     */
    method ApplyOptions<S, P>(existing: Option<Deployment<S, P>>, options: Options<S>, defaults: P, newCredential: string,
                              others: Deployment<S, P> -> bool)
      returns (r: Result<Deployment<S, P>, Error>)
      modifies this
      ensures r.Ok? ==>
                && ValidProtocols(r.value) && others(r.value)
                && r.value.settings == options.settings && r.value.enabled == options.enabled
                && r.value.realityDecoySni == options.realityDecoySni
                && r.value.preferences == (if existing.Some? then existing.value.preferences else defaults)
                && r.value.subscriptionCredential == (if existing.Some? then existing.value.subscriptionCredential else newCredential)
                && r.value.credentials.Keys == ProtocolSet(options.enabled)
      ensures r.Ok? ==>
                && options.enabled != [] && Distinct(options.enabled)
                && (VlessReality in options.enabled ==> options.realityDecoySni.Some? && options.realityDecoySni.value != "")
                && forall p :: p in r.value.credentials ==> 10000 <= r.value.credentials[p].listenPort <= 65535
      ensures r.Ok? ==> old(probes) <= probes
                        && forall p :: p in r.value.credentials ==>
                             && Follows(CredentialsOf(existing), options.ports, p, r.value.credentials[p])
                             && KeptOrProbed(CredentialsOf(existing), p, r.value.credentials[p].listenPort, probes[|old(probes)|..])
      ensures r.Ok? ==> FreshSecrets(CredentialsOf(existing), options.enabled, |PROTOCOLS|, r.value.credentials, old(generated), generated)
      ensures !RequestedPortsFit(options.enabled, options.ports) ==> r.Err? && probes == old(probes)
      ensures (exists p :: p in options.ports && p !in options.enabled) && PortsFitApart(options.ports) ==> r == Err(DisabledPort)
      // An edit that enables nothing new has one outcome.
      ensures existing.Some? && RequestedPortsFit(options.enabled, options.ports)
              && AllExist(existing.value.credentials, options.enabled) ==>
                var edited := Rebuilt(existing.value, options);
                if EditFits(existing.value.credentials, options.enabled, options.ports, |old(probes)|)
                then r == if ValidProtocols(edited) && others(edited) then Ok(edited) else Err(Invalid)
                else r.Err?
      ensures KeepsAll(CredentialsOf(existing), options.enabled, options.ports) ==> probes == old(probes)
      // Any other edit fails only for a port, or because what was built is not valid.
      ensures r.Err? && r.error != Invalid && RequestedPortsFit(options.enabled, options.ports) ==>
                old(probes) <= probes && HasCause(CredentialsOf(existing), options.enabled, options.ports, old(drawn), drawn, probes[|old(probes)|..], r.error)
      ensures r == Err(Invalid) ==>
                exists c: map<ManagedProtocol, Credentials> ::
                  && c.Keys == ProtocolSet(options.enabled) && PortsDistinct(c)
                  && var built := Assembled(existing, options, defaults, newCredential, c);
                     !(ValidProtocols(built) && others(built))
    {
      var failed := ValidateRequestedPorts(options.enabled, options.ports);
      if failed.Some? {
        return Err(failed.value);
      }
      var credentials := BuildAll(CredentialsOf(existing), options.enabled, options.ports);
      if credentials.Err? {
        return Err(credentials.error);
      }
      var config := Assembled(existing, options, defaults, newCredential, credentials.value);
      if ValidProtocols(config) && others(config) {
        return Ok(config);
      }
      r := Err(Invalid);
    }

    /**
      The unchanged edit: a valid deployment rebuilt with its own values. It comes
      back equal, without one port probe, exactly when it holds credentials for its
      enabled protocols only; otherwise the edit is refused.
     */
    method RebuildWithOwnValues<S, P>(existing: Deployment<S, P>, defaults: P, newCredential: string, others: Deployment<S, P> -> bool)
      returns (r: Result<Deployment<S, P>, Error>)
      requires ValidProtocols(existing) && others(existing)
      modifies this
      ensures probes == old(probes)
      ensures r == if existing.credentials.Keys == ProtocolSet(existing.enabled) then Ok(existing) else Err(DisabledPort)
    {
      KeepingAllFits(existing.credentials, existing.enabled, OwnOptions(existing).ports, |PROTOCOLS|, |probes|);
      OwnOptionsFitIffNothingIsExtra(existing);
      r := ApplyOptions(Some(existing), OwnOptions(existing), defaults, newCredential, others);
    }
  }

  function NewProtocols(existing: map<ManagedProtocol, Credentials>, enabled: seq<ManagedProtocol>, i: nat): set<ManagedProtocol> {
    set p | p in enabled && p !in existing && Position(p) < i
  }

  /** How many of the first i protocols are newly enabled. */
  function NewBefore(existing: map<ManagedProtocol, Credentials>, enabled: seq<ManagedProtocol>, i: nat): nat {
    |NewProtocols(existing, enabled, i)|
  }

  lemma NewBeforeNext(existing: map<ManagedProtocol, Credentials>, enabled: seq<ManagedProtocol>, i: nat)
    requires i < |PROTOCOLS|
    ensures NewBefore(existing, enabled, i + 1)
         == NewBefore(existing, enabled, i) + (if PROTOCOLS[i] in enabled && PROTOCOLS[i] !in existing then 1 else 0)
    ensures NewBefore(existing, enabled, 0) == 0
  {
    forall p: ManagedProtocol ensures Position(p) == i <==> p == PROTOCOLS[i] {
      EveryProtocolIsListed(p);
    }
    var now, next := NewProtocols(existing, enabled, i), NewProtocols(existing, enabled, i + 1);
    assert next == now + (if PROTOCOLS[i] in enabled && PROTOCOLS[i] !in existing then {PROTOCOLS[i]} else {});
    assert NewProtocols(existing, enabled, 0) == {};
  }

  /** No two newly enabled protocols share a secret: their generations are different ones. */
  lemma NewSecretsAreTheirOwn(existing: map<ManagedProtocol, Credentials>, enabled: seq<ManagedProtocol>, p: ManagedProtocol, q: ManagedProtocol)
    requires p in enabled && p !in existing && q in enabled && q !in existing && Position(p) < Position(q)
    ensures NewBefore(existing, enabled, Position(p)) < NewBefore(existing, enabled, Position(q))
  {
    var before, after := NewProtocols(existing, enabled, Position(p)), NewProtocols(existing, enabled, Position(q));
    SmallerSet(before + {p}, after);
  }

  lemma {:induction false} SmallerSet<T>(a: set<T>, b: set<T>)
    requires a <= b
    ensures |a| <= |b|
  {
    assert b == a + (b - a);
  }

  function Assembled<S, P>(existing: Option<Deployment<S, P>>, options: Options<S>, defaults: P, newCredential: string,
                           credentials: map<ManagedProtocol, Credentials>): Deployment<S, P> {
    Deployment(
      options.settings,
      if existing.Some? then existing.value.preferences else defaults,
      if existing.Some? then existing.value.subscriptionCredential else newCredential,
      options.realityDecoySni, options.enabled, credentials)
  }

  function CredentialsOf<S, P>(existing: Option<Deployment<S, P>>): map<ManagedProtocol, Credentials> {
    if existing.Some? then existing.value.credentials else map[]
  }

  /** The requested port if there is one; otherwise, and for the secret always, the existing credential. */
  predicate Follows(existing: map<ManagedProtocol, Credentials>, ports: Ports, p: ManagedProtocol, c: Credentials) {
    && (p in ports ==> c.listenPort == ports[p])
    && (p in existing ==> c.secret == existing[p].secret && (p !in ports ==> c.listenPort == existing[p].listenPort))
  }

  /** The protocol's own port, or one that was probed and found free. */
  predicate KeptOrProbed(existing: map<ManagedProtocol, Credentials>, p: ManagedProtocol, port: Port,
                         probed: seq<Probe>) {
    || (p in existing && existing[p].listenPort == port)
    || Probe(port, true) in probed
  }

  /** The list holds the ports of the built credentials, which are all different. */
  ghost predicate TakenPorts(built: map<ManagedProtocol, Credentials>, taken: seq<Port>) {
    && PortsDistinct(built)
    && (forall p :: p in built ==> built[p].listenPort in taken)
    && (forall v :: v in taken ==> exists p :: p in built && built[p].listenPort == v)
  }

  lemma TakenExtends(built: map<ManagedProtocol, Credentials>, taken: seq<Port>, protocol: ManagedProtocol, c: Credentials)
    requires TakenPorts(built, taken) && protocol !in built && c.listenPort !in taken
    ensures TakenPorts(built[protocol := c], taken + [c.listenPort])
  {
    var built', taken' := built[protocol := c], taken + [c.listenPort];
    forall v | v in taken' ensures exists p :: p in built' && built'[p].listenPort == v {
      if v in taken {
        var p :| p in built && built[p].listenPort == v;
        assert p in built' && built'[p].listenPort == v;
      } else {
        assert built'[protocol].listenPort == v;
      }
    }
  }

  /** Each built credential is the existing one at the port the edit gives it. */
  ghost predicate IsEditOf(built: map<ManagedProtocol, Credentials>, existing: map<ManagedProtocol, Credentials>, ports: Ports) {
    forall p :: p in built ==> p in existing && built[p] == existing[p].(listenPort := FixedPort(existing, ports, p))
  }

  /** The credentials of the enabled protocols among `done`, each as the options ask. */
  ghost predicate BuiltFrom(existing: map<ManagedProtocol, Credentials>, ports: Ports, enabled: seq<ManagedProtocol>,
                            done: seq<ManagedProtocol>, built: map<ManagedProtocol, Credentials>,
                            probed: seq<Probe>) {
    && built.Keys == (set p | p in enabled && p in done)
    && (forall p :: p in built ==> Follows(existing, ports, p, built[p]))
    && (forall p :: p in built ==> KeptOrProbed(existing, p, built[p].listenPort, probed))
  }

  lemma BuiltExtends(existing: map<ManagedProtocol, Credentials>, ports: Ports, enabled: seq<ManagedProtocol>,
                     done: seq<ManagedProtocol>, built: map<ManagedProtocol, Credentials>,
                     probed: seq<Probe>, more: seq<Probe>, protocol: ManagedProtocol, c: Credentials)
    requires BuiltFrom(existing, ports, enabled, done, built, probed)
    requires protocol in enabled && Follows(existing, ports, protocol, c)
    requires KeptOrProbed(existing, protocol, c.listenPort, more)
    ensures BuiltFrom(existing, ports, enabled, done + [protocol], built[protocol := c], probed + more)
  {
  }

  lemma BuiltFromAll(existing: map<ManagedProtocol, Credentials>, ports: Ports, enabled: seq<ManagedProtocol>,
                     built: map<ManagedProtocol, Credentials>, probed: seq<Probe>)
    requires BuiltFrom(existing, ports, enabled, PROTOCOLS[..|PROTOCOLS|], built, probed)
    ensures built.Keys == ProtocolSet(enabled)
  {
    assert PROTOCOLS[..|PROTOCOLS|] == PROTOCOLS;
    forall p: ManagedProtocol ensures p in PROTOCOLS {
      EveryProtocolIsListed(p);
    }
  }

  /** Every enabled protocol already has a credential and is asked for no other port. */
  predicate KeepsAll(existing: map<ManagedProtocol, Credentials>, enabled: seq<ManagedProtocol>, ports: Ports) {
    forall p :: p in enabled ==> p in existing && (p in ports ==> ports[p] == existing[p].listenPort)
  }

  /** Every enabled protocol already has a credential. */
  predicate AllExist(existing: map<ManagedProtocol, Credentials>, enabled: seq<ManagedProtocol>) {
    forall p :: p in enabled ==> p in existing
  }

  /** The protocol's port does not have to be drawn: it is requested or kept. */
  predicate IsFixed(existing: map<ManagedProtocol, Credentials>, ports: Ports, p: ManagedProtocol) { p in ports || p in existing }

  function FixedPort(existing: map<ManagedProtocol, Credentials>, ports: Ports, p: ManagedProtocol): Port
    requires IsFixed(existing, ports, p)
  {
    if p in ports then ports[p] else existing[p].listenPort
  }

  /** The edited ports are all different. */
  ghost predicate StayApart(existing: map<ManagedProtocol, Credentials>, enabled: seq<ManagedProtocol>, ports: Ports)
    requires AllExist(existing, enabled)
  {
    forall p, q :: p in enabled && q in enabled && p != q ==> FixedPort(existing, ports, p) != FixedPort(existing, ports, q)
  }

  /** The ports that an edit changes, of the first i protocols. */
  function Changed(existing: map<ManagedProtocol, Credentials>, enabled: seq<ManagedProtocol>, ports: Ports, i: nat): seq<Port>
    requires i <= |PROTOCOLS| && AllExist(existing, enabled)
  {
    if i == 0 then []
    else
      var p := PROTOCOLS[i - 1];
      Changed(existing, enabled, ports, i - 1)
      + (if p in enabled && FixedPort(existing, ports, p) != existing[p].listenPort then [FixedPort(existing, ports, p)] else [])
  }

  lemma {:induction false} ChangedGrows(existing: map<ManagedProtocol, Credentials>, enabled: seq<ManagedProtocol>, ports: Ports, i: nat, j: nat)
    requires i <= j <= |PROTOCOLS| && AllExist(existing, enabled)
    ensures Changed(existing, enabled, ports, i) <= Changed(existing, enabled, ports, j)
  {
    if i < j {
      ChangedGrows(existing, enabled, ports, i, j - 1);
    }
  }

  function FoundFree(ports: seq<Port>): (probes: seq<Probe>)
    ensures |probes| == |ports|
  {
    seq(|ports|, i requires 0 <= i < |ports| => Probe(ports[i], true))
  }

  function Edited(existing: map<ManagedProtocol, Credentials>, enabled: seq<ManagedProtocol>, ports: Ports): map<ManagedProtocol, Credentials> {
    map p | p in existing && p in enabled :: existing[p].(listenPort := FixedPort(existing, ports, p))
  }

  function Rebuilt<S, P>(existing: Deployment<S, P>, options: Options<S>): Deployment<S, P> {
    Deployment(options.settings, existing.preferences, existing.subscriptionCredential, options.realityDecoySni,
               options.enabled, Edited(existing.credentials, options.enabled, options.ports))
  }

  predicate PortsFitApart(ports: Ports) {
    && (forall p :: p in ports ==> MIN_PROTOCOL_PORT <= ports[p] <= MAX_PROTOCOL_PORT)
    && (forall p, q :: p in ports && q in ports && p != q ==> ports[p] != ports[q])
  }

  /** The options an edit starts from: every value, and the port of every credential, as it is. */
  function OwnOptions<S, P>(d: Deployment<S, P>): Options<S> {
    Options(d.settings, d.realityDecoySni, d.enabled, map p | p in d.credentials :: d.credentials[p].listenPort)
  }

  lemma OwnOptionsFitIffNothingIsExtra<S, P>(d: Deployment<S, P>)
    requires ValidProtocols(d)
    ensures RequestedPortsFit(d.enabled, OwnOptions(d).ports) <==> d.credentials.Keys == ProtocolSet(d.enabled)
    ensures d.credentials.Keys == ProtocolSet(d.enabled) ==> Rebuilt(d, OwnOptions(d)) == d
    ensures d.credentials.Keys != ProtocolSet(d.enabled) ==> exists p :: p in OwnOptions(d).ports && p !in d.enabled
  {
    assert OwnOptions(d).ports.Keys == d.credentials.Keys;
    assert d.credentials.Keys == ProtocolSet(d.enabled) <==> forall p :: p in d.credentials ==> p in d.enabled;
    if d.credentials.Keys == ProtocolSet(d.enabled) {
      assert Edited(d.credentials, d.enabled, OwnOptions(d).ports) == d.credentials;
    }
  }

  // ---------------------------------------------------------------- the wizard's protocol selection

  function Selected(existing: seq<ManagedProtocol>, selected: seq<ManagedProtocol>): seq<ManagedProtocol> {
    if existing == [] then []
    else (if existing[0] in selected then [existing[0]] else []) + Selected(existing[1..], selected)
  }

  /** Kept protocols in their old order, then the new ones in the order they were selected. */
  method MergeProtocolOrder(existing: Option<seq<ManagedProtocol>>, selected: seq<ManagedProtocol>)
    returns (merged: seq<ManagedProtocol>)
    ensures ProtocolSet(merged) == ProtocolSet(selected)
    ensures var old_ := if existing.Some? then existing.value else [];
            Selected(old_, selected) <= merged && (Distinct(old_) ==> Distinct(merged))
    // Selecting what is enabled already, in any order, changes nothing.
    ensures existing.Some? && Distinct(existing.value) && ProtocolSet(existing.value) == ProtocolSet(selected) ==>
              merged == existing.value
    ensures forall i, j :: KeptCount(existing, selected) <= i < j < |merged| ==> ComesBefore(selected, merged[i], merged[j])
  {
    var old_ := if existing.Some? then existing.value else [];
    merged := AppendSelected(Selected(old_, selected), selected);
    SelectedIsTheIntersection(old_, selected);
    if Distinct(old_) {
      SelectedIsDistinct(old_, selected);
      if ProtocolSet(old_) == ProtocolSet(selected) {
        SameSelectionKeepsTheOrder(old_, selected, merged);
      }
    }
  }

  method AppendSelected(kept: seq<ManagedProtocol>, selected: seq<ManagedProtocol>) returns (merged: seq<ManagedProtocol>)
    ensures MergedFrom(kept, selected, merged)
  {
    merged := kept;
    assert selected[..0] == [];
    for i := 0 to |selected|
      invariant MergedFrom(kept, selected[..i], merged)
    {
      assert selected[..i + 1] == selected[..i] + [selected[i]];
      MergedExtends(kept, selected[..i], merged, selected[i]);
      if selected[i] !in merged {
        merged := merged + [selected[i]];
      }
    }
    assert selected[..|selected|] == selected;
  }

  /** The kept protocols, followed by the other ones of `done` in an order `done` shows them in. */
  ghost predicate MergedFrom(kept: seq<ManagedProtocol>, done: seq<ManagedProtocol>, merged: seq<ManagedProtocol>) {
    && kept <= merged
    && ProtocolSet(merged) == ProtocolSet(kept) + ProtocolSet(done)
    && (forall j :: |kept| <= j < |merged| ==> merged[j] in done)
    && (forall j, k :: |kept| <= j < k < |merged| ==> ComesBefore(done, merged[j], merged[k]))
    && (Distinct(kept) ==> Distinct(merged))
  }

  lemma MergedExtends(kept: seq<ManagedProtocol>, done: seq<ManagedProtocol>, merged: seq<ManagedProtocol>, p: ManagedProtocol)
    requires MergedFrom(kept, done, merged)
    ensures MergedFrom(kept, done + [p], if p in merged then merged else merged + [p])
  {
    SetOfAppended(done, p);
    SetOfAppended(merged, p);
    assert p in merged <==> p in ProtocolSet(merged);
    forall j, k | |kept| <= j < k < |merged| ensures ComesBefore(done + [p], merged[j], merged[k]) {
      ComesBeforeStays(done, p, merged[j], merged[k]);
    }
    forall j | |kept| <= j < |merged| ensures ComesBefore(done + [p], merged[j], p) {
      LastComesAfter(done, p, merged[j]);
    }
    if p !in merged {
      DistinctAppended(merged, p);
    }
  }

  lemma DistinctAppended(s: seq<ManagedProtocol>, p: ManagedProtocol)
    requires p !in s
    ensures Distinct(s) ==> Distinct(s + [p])
  {
  }

  lemma SetOfAppended(s: seq<ManagedProtocol>, p: ManagedProtocol)
    ensures ProtocolSet(s + [p]) == ProtocolSet(s) + {p}
  {
  }

  function KeptCount(existing: Option<seq<ManagedProtocol>>, selected: seq<ManagedProtocol>): nat {
    |Selected(if existing.Some? then existing.value else [], selected)|
  }

  /** a has an occurrence before some occurrence of b. */
  ghost predicate ComesBefore(s: seq<ManagedProtocol>, a: ManagedProtocol, b: ManagedProtocol) {
    exists i, j :: 0 <= i < j < |s| && s[i] == a && s[j] == b
  }

  lemma ComesBeforeStays(s: seq<ManagedProtocol>, x: ManagedProtocol, a: ManagedProtocol, b: ManagedProtocol)
    requires ComesBefore(s, a, b)
    ensures ComesBefore(s + [x], a, b)
  {
    var i, j :| 0 <= i < j < |s| && s[i] == a && s[j] == b;
    assert (s + [x])[i] == a && (s + [x])[j] == b;
  }

  lemma LastComesAfter(s: seq<ManagedProtocol>, x: ManagedProtocol, a: ManagedProtocol)
    requires a in s
    ensures ComesBefore(s + [x], a, x)
  {
    var i :| 0 <= i < |s| && s[i] == a;
    assert (s + [x])[i] == a && (s + [x])[|s|] == x;
  }

  lemma {:induction false} SelectedIsDistinct(existing: seq<ManagedProtocol>, selected: seq<ManagedProtocol>)
    requires Distinct(existing)
    ensures Distinct(Selected(existing, selected))
  {
    if existing != [] {
      SelectedIsDistinct(existing[1..], selected);
      SelectedIsTheIntersection(existing[1..], selected);
      var rest := Selected(existing[1..], selected);
      forall j | 0 <= j < |rest| ensures rest[j] != existing[0] {
        assert rest[j] in ProtocolSet(rest);
      }
    }
  }

  lemma {:induction false} SelectedIsTheIntersection(existing: seq<ManagedProtocol>, selected: seq<ManagedProtocol>)
    ensures ProtocolSet(Selected(existing, selected)) == ProtocolSet(existing) * ProtocolSet(selected)
  {
    if existing != [] {
      SelectedIsTheIntersection(existing[1..], selected);
      var rest := Selected(existing[1..], selected);
      assert existing == [existing[0]] + existing[1..];
      assert ProtocolSet(existing) == {existing[0]} + ProtocolSet(existing[1..]);
      if existing[0] in selected {
        assert ProtocolSet([existing[0]] + rest) == {existing[0]} + ProtocolSet(rest);
      } else {
        assert [] + rest == rest;
      }
    }
  }

  lemma {:induction false} AllSelected(existing: seq<ManagedProtocol>, selected: seq<ManagedProtocol>)
    requires forall p :: p in existing ==> p in selected
    ensures Selected(existing, selected) == existing
  {
    if existing != [] {
      assert existing == [existing[0]] + existing[1..];
      AllSelected(existing[1..], selected);
    }
  }

  lemma SameSelectionKeepsTheOrder(existing: seq<ManagedProtocol>, selected: seq<ManagedProtocol>, merged: seq<ManagedProtocol>)
    requires ProtocolSet(existing) == ProtocolSet(selected) && ProtocolSet(merged) == ProtocolSet(selected)
    requires Selected(existing, selected) <= merged && Distinct(merged)
    ensures merged == existing
  {
    assert forall p :: p in existing ==> p in ProtocolSet(existing);
    AllSelected(existing, selected);
    if |existing| < |merged| {
      assert merged[|existing|] in ProtocolSet(merged);
      NextIsNew(existing, merged);
      assert false;
    }
  }

  lemma NextIsNew(s: seq<ManagedProtocol>, t: seq<ManagedProtocol>)
    requires s <= t && |s| < |t| && Distinct(t)
    ensures t[|s|] !in ProtocolSet(s)
  {
    forall i | 0 <= i < |s| ensures s[i] != t[|s|] {
      assert s[i] == t[i];
    }
  }

  /** After the ports of deselected protocols are cleared no requested port belongs to one. */
  method ClearPortsForDisabled(ports: Ports, enabled: seq<ManagedProtocol>) returns (cleared: Ports)
    ensures forall p :: p in cleared <==> p in ports && p in enabled
    ensures forall p :: p in cleared ==> cleared[p] == ports[p]
    ensures PortsFitApart(ports) ==> RequestedPortsFit(enabled, cleared)
  {
    cleared := ports;
    for i := 0 to |PROTOCOLS|
      invariant forall p :: p in cleared <==> p in ports && (p in enabled || p !in PROTOCOLS[..i])
      invariant forall p :: p in cleared ==> cleared[p] == ports[p]
    {
      assert PROTOCOLS[..i + 1] == PROTOCOLS[..i] + [PROTOCOLS[i]];
      if PROTOCOLS[i] !in enabled {
        cleared := cleared - {PROTOCOLS[i]};
      }
    }
    assert PROTOCOLS[..|PROTOCOLS|] == PROTOCOLS;
    forall p: ManagedProtocol ensures p in PROTOCOLS {
      EveryProtocolIsListed(p);
    }
  }
}
