/**
  * The node process of src/main.rs: start-up (seeding the routing table and
  * starting the bootstrap query) and the event loop, one method per
  * `select!` arm. The loop's flags and the calls it makes on the swarm follow
  * the transitions of NodeMachine, so the gating lemmas proved there hold of
  * every interleaving of calls to these methods.
  */
module Node {
  import opened Wrappers
  import opened Utf8
  import opened NodeCommand
  import opened NodeMachine
  import Keys

  /** The IPFS bootstrap nodes the routing table is seeded with. */
  const BootstrapNodes: seq<string> := [
    "/dnsaddr/bootstrap.libp2p.io/p2p/QmNnooDu7bfjPFoTZYxMNLWUQJyrVwtbZg5gBMjTezGAJN",
    "/dnsaddr/bootstrap.libp2p.io/p2p/QmQCU2EcMqAqQPR2i9bChDtGNJchTbq5TbXJJ16u19uLTa",
    "/dnsaddr/bootstrap.libp2p.io/p2p/QmbLHAnMoJPWSCR5Zhtx6BHJX9KiKNN6tpvbUcqanj75Nb",
    "/dnsaddr/bootstrap.libp2p.io/p2p/QmcZf59bWwK5XFi76CZX8cbJ4BhTzzA3gU1ZjYZcYW3dwt"
  ]

  /** Each bootstrap address as the multiaddr parser reads it. */
  function ParsedSeeds(parse: string -> SeedAddress): (seeds: seq<SeedAddress>)
    ensures |seeds| == |BootstrapNodes|
    ensures forall i :: 0 <= i < |seeds| ==> seeds[i] == parse(BootstrapNodes[i])
  {
    seq(|BootstrapNodes|, i requires 0 <= i < |BootstrapNodes| => parse(BootstrapNodes[i]))
  }

  /** The sending half of a per-peer byte channel; what flows through it is not modelled. */
  datatype ByteSink = ByteSink(channel: nat)

  /** What `handle_command` reports for a line. */
  datatype CommandOutcome =
    | WouldSend(peer: string, message: string)     // the "Would send to" log line
    | Listed(count: nat, printed: seq<PeerId>)    // the peer count logged, then one printed line per peer
    | UsageHint                                   // the "Unknown command" log line

  class EventLoop {
    const mode: string
    const service: string
    const serviceKey: seq<Byte>
    var bootstrapped: bool
    var registered: bool
    var discoveredPeer: Option<PeerId>
    /** `NodeState::peers`. */
    var peers: map<PeerId, ByteSink>
    /** The calls made on the swarm, in order. */
    var issued: seq<Action>
    /** The calls made during start-up, before the loop. */
    ghost var seeded: seq<Action>
    /** The inputs the loop has handled, in order. */
    ghost var handled: seq<Input>

    ghost function Config(): Config {
      NodeMachine.Config(mode, serviceKey)
    }

    ghost function State(): Flags reads this`bootstrapped, this`registered, this`discoveredPeer {
      Flags(bootstrapped, registered, discoveredPeer)
    }

    /** The flags and the calls made are those of the transition system on the inputs handled so far. */
    ghost predicate Valid() reads this {
      && serviceKey == ServiceKey(service)
      && State() == Run(Config(), Initial, handled).next
      && issued == seeded + Run(Config(), Initial, handled).actions
    }

    constructor (mode: string, service: string)
      ensures Valid()
      ensures this.mode == mode && this.service == service
      ensures State() == Initial && handled == [] && issued == [] && peers == map[]
    {
      this.mode := mode;
      this.service := service;
      serviceKey := ServiceKey(service);
      bootstrapped, registered, discoveredPeer := false, false, None;
      peers := map[];
      issued := [];
      seeded := [];
      handled := [];
    }

    /**
      * The seed loop: each bootstrap address that parses and names a peer is
      * added to the routing table under that peer; the others are skipped.
      */
    method AddBootstrapSeeds(parse: string -> SeedAddress)
      requires Valid() && handled == []
      modifies this`issued, this`seeded
      ensures Valid() && handled == []
      ensures issued == old(issued) + SeedActions(ParsedSeeds(parse))
    {
      ghost var seeds := ParsedSeeds(parse);
      for i := 0 to |BootstrapNodes|
        invariant issued == seeded
        invariant issued == old(issued) + SeedActions(seeds[..i])
      {
        assert seeds[..i + 1][..i] == seeds[..i];
        match parse(BootstrapNodes[i])
        case Parsed(addr, Some(peer)) =>
          issued := issued + [AddAddress(peer, addr)];
          seeded := seeded + [AddAddress(peer, addr)];
        case _ =>
      }
      assert seeds[..|BootstrapNodes|] == seeds;
    }

    /** `kad.bootstrap()` is called once; an error it returns is only logged. */
    method StartBootstrap()
      requires Valid() && handled == []
      modifies this`issued, this`seeded
      ensures Valid() && handled == []
      ensures issued == old(issued) + [BootstrapQuery]
    {
      issued := issued + [BootstrapQuery];
      seeded := seeded + [BootstrapQuery];
    }

    /** The identify arm's loop: every listen address of the peer is added to the routing table, in order. */
    method AddListenAddrs(peer: PeerId, addrs: seq<Multiaddr>)
      modifies this`issued
      ensures issued == old(issued) + AddAll(peer, addrs)
    {
      for i := 0 to |addrs|
        invariant issued == old(issued) + AddAll(peer, addrs[..i])
      {
        issued := issued + [AddAddress(peer, addrs[i])];
      }
      assert addrs[..|addrs|] == addrs;
    }

    /** The swarm-event arm. */
    method OnSwarmEvent(e: SwarmEvent)
      requires Valid()
      modifies this`bootstrapped, this`registered, this`discoveredPeer, this`issued, this`handled
      ensures Valid()
      ensures handled == old(handled) + [Swarm(e)]
      ensures State() == Step(Config(), old(State()), Swarm(e)).next
      ensures issued == old(issued) + Step(Config(), old(State()), Swarm(e)).actions
    {
      ghost var r := Run(Config(), Initial, handled);
      ghost var t := Step(Config(), State(), Swarm(e));
      RunSnoc(Config(), Initial, handled, Swarm(e));
      Dispatch(e);
      handled := handled + [Swarm(e)];
      assert issued == (seeded + r.actions) + t.actions;
    }

    /** The match on the event inside the swarm-event arm. */
    method Dispatch(e: SwarmEvent)
      modifies this`bootstrapped, this`registered, this`discoveredPeer, this`issued
      ensures State() == Step(Config(), old(State()), Swarm(e)).next
      ensures issued == old(issued) + Step(Config(), old(State()), Swarm(e)).actions
    {
      match e {
        case IdentifyReceived(peer, addrs) =>
          AddListenAddrs(peer, addrs);
        case BootstrapOk(accepted) =>
          if mode == "server" && !registered {
            issued := issued + [StartProviding(serviceKey, accepted)];
            if accepted {
              registered := true;
            }
          }
          bootstrapped := true;
        case FoundProviders(providers) =>
          if providers != [] {
            var peer := providers[0];
            discoveredPeer := Some(peer);
            issued := issued + [Dial(peer)];
          }
        case _ =>
      }
    }

    /**
      * A tick of the lookup timer. `select!` takes the arm only when its
      * guard holds; otherwise nothing happens.
      */
    method OnLookupTick() returns (taken: bool)
      requires Valid()
      modifies this`issued, this`handled
      ensures Valid()
      ensures taken == LookupEnabled(Config(), State())
      ensures handled == old(handled) + [LookupTick]
      ensures issued == old(issued) + (if taken then [GetProviders(serviceKey)] else [])
    {
      RunSnoc(Config(), Initial, handled, LookupTick);
      taken := mode == "client" && discoveredPeer.None? && bootstrapped;
      if taken {
        issued := issued + [GetProviders(serviceKey)];
      }
      handled := handled + [LookupTick];
    }

    /**
      * The stdin arm, `handle_command`. It changes no state; `list` reports
      * the number of peers and prints every peer once, in the map's order.
      */
    method HandleCommand(line: string) returns (out: CommandOutcome)
      ensures match ParseCommand(line)
        case Send(peer, message) => out == WouldSend(peer, message)
        case Unknown => out == UsageHint
        case List =>
          && out.Listed?
          && out.count == |peers|
          && |out.printed| == |peers|
          && Keys.Distinct(out.printed)
          && (forall p :: p in peers <==> p in out.printed)
    {
      match ParseCommand(line)
      case Send(peer, message) =>
        out := WouldSend(peer, message);
      case List =>
        out := ListPeers();
      case Unknown =>
        out := UsageHint;
    }

    /** The `list` command: the number of peers, then every peer printed once, in the map's order. */
    method ListPeers() returns (out: CommandOutcome)
      ensures out.Listed? && out.count == |peers| && |out.printed| == |peers|
      ensures Keys.Distinct(out.printed) && forall p :: p in peers <==> p in out.printed
    {
      var keys := Keys.Enumerate(peers);
      var printed: seq<PeerId> := [];
      for i := 0 to |keys|
        invariant printed == keys[..i]
      {
        printed := printed + [keys[i]];
      }
      assert keys[..|keys|] == keys;
      out := Listed(|peers|, printed);
    }
  }
}
