/**
  * The control state of the event loop in src/main.rs as a pure transition
  * system: the three flags the loop keeps, the inputs its `select!` arms
  * consume, and the calls it makes on the swarm. The class in module Node
  * runs exactly these transitions; the gating rules are proved here, over
  * every sequence of inputs.
  */
module NodeMachine {
  import opened Wrappers
  import opened Utf8

  type PeerId = string
  type Multiaddr = string

  /** The loop's local variables `bootstrapped`, `registered` and `discovered_peer`. */
  datatype Flags = Flags(bootstrapped: bool, registered: bool, discovered: Option<PeerId>)

  /** All three start unset. */
  const Initial: Flags := Flags(false, false, None)

  /** The node's command-line mode and the record key of its service. */
  datatype Config = Config(mode: string, key: seq<Byte>)

  /**
    * The swarm events the loop tells apart. `providingAccepted` is what
    * `start_providing` returns if the Bootstrap(Ok) arm calls it; the
    * providers of FoundProviders are listed in the set's iteration order.
    */
  datatype SwarmEvent =
    | NewListenAddr(address: Multiaddr)
    | IdentifyReceived(peer: PeerId, listenAddrs: seq<Multiaddr>)
    | BootstrapOk(providingAccepted: bool)
    | BootstrapFailed
    | FoundProviders(providers: seq<PeerId>)
    | FinishedWithNoAdditionalRecord
    | ConnectionEstablished(peer: PeerId)
    | OtherEvent

  /** One turn of the loop that can change the flags or call the swarm. */
  datatype Input = Swarm(event: SwarmEvent) | LookupTick

  /** A call the loop makes on the swarm or its Kademlia behaviour. */
  datatype Action =
    | AddAddress(peer: PeerId, addr: Multiaddr)
    | BootstrapQuery
    | StartProviding(key: seq<Byte>, accepted: bool)
    | GetProviders(key: seq<Byte>)
    | Dial(peer: PeerId)

  /** The flags after one input and the calls made while handling it. */
  datatype Transition = Transition(next: Flags, actions: seq<Action>)

  /** The guard on the lookup-timer arm of `select!`. */
  predicate LookupEnabled(c: Config, f: Flags) {
    c.mode == "client" && f.discovered.None? && f.bootstrapped
  }

  /** One `add_address` call per listen address of an identified peer, in order. */
  function AddAll(peer: PeerId, addrs: seq<Multiaddr>): (acts: seq<Action>)
    ensures |acts| == |addrs|
    ensures forall i :: 0 <= i < |addrs| ==> acts[i] == AddAddress(peer, addrs[i])
  {
    seq(|addrs|, i requires 0 <= i < |addrs| => AddAddress(peer, addrs[i]))
  }

  /**
    * One arm of the loop. A tick whose guard is false is not taken by
    * `select!`; it changes nothing.
    */
  function Step(c: Config, f: Flags, i: Input): Transition {
    match i
    case LookupTick =>
      if LookupEnabled(c, f) then Transition(f, [GetProviders(c.key)]) else Transition(f, [])
    case Swarm(e) =>
      match e
      case IdentifyReceived(p, addrs) => Transition(f, AddAll(p, addrs))
      case BootstrapOk(accepted) =>
        if c.mode == "server" && !f.registered then
          Transition(f.(bootstrapped := true, registered := accepted), [StartProviding(c.key, accepted)])
        else
          Transition(f.(bootstrapped := true), [])
      case FoundProviders(ps) =>
        if ps != [] then Transition(f.(discovered := Some(ps[0])), [Dial(ps[0])]) else Transition(f, [])
      case _ => Transition(f, [])
  }

  /** The inputs handled in order from `f`: the final flags and every call made. */
  function Run(c: Config, f: Flags, xs: seq<Input>): Transition
    decreases |xs|
  {
    if xs == [] then Transition(f, [])
    else
      var r := Run(c, f, xs[..|xs| - 1]);
      var t := Step(c, r.next, xs[|xs| - 1]);
      Transition(t.next, r.actions + t.actions)
  }

  /** Handling one more input extends the run by one step. */
  lemma RunSnoc(c: Config, f: Flags, xs: seq<Input>, x: Input)
    ensures Run(c, f, xs + [x]) ==
      Transition(Step(c, Run(c, f, xs).next, x).next, Run(c, f, xs).actions + Step(c, Run(c, f, xs).next, x).actions)
  {
    assert (xs + [x])[..|xs|] == xs;
  }

  /** Handling `ys` and then `zs` is handling `ys + zs`. */
  lemma {:induction false} RunConcat(c: Config, f: Flags, ys: seq<Input>, zs: seq<Input>)
    ensures Run(c, f, ys + zs).actions == Run(c, f, ys).actions + Run(c, Run(c, f, ys).next, zs).actions
    ensures Run(c, f, ys + zs).next == Run(c, Run(c, f, ys).next, zs).next
    decreases |zs|
  {
    var g := Run(c, f, ys).next;
    if zs == [] {
      assert ys + zs == ys;
    } else {
      var n := |zs| - 1;
      var zs', z := zs[..n], zs[n];
      SplitLast(ys, zs);
      RunConcat(c, f, ys, zs');
      RunSnoc(c, f, ys + zs', z);
      RunSnoc(c, g, zs', z);
      var a, b := Run(c, f, ys + zs'), Run(c, g, zs');
      var t := Step(c, b.next, z);
      assert Run(c, f, ys + zs).actions == (Run(c, f, ys).actions + b.actions) + t.actions;
      assert Run(c, g, zs).actions == b.actions + t.actions;
    }
  }

  /** The last input of a non-empty tail, split off. */
  lemma SplitLast<T>(ys: seq<T>, zs: seq<T>)
    requires zs != []
    ensures zs == zs[..|zs| - 1] + [zs[|zs| - 1]]
    ensures ys + zs == (ys + zs[..|zs| - 1]) + [zs[|zs| - 1]]
  {
  }

  /** A run split at any input is the first part followed by the rest from where it left off. */
  lemma RunSplit(c: Config, f: Flags, xs: seq<Input>, k: nat)
    requires k <= |xs|
    ensures Run(c, f, xs).actions ==
      Run(c, f, xs[..k]).actions + Run(c, Run(c, f, xs[..k]).next, xs[k..]).actions
    ensures Run(c, f, xs).next == Run(c, Run(c, f, xs[..k]).next, xs[k..]).next
  {
    assert xs == xs[..k] + xs[k..];
    RunConcat(c, f, xs[..k], xs[k..]);
  }

  /** No flag that is set is ever cleared; `discovered_peer` never returns to None. */
  predicate Settled(f: Flags, g: Flags) {
    && (f.bootstrapped ==> g.bootstrapped)
    && (f.registered ==> g.registered)
    && (f.discovered.Some? ==> g.discovered.Some?)
  }

  lemma {:induction false} RunMonotone(c: Config, f: Flags, xs: seq<Input>)
    ensures Settled(f, Run(c, f, xs).next)
    decreases |xs|
  {
    if xs != [] {
      RunMonotone(c, f, xs[..|xs| - 1]);
    }
  }

  /** Flags set after the first `k` inputs stay set after all of them. */
  lemma FlagsNeverCleared(c: Config, xs: seq<Input>, k: nat)
    requires k <= |xs|
    ensures Settled(Run(c, Initial, xs[..k]).next, Run(c, Initial, xs).next)
  {
    RunSplit(c, Initial, xs, k);
    RunMonotone(c, Run(c, Initial, xs[..k]).next, xs[k..]);
  }

  predicate BootstrapSucceeded(i: Input) {
    i.Swarm? && i.event.BootstrapOk?
  }

  /** `bootstrapped` is set exactly when some Bootstrap(Ok) result has been handled. */
  lemma {:induction false} BootstrappedIff(c: Config, xs: seq<Input>)
    ensures Run(c, Initial, xs).next.bootstrapped <==> exists i :: 0 <= i < |xs| && BootstrapSucceeded(xs[i])
    decreases |xs|
  {
    if xs != [] {
      var n := |xs| - 1;
      BootstrappedIff(c, xs[..n]);
      if exists i :: 0 <= i < n && BootstrapSucceeded(xs[..n][i]) {
        var i :| 0 <= i < n && BootstrapSucceeded(xs[..n][i]);
        assert BootstrapSucceeded(xs[i]);
      }
      if exists i :: 0 <= i < |xs| && BootstrapSucceeded(xs[i]) {
        var i :| 0 <= i < |xs| && BootstrapSucceeded(xs[i]);
        if i < n {
          assert BootstrapSucceeded(xs[..n][i]);
        }
      }
    }
  }

  /** A call that registers the service or looks it up. */
  predicate UsesServiceKey(a: Action) {
    a.StartProviding? || a.GetProviders?
  }

  /** Before the node is bootstrapped it neither registers nor looks up. */
  lemma {:induction false} NothingUntilBootstrapped(c: Config, xs: seq<Input>)
    requires !Run(c, Initial, xs).next.bootstrapped
    ensures forall j :: 0 <= j < |Run(c, Initial, xs).actions| ==> !UsesServiceKey(Run(c, Initial, xs).actions[j])
    decreases |xs|
  {
    if xs != [] {
      var n := |xs| - 1;
      RunMonotone(c, Run(c, Initial, xs[..n]).next, [xs[n]]);
      assert [xs[n]][..0] == [];
      NothingUntilBootstrapped(c, xs[..n]);
    }
  }

  /**
    * No `start_providing` and no `get_providers` call is made while handling
    * the inputs that come before the first Bootstrap(Ok) result.
    */
  lemma NoRegistrationOrLookupBeforeBootstrap(c: Config, xs: seq<Input>, k: nat)
    requires k <= |xs|
    requires forall i :: 0 <= i < k ==> !BootstrapSucceeded(xs[i])
    ensures forall j :: 0 <= j < |Run(c, Initial, xs[..k]).actions| ==> !UsesServiceKey(Run(c, Initial, xs[..k]).actions[j])
  {
    BootstrappedIff(c, xs[..k]);
    NothingUntilBootstrapped(c, xs[..k]);
  }

  /** A `start_providing` call that the behaviour accepted. */
  predicate IsRegistration(a: Action) {
    a.StartProviding? && a.accepted
  }

  /** Some call in `acts` is an accepted `start_providing`. */
  predicate HasRegistration(acts: seq<Action>) {
    exists j :: 0 <= j < |acts| && IsRegistration(acts[j])
  }

  /** No `start_providing` call follows an accepted one. */
  predicate NoProvidingAfterRegistration(acts: seq<Action>) {
    forall i, j :: 0 <= i < j < |acts| && IsRegistration(acts[i]) ==> !acts[j].StartProviding?
  }

  /**
    * A single input makes at most one `start_providing` call, only while a
    * server is unregistered and only for a Bootstrap(Ok) result carrying that
    * call's outcome, and registers exactly when that call is accepted.
    */
  lemma StepRegistration(c: Config, f: Flags, x: Input)
    ensures var t := Step(c, f, x);
      && (t.next.registered <==> f.registered || HasRegistration(t.actions))
      && (forall j :: 0 <= j < |t.actions| && t.actions[j].StartProviding? ==>
            && !f.registered && |t.actions| == 1 && c.mode == "server"
            && x == Swarm(BootstrapOk(t.actions[j].accepted)))
  {
    var t := Step(c, f, x);
    if x.Swarm? && x.event.IdentifyReceived? {
      assert forall j :: 0 <= j < |t.actions| ==> t.actions[j].AddAddress?;
    } else if t.actions != [] && IsRegistration(t.actions[0]) {
      assert HasRegistration(t.actions);
    }
  }

  /** Registrations in a concatenation are those of either part. */
  lemma RegistrationsConcat(a: seq<Action>, b: seq<Action>)
    ensures HasRegistration(a + b) <==> HasRegistration(a) || HasRegistration(b)
    ensures (NoProvidingAfterRegistration(a) && NoProvidingAfterRegistration(b) &&
      (HasRegistration(a) ==> forall j :: 0 <= j < |b| ==> !b[j].StartProviding?)) ==>
      NoProvidingAfterRegistration(a + b)
  {
    if HasRegistration(a + b) {
      var j :| 0 <= j < |a + b| && IsRegistration((a + b)[j]);
      if j < |a| { assert IsRegistration(a[j]); } else { assert IsRegistration(b[j - |a|]); }
    }
    if HasRegistration(a) {
      var j :| 0 <= j < |a| && IsRegistration(a[j]);
      assert IsRegistration((a + b)[j]);
    }
    if HasRegistration(b) {
      var j :| 0 <= j < |b| && IsRegistration(b[j]);
      assert IsRegistration((a + b)[|a| + j]);
    }
    if NoProvidingAfterRegistration(a) && NoProvidingAfterRegistration(b) &&
      (HasRegistration(a) ==> forall j :: 0 <= j < |b| ==> !b[j].StartProviding?)
    {
      forall i, j | 0 <= i < j < |a + b| && IsRegistration((a + b)[i])
        ensures !(a + b)[j].StartProviding?
      {
        if i < |a| {
          assert IsRegistration(a[i]);
          if j >= |a| { assert (a + b)[j] == b[j - |a|]; }
        } else {
          assert (a + b)[i] == b[i - |a|] && (a + b)[j] == b[j - |a|];
        }
      }
    }
  }

  /**
    * `registered` is set exactly when an accepted `start_providing` call has
    * been made, and after that call no `start_providing` call follows: at most
    * one registration succeeds.
    */
  lemma {:induction false} RegistrationOnce(c: Config, xs: seq<Input>)
    ensures Run(c, Initial, xs).next.registered <==> HasRegistration(Run(c, Initial, xs).actions)
    ensures NoProvidingAfterRegistration(Run(c, Initial, xs).actions)
    decreases |xs|
  {
    if xs != [] {
      var n := |xs| - 1;
      var p := Run(c, Initial, xs[..n]);
      var t := Step(c, p.next, xs[n]);
      RegistrationOnce(c, xs[..n]);
      StepRegistration(c, p.next, xs[n]);
      RegistrationsConcat(p.actions, t.actions);
      assert Run(c, Initial, xs).actions == p.actions + t.actions;
    }
  }

  /** A node that is not a server never registers; one that is not a client never looks up. */
  lemma {:induction false} RolesSeparated(c: Config, f: Flags, xs: seq<Input>)
    ensures c.mode != "server" ==>
      (forall j :: 0 <= j < |Run(c, f, xs).actions| ==> !Run(c, f, xs).actions[j].StartProviding?)
      && Run(c, f, xs).next.registered == f.registered
    ensures c.mode != "client" ==>
      forall j :: 0 <= j < |Run(c, f, xs).actions| ==> !Run(c, f, xs).actions[j].GetProviders?
    decreases |xs|
  {
    if xs != [] {
      RolesSeparated(c, f, xs[..|xs| - 1]);
    }
  }

  /** Once a provider has been discovered, no `get_providers` call is made again, and it stays discovered. */
  lemma {:induction false} NoLookupAfterDiscovery(c: Config, f: Flags, xs: seq<Input>)
    requires f.discovered.Some?
    ensures forall j :: 0 <= j < |Run(c, f, xs).actions| ==> !Run(c, f, xs).actions[j].GetProviders?
    ensures Run(c, f, xs).next.discovered.Some?
    decreases |xs|
  {
    if xs != [] {
      NoLookupAfterDiscovery(c, f, xs[..|xs| - 1]);
    }
  }

  /**
    * Every call made after the first `k` inputs, once those have left a
    * discovered peer, is something other than `get_providers`.
    */
  lemma LookupsStopOnceDiscovered(c: Config, xs: seq<Input>, k: nat)
    requires k <= |xs|
    requires Run(c, Initial, xs[..k]).next.discovered.Some?
    ensures |Run(c, Initial, xs[..k]).actions| <= |Run(c, Initial, xs).actions|
    ensures forall j :: |Run(c, Initial, xs[..k]).actions| <= j < |Run(c, Initial, xs).actions| ==>
      !Run(c, Initial, xs).actions[j].GetProviders?
  {
    var g := Run(c, Initial, xs[..k]).next;
    RunSplit(c, Initial, xs, k);
    NoLookupAfterDiscovery(c, g, xs[k..]);
    var m := |Run(c, Initial, xs[..k]).actions|;
    forall j | m <= j < |Run(c, Initial, xs).actions|
      ensures !Run(c, Initial, xs).actions[j].GetProviders?
    {
      assert Run(c, Initial, xs).actions[j] == Run(c, g, xs[k..]).actions[j - m];
    }
  }

  /** The peer of the last `dial` call, if any. */
  function LastDialed(acts: seq<Action>): Option<PeerId>
    decreases |acts|
  {
    if acts == [] then None
    else if acts[|acts| - 1].Dial? then Some(acts[|acts| - 1].peer)
    else LastDialed(acts[..|acts| - 1])
  }

  lemma {:induction false} LastDialedConcat(a: seq<Action>, b: seq<Action>)
    ensures LastDialed(a + b) == if LastDialed(b).Some? then LastDialed(b) else LastDialed(a)
    decreases |b|
  {
    if b == [] {
      assert a + b == a;
    } else {
      var n := |b| - 1;
      assert (a + b)[..|a + b| - 1] == a + b[..n];
      LastDialedConcat(a, b[..n]);
    }
  }

  /** One input records a discovered peer exactly when it dials, and records the peer it dials. */
  lemma StepDiscovered(c: Config, f: Flags, x: Input)
    ensures var t := Step(c, f, x);
      t.next.discovered == if LastDialed(t.actions).Some? then LastDialed(t.actions) else f.discovered
  {
    var t := Step(c, f, x);
    if x.Swarm? && x.event.IdentifyReceived? {
      NoDial(t.actions);
    } else if x.Swarm? && x.event.FoundProviders? && x.event.providers != [] {
      assert t.actions == [Dial(x.event.providers[0])];
    } else if x.Swarm? && x.event.BootstrapOk? && t.actions != [] {
      assert t.actions == [StartProviding(c.key, x.event.providingAccepted)];
      assert t.actions[..0] == [];
    } else if x.LookupTick? && t.actions != [] {
      assert t.actions[..0] == [];
    }
  }

  /**
    * `discovered_peer` is always the peer of the most recent dial: each
    * non-empty FoundProviders result records its first provider and dials
    * exactly that peer, and nothing else records or dials.
    */
  lemma {:induction false} DiscoveredIsLastDialed(c: Config, xs: seq<Input>)
    ensures Run(c, Initial, xs).next.discovered == LastDialed(Run(c, Initial, xs).actions)
    decreases |xs|
  {
    if xs != [] {
      var n := |xs| - 1;
      var p := Run(c, Initial, xs[..n]);
      var t := Step(c, p.next, xs[n]);
      DiscoveredIsLastDialed(c, xs[..n]);
      LastDialedConcat(p.actions, t.actions);
      StepDiscovered(c, p.next, xs[n]);
    }
  }

  lemma {:induction false} NoDial(acts: seq<Action>)
    requires forall j :: 0 <= j < |acts| ==> !acts[j].Dial?
    ensures LastDialed(acts) == None
    decreases |acts|
  {
    if acts != [] {
      NoDial(acts[..|acts| - 1]);
    }
  }

  /**
    * A non-empty FoundProviders result records its first provider and dials
    * exactly that peer, whatever was recorded before: the arm does not look
    * at `discovered_peer`, so a later result, such as a further progress
    * event of a query already running, replaces the peer and dials again.
    */
  lemma FoundProvidersDialsFirst(c: Config, f: Flags, ps: seq<PeerId>)
    requires ps != []
    ensures Step(c, f, Swarm(FoundProviders(ps))) == Transition(f.(discovered := Some(ps[0])), [Dial(ps[0])])
  {
  }

  /**
    * The events the loop only logs change no flag and make no call: an empty
    * FoundProviders result, FinishedWithNoAdditionalRecord, a failed
    * bootstrap, a new listen address and an established connection.
    */
  lemma QuietEventsChangeNothing(c: Config, f: Flags, a: Multiaddr, p: PeerId)
    ensures Step(c, f, Swarm(FoundProviders([]))) == Transition(f, [])
    ensures Step(c, f, Swarm(FinishedWithNoAdditionalRecord)) == Transition(f, [])
    ensures Step(c, f, Swarm(BootstrapFailed)) == Transition(f, [])
    ensures Step(c, f, Swarm(NewListenAddr(a))) == Transition(f, [])
    ensures Step(c, f, Swarm(ConnectionEstablished(p))) == Transition(f, [])
  {
  }

  /**
    * A server that is not registered calls `start_providing` on every
    * Bootstrap(Ok) and registers exactly when the call is accepted; a
    * refused call leaves it unregistered, so the next Bootstrap(Ok) calls
    * again.
    */
  lemma RefusedRegistrationRetried(c: Config, f: Flags, accepted: bool, again: bool)
    requires c.mode == "server" && !f.registered
    ensures Step(c, f, Swarm(BootstrapOk(accepted))) ==
      Transition(f.(bootstrapped := true, registered := accepted), [StartProviding(c.key, accepted)])
    ensures !accepted ==>
      var g := Step(c, f, Swarm(BootstrapOk(accepted))).next;
      Step(c, g, Swarm(BootstrapOk(again))) ==
        Transition(g.(registered := again), [StartProviding(c.key, again)])
  {
  }

  /** What the library makes of one seed address: unparsable, or parsed with the peer id of its `/p2p/` part if it has one. */
  datatype SeedAddress = Unparsable | Parsed(addr: Multiaddr, p2p: Option<PeerId>)

  /** The `add_address` call one seed leads to, if any. */
  function SeedAction(s: SeedAddress): seq<Action> {
    match s
    case Parsed(a, Some(p)) => [AddAddress(p, a)]
    case _ => []
  }

  /** The calls the seed loop makes, seed by seed. */
  function SeedActions(seeds: seq<SeedAddress>): seq<Action>
    decreases |seeds|
  {
    if seeds == [] then [] else SeedActions(seeds[..|seeds| - 1]) + SeedAction(seeds[|seeds| - 1])
  }

  /**
    * The seed loop adds exactly the seeds that parse and name a peer, under
    * that peer; the others are skipped.
    */
  lemma {:induction false} SeedActionsExactly(seeds: seq<SeedAddress>)
    ensures forall a :: a in SeedActions(seeds) <==>
      exists i :: 0 <= i < |seeds| && seeds[i].Parsed? && seeds[i].p2p.Some? &&
        a == AddAddress(seeds[i].p2p.value, seeds[i].addr)
    decreases |seeds|
  {
    if seeds != [] {
      var n := |seeds| - 1;
      SeedActionsExactly(seeds[..n]);
      forall a | a in SeedActions(seeds)
        ensures exists i :: (0 <= i < |seeds| && seeds[i].Parsed? && seeds[i].p2p.Some? &&
          a == AddAddress(seeds[i].p2p.value, seeds[i].addr))
      {
        if a in SeedActions(seeds[..n]) {
          var i :| 0 <= i < n && seeds[..n][i].Parsed? && seeds[..n][i].p2p.Some? &&
            a == AddAddress(seeds[..n][i].p2p.value, seeds[..n][i].addr);
          assert seeds[i] == seeds[..n][i];
        } else {
          assert a in SeedAction(seeds[n]);
        }
      }
      forall i | 0 <= i < |seeds| && seeds[i].Parsed? && seeds[i].p2p.Some?
        ensures AddAddress(seeds[i].p2p.value, seeds[i].addr) in SeedActions(seeds)
      {
        if i < n {
          assert seeds[..n][i] == seeds[i];
        }
      }
    }
  }
}
