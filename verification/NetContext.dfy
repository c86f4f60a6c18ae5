/**
 Network cards behind a one-slot write-back cache. `G_NET` holds the active card's state,
 `DEVICES` the others', and the address globals cache the active interface's configuration.
 Network operations re-enter each other: a send may poll, a poll may send.
 */
module NetContext {
  import opened Bytes

  const MAX_INTERFACES: nat := 8

  /** A card: its fixed hardware address and its ring state. */
  datatype Card = Card(mac: nat, rings: nat)

  datatype Config = Config(ip: nat, gateway: nat, mask: nat, dns: nat)

  datatype Interface = Interface(cfg: Config, enabled: bool)

  /** What one packet transfer does to the ring state of the card it runs on. */
  type Io = nat -> nat

  /** A transfer and the card that was active for it. */
  datatype Transferred = Transferred(card: nat, io: Io)

  /** The independent view: an array of cards, no cache, and the transfers so far. */
  datatype View = View(
    cards: seq<Card>, active: nat, interfaces: seq<Interface>, current: Config, default: nat,
    history: seq<Transferred>)

  /**
   A network operation: a transfer on the active card, work inside one interface's context, a
   poll that does `drains[j]` while card `j` is active, or a reconfiguration.
   */
  datatype Op =
    | Transfer(io: Io)
    | With(j: nat, body: seq<Op>)
    | Poll(drains: seq<Drain>)
    | Apply(j: nat, cfg: Config)

  datatype Drain = Drain(ops: seq<Op>)

  ghost predicate Shape(v: View) {
    0 < |v.cards| <= MAX_INTERFACES == |v.interfaces| && v.active < |v.cards|
  }

  function Touch(c: Card, io: Io): (r: Card)
    ensures r.mac == c.mac
  {
    c.(rings := io(c.rings))
  }

  // ---- what each operation means on independent cards ----

  function OnCard(v: View, io: Io): (r: View)
    requires Shape(v)
    ensures Shape(r) && |r.cards| == |v.cards|
  {
    v.(cards := v.cards[v.active := Touch(v.cards[v.active], io)],
       history := v.history + [Transferred(v.active, io)])
  }

  /** Make a card active; the address globals follow only for a configured interface. */
  function Activated(v: View, j: nat): (r: View)
    requires Shape(v)
    ensures Shape(r) && |r.cards| == |v.cards|
  {
    if j >= |v.cards| then v
    else v.(active := j, current := if v.interfaces[j].enabled then v.interfaces[j].cfg else v.current)
  }

  function Applied(v: View, j: nat, cfg: Config): (r: View)
    requires Shape(v)
    ensures Shape(r) && |r.cards| == |v.cards|
  {
    if j >= |v.cards| then v
    else
      var changed := v.(interfaces := v.interfaces[j := Interface(cfg, true)],
                        default := if cfg.gateway != 0 then j else v.default);
      Activated(changed, j)
  }

  predicate AnyConfigured(interfaces: seq<Interface>, n: nat)
    requires n <= |interfaces|
  {
    n > 0 && (AnyConfigured(interfaces, n - 1) || interfaces[n - 1].enabled)
  }

  function Meaning(v: View, op: Op): (r: View)
    requires Shape(v)
    ensures Shape(r) && |r.cards| == |v.cards|
    decreases op
  {
    match op
    case Transfer(io) => OnCard(v, io)
    case With(j, body) =>
      Activated(if j < |v.cards| then MeaningAll(Activated(v, j), body) else v, v.active)
    case Poll(drains) =>
      if AnyConfigured(v.interfaces, |v.cards|) then Activated(Sweep(v, drains, |v.cards|), v.active)
      else if v.active < |drains| then MeaningAll(v, drains[v.active].ops)
      else v
    case Apply(j, cfg) => Applied(v, j, cfg)
  }

  function MeaningAll(v: View, ops: seq<Op>): (r: View)
    requires Shape(v)
    ensures Shape(r) && |r.cards| == |v.cards|
    decreases ops
  {
    if ops == [] then v else MeaningAll(Meaning(v, ops[0]), ops[1..])
  }

  /** After the first `n` cards of a poll. */
  function Sweep(v: View, drains: seq<Drain>, n: nat): (r: View)
    requires Shape(v) && n <= |v.cards|
    ensures Shape(r) && |r.cards| == |v.cards|
    decreases drains, n
  {
    if n == 0 then v
    else
      var prev := Sweep(v, drains, n - 1);
      if !prev.interfaces[n - 1].enabled then prev
      else
        var on := Activated(prev, n - 1);
        if n - 1 < |drains| then MeaningAll(on, drains[n - 1].ops) else on
  }

  lemma SweepStep(v: View, drains: seq<Drain>, n: nat)
    requires Shape(v) && n < |v.cards|
    ensures var prev, next := Sweep(v, drains, n), Sweep(v, drains, n + 1);
            if !prev.interfaces[n].enabled then next == prev
            else if n < |drains| then next == MeaningAll(Activated(prev, n), drains[n].ops)
            else next == Activated(prev, n)
  {
    hide MeaningAll, Activated;
  }

  lemma PollMeans(v: View, drains: seq<Drain>)
    requires Shape(v)
    ensures Sweep(v, drains, 0) == v
    ensures Meaning(v, Poll(drains)) ==
            if AnyConfigured(v.interfaces, |v.cards|) then Activated(Sweep(v, drains, |v.cards|), v.active)
            else if v.active < |drains| then MeaningAll(v, drains[v.active].ops)
            else v
  {
    hide MeaningAll, Activated;
  }

  // ---- the statics ----

  class Net {
    var devices: seq<Card>
    var gNet: Card
    var active: nat
    var interfaces: seq<Interface>
    var current: Config
    var default: nat
    var depth: nat
    ghost var history: seq<Transferred>

    ghost predicate Valid()
      reads this
    {
      && Shape(View(devices, active, interfaces, current, default, history))
      && gNet.mac == devices[active].mac
    }

    /** The cards with the cached one written back. */
    ghost function Cards(): (cs: seq<Card>)
      requires Valid()
      reads this
      ensures |cs| == |devices|
    {
      devices[active := gNet]
    }

    ghost function Now(): (v: View)
      requires Valid()
      reads this
      ensures Shape(v)
    {
      View(Cards(), active, interfaces, current, default, history)
    }

    method SelectDevice(index: nat) returns (ok: bool)
      requires Valid()
      modifies `devices, `gNet, `active
      ensures Valid() && ok == (index < |devices|)
      ensures Now() == old(Now()).(active := if ok then index else old(active))
    {
      if index >= |devices| {
        return false;
      }
      devices := devices[active := gNet];
      gNet := devices[index];
      active := index;
      assert Cards() == old(Cards());
      ok := true;
    }

    method ActivateCard(index: nat) returns (ok: bool)
      requires Valid()
      modifies `devices, `gNet, `active, `current
      ensures Valid() && ok == (index < |devices|)
      ensures Now() == Activated(old(Now()), index)
    {
      ok := SelectDevice(index);
      if ok && interfaces[index].enabled {
        current := interfaces[index].cfg;
      }
    }

    /** A packet transfer runs on the cached card. */
    method RunIo(io: Io)
      requires Valid()
      modifies `gNet, `history
      ensures Valid() && Now() == OnCard(old(Now()), io)
    {
      gNet := Touch(gNet, io);
      history := history + [Transferred(active, io)];
      assert Cards() == old(Cards())[active := Touch(old(Cards())[active], io)];
    }

    method WithInterface(index: nat, body: seq<Op>) returns (ok: bool)
      requires Valid()
      modifies this
      ensures Valid() && ok == (index < |devices|)
      ensures Now() == Meaning(old(Now()), With(index, body)) && depth == old(depth)
      decreases body, 1
    {
      depth := depth + 1;
      var previous := active;
      ok := ActivateCard(index);
      if ok {
        RunAll(body);
      }
      var back := ActivateCard(previous);
      depth := depth - 1;
    }

    method ApplyConfig(index: nat, cfg: Config) returns (ok: bool)
      requires Valid()
      modifies this
      ensures Valid() && ok == (index < |devices|)
      ensures Now() == Applied(old(Now()), index, cfg) && depth == old(depth)
    {
      depth := depth + 1;
      if index >= |devices| || index >= MAX_INTERFACES {
        depth := depth - 1;
        return false;
      }
      interfaces := interfaces[index := Interface(cfg, true)];
      if cfg.gateway != 0 {
        default := index;
      }
      ok := ActivateCard(index);
      depth := depth - 1;
    }

    /** The boot seed: the lease becomes the addresses and the active card's configuration. */
    method SeedBoot(lease: Config)
      requires Valid()
      modifies `interfaces, `current
      ensures Valid() && Now() == Booted(old(Now()), lease)
    {
      current := lease;
      interfaces := interfaces[active := Interface(current, true)];
    }

    /** The early return after the hardware address lookup, which would keep the lock, is never taken. */
    method Snapshot(which: nat) returns (ok: bool, iface: Interface, mac: nat, route: nat, count: nat)
      requires Valid()
      modifies `depth
      ensures Valid() && Now() == old(Now()) && depth == old(depth) && ok == (which < |devices|)
      ensures ok ==> iface == interfaces[which] && mac == Cards()[which].mac && route == default && count == |devices|
    {
      depth := depth + 1;
      iface, mac, route, count := Interface(Config(0, 0, 0, 0), false), 0, 0, 0;
      if which >= |devices| || which >= MAX_INTERFACES {
        depth := depth - 1;
        return false, iface, mac, route, count;
      }
      iface := interfaces[which];
      mac := devices[which].mac;
      route := default;
      count := |devices|;
      depth := depth - 1;
      ok := true;
    }

    /** The pass over configured cards, or the one active card before any is configured. */
    method PollCards(drains: seq<Drain>)
      requires Valid()
      modifies this
      ensures Valid() && depth == old(depth)
      ensures Now() == Meaning(old(Now()), Poll(drains))
      decreases drains, 1
    {
      hide Sweep, Meaning, MeaningAll;
      depth := depth + 1;
      var previous := active;
      ghost var start := Now();
      PollMeans(start, drains);
      var any := false;
      for j := 0 to |devices|
        invariant any == AnyConfigured(start.interfaces, j)
      {
        any := any || interfaces[j].enabled;
      }
      var count := |devices|;
      if any {
        for j := 0 to count
          invariant Valid() && |devices| == count == |start.cards| && depth == old(depth) + 1
          invariant Now() == Sweep(start, drains, j)
        {
          SweepStep(start, drains, j);
          if interfaces[j].enabled {
            var ok := ActivateCard(j);
            if j < |drains| {
              RunAll(drains[j].ops);
            }
          }
        }
        var back := ActivateCard(previous);
      } else if active < |drains| {
        RunAll(drains[active].ops);
      }
      depth := depth - 1;
    }

    method Run(op: Op)
      requires Valid()
      modifies this
      ensures Valid() && Now() == Meaning(old(Now()), op) && depth == old(depth)
      decreases op
    {
      match op
      case Transfer(io) => RunIo(io);
      case With(j, body) => var ok := WithInterface(j, body);
      case Poll(drains) => PollCards(drains);
      case Apply(j, cfg) => var ok := ApplyConfig(j, cfg);
    }

    /** Any sequence of operations, however they nest, does to the statics what it does to independent cards. */
    method RunAll(ops: seq<Op>)
      requires Valid()
      modifies this
      ensures Valid() && Now() == MeaningAll(old(Now()), ops) && depth == old(depth)
      decreases ops, 0
    {
      if ops != [] {
        Run(ops[0]);
        RunAll(ops[1..]);
      }
    }
  }

  // ---- each card is what its own transfers made it ----

  /** The transfers that ran on card `j`. */
  function Own(history: seq<Transferred>, j: nat): (ios: seq<Io>)
    decreases |history|
  {
    if history == [] then []
    else
      var rest, last := Own(history[..|history| - 1], j), history[|history| - 1];
      if last.card == j then rest + [last.io] else rest
  }

  function TouchAll(c: Card, ios: seq<Io>): (r: Card)
    decreases |ios|
  {
    if ios == [] then c else Touch(TouchAll(c, ios[..|ios| - 1]), ios[|ios| - 1])
  }

  /** Every card is its state at the start after the transfers recorded for it, in order. */
  ghost predicate Independent(start: seq<Card>, v: View)
    requires |start| == |v.cards|
  {
    forall j :: 0 <= j < |start| ==> v.cards[j] == TouchAll(start[j], Own(v.history, j))
  }

  lemma OnCardIndependent(start: seq<Card>, v: View, io: Io)
    requires Shape(v) && |start| == |v.cards| && Independent(start, v)
    ensures Independent(start, OnCard(v, io))
  {
    var r := OnCard(v, io);
    assert r.history[..|r.history| - 1] == v.history;
    forall j | 0 <= j < |start|
      ensures r.cards[j] == TouchAll(start[j], Own(r.history, j))
    {
      if j == v.active {
        var own := Own(v.history, j);
        assert Own(r.history, j) == own + [io];
        assert (own + [io])[..|own|] == own;
      }
    }
  }

  lemma {:induction false} OpIndependent(start: seq<Card>, v: View, op: Op)
    requires Shape(v) && |start| == |v.cards| && Independent(start, v)
    ensures Independent(start, Meaning(v, op))
    decreases op
  {
    match op
    case Transfer(io) => OnCardIndependent(start, v, io);
    case With(j, body) =>
      if j < |v.cards| {
        CardsIndependent(start, Activated(v, j), body);
      }
    case Poll(drains) =>
      if AnyConfigured(v.interfaces, |v.cards|) {
        SweepIndependent(start, v, drains, |v.cards|);
      } else if v.active < |drains| {
        CardsIndependent(start, v, drains[v.active].ops);
      }
    case Apply(_, _) =>
  }

  /** After any operations, however they nest, each card is what its own transfers made it. */
  lemma {:induction false} CardsIndependent(start: seq<Card>, v: View, ops: seq<Op>)
    requires Shape(v) && |start| == |v.cards| && Independent(start, v)
    ensures Independent(start, MeaningAll(v, ops))
    decreases ops
  {
    hide Meaning, Independent;
    if ops != [] {
      OpIndependent(start, v, ops[0]);
      CardsIndependent(start, Meaning(v, ops[0]), ops[1..]);
    }
  }

  lemma {:induction false} SweepIndependent(start: seq<Card>, v: View, drains: seq<Drain>, n: nat)
    requires Shape(v) && n <= |v.cards| == |start| && Independent(start, v)
    ensures Independent(start, Sweep(v, drains, n))
    decreases drains, n
  {
    hide MeaningAll;
    if n > 0 {
      SweepIndependent(start, v, drains, n - 1);
      var prev := Sweep(v, drains, n - 1);
      if prev.interfaces[n - 1].enabled && n - 1 < |drains| {
        CardsIndependent(start, Activated(prev, n - 1), drains[n - 1].ops);
      }
    }
  }

  // ---- the active card and the address globals ----

  /** The address globals are the active interface's, whenever that interface is configured. */
  ghost predicate Consistent(v: View)
    requires Shape(v)
  {
    v.interfaces[v.active].enabled ==> v.current == v.interfaces[v.active].cfg
  }

  lemma {:induction false} OpConsistent(v: View, op: Op)
    requires Shape(v) && Consistent(v)
    ensures Consistent(Meaning(v, op))
    decreases op
  {
    if op.Poll? && v.active < |op.drains| {
      StaysConsistent(v, op.drains[v.active].ops);
    }
  }

  /** The globals stay the active interface's through any operations, reconfigurations included. */
  lemma {:induction false} StaysConsistent(v: View, ops: seq<Op>)
    requires Shape(v) && Consistent(v)
    ensures Consistent(MeaningAll(v, ops))
    decreases ops
  {
    hide Meaning;
    if ops != [] {
      OpConsistent(v, ops[0]);
      StaysConsistent(Meaning(v, ops[0]), ops[1..]);
    }
  }

  /** No reconfiguration anywhere inside, as `with_interface` asks of its operation. */
  ghost predicate Inner(op: Op)
    decreases op
  {
    match op
    case Transfer(_) => true
    case With(_, body) => InnerAll(body)
    case Poll(drains) => forall j :: 0 <= j < |drains| ==> InnerAll(drains[j].ops)
    case Apply(_, _) => false
  }

  ghost predicate InnerAll(ops: seq<Op>)
    decreases ops
  {
    forall i :: 0 <= i < |ops| ==> Inner(ops[i])
  }

  /** The last configured interface among the first `n`. */
  function LastConfigured(interfaces: seq<Interface>, n: nat): (j: nat)
    requires n <= |interfaces| && AnyConfigured(interfaces, n)
    ensures j < n && interfaces[j].enabled
  {
    if interfaces[n - 1].enabled then n - 1 else LastConfigured(interfaces, n - 1)
  }

  /** The addresses an operation leaves behind when it starts on card `a` and that card is not configured. */
  function Drift(ifs: seq<Interface>, n: nat, a: nat, op: Op): (c: Option<Config>)
    requires n <= |ifs|
    decreases op
  {
    match op
    case Transfer(_) => None
    case With(j, body) =>
      if j >= n then None else if ifs[j].enabled then Some(ifs[j].cfg) else DriftAll(ifs, n, j, body)
    case Poll(drains) =>
      if AnyConfigured(ifs, n) then Some(ifs[LastConfigured(ifs, n)].cfg)
      else if a < |drains| then DriftAll(ifs, n, a, drains[a].ops)
      else None
    case Apply(_, _) => None
  }

  function DriftAll(ifs: seq<Interface>, n: nat, a: nat, ops: seq<Op>): (c: Option<Config>)
    requires n <= |ifs|
    decreases ops
  {
    if ops == [] then None
    else
      var later := DriftAll(ifs, n, a, ops[1..]);
      if later.Some? then later else Drift(ifs, n, a, ops[0])
  }

  /** The addresses after an operation with this drift. */
  function Settled(v: View, drift: Option<Config>): (c: Config)
    requires Shape(v)
  {
    if v.interfaces[v.active].enabled || drift == None then v.current else drift.value
  }

  /** Everything but cards and transfers, after an operation. */
  ghost predicate ContextAfter(v: View, r: View, drift: Option<Config>)
    requires Shape(v)
  {
    r.active == v.active && r.interfaces == v.interfaces && r.default == v.default && r.current == Settled(v, drift)
  }

  lemma {:induction false} OpSettles(v: View, op: Op)
    requires Shape(v) && Consistent(v) && Inner(op)
    ensures ContextAfter(v, Meaning(v, op), Drift(v.interfaces, |v.cards|, v.active, op))
    decreases op
  {
    hide MeaningAll, Sweep, DriftAll;
    match op
    case Transfer(_) =>
    case With(j, body) =>
      if j < |v.cards| {
        AllSettle(Activated(v, j), body);
      }
    case Poll(drains) =>
      if AnyConfigured(v.interfaces, |v.cards|) {
        SweepSettles(v, drains, |v.cards|);
      } else if v.active < |drains| {
        AllSettle(v, drains[v.active].ops);
      }
  }

  lemma {:induction false} AllSettle(v: View, ops: seq<Op>)
    requires Shape(v) && Consistent(v) && InnerAll(ops)
    ensures ContextAfter(v, MeaningAll(v, ops), DriftAll(v.interfaces, |v.cards|, v.active, ops))
    decreases ops
  {
    hide Meaning, Drift, Inner;
    if ops != [] {
      OpSettles(v, ops[0]);
      OpConsistent(v, ops[0]);
      AllSettle(Meaning(v, ops[0]), ops[1..]);
    }
  }

  lemma {:induction false} SweepSettles(v: View, drains: seq<Drain>, n: nat)
    requires Shape(v) && n <= |v.cards| && forall j :: 0 <= j < |drains| ==> InnerAll(drains[j].ops)
    ensures var r := Sweep(v, drains, n);
            && r.interfaces == v.interfaces && r.default == v.default
            && r.current == if AnyConfigured(v.interfaces, n) then v.interfaces[LastConfigured(v.interfaces, n)].cfg
                            else v.current
    decreases drains, n
  {
    hide MeaningAll, InnerAll, DriftAll;
    if n > 0 {
      SweepSettles(v, drains, n - 1);
      var prev := Sweep(v, drains, n - 1);
      if prev.interfaces[n - 1].enabled && n - 1 < |drains| {
        AllSettle(Activated(prev, n - 1), drains[n - 1].ops);
      }
    }
  }

  /**
   An operation that reconfigures nothing always comes back to the caller's card. It restores
   the caller's addresses exactly when the caller's interface is configured, or no configured
   interface was visited, or the last one visited has the same addresses.
   */
  lemma {:induction false} RestoresIff(v: View, op: Op)
    requires Shape(v) && Consistent(v) && Inner(op)
    ensures var r, drift := Meaning(v, op), Drift(v.interfaces, |v.cards|, v.active, op);
            && r.active == v.active && r.interfaces == v.interfaces && r.default == v.default
            && (r.current == v.current <==>
                  v.interfaces[v.active].enabled || drift == None || drift.value == v.current)
  {
    hide Meaning, Drift;
    OpSettles(v, op);
  }

  /** With nothing configured, nothing drifts. */
  lemma {:induction false} NoDrift(ifs: seq<Interface>, n: nat, a: nat, op: Op)
    requires n <= |ifs| && !AnyConfigured(ifs, n)
    ensures Drift(ifs, n, a, op) == None
    decreases op
  {
    hide DriftAll;
    match op
    case Transfer(_) =>
    case With(j, body) =>
      if j < n {
        NotConfigured(ifs, n, j);
        NoDriftAll(ifs, n, j, body);
      }
    case Poll(drains) =>
      if a < |drains| {
        NoDriftAll(ifs, n, a, drains[a].ops);
      }
    case Apply(_, _) =>
  }

  lemma {:induction false} NoDriftAll(ifs: seq<Interface>, n: nat, a: nat, ops: seq<Op>)
    requires n <= |ifs| && !AnyConfigured(ifs, n)
    ensures DriftAll(ifs, n, a, ops) == None
    decreases ops
  {
    hide Drift;
    if ops != [] {
      NoDrift(ifs, n, a, ops[0]);
      NoDriftAll(ifs, n, a, ops[1..]);
    }
  }

  lemma {:induction false} NotConfigured(ifs: seq<Interface>, n: nat, j: nat)
    requires j < n <= |ifs| && !AnyConfigured(ifs, n)
    ensures !ifs[j].enabled
    decreases n
  {
    if j < n - 1 {
      NotConfigured(ifs, n - 1, j);
    }
  }

  /** A poll restores the addresses unless an unconfigured card polls past a last configured one that differs. */
  lemma {:induction false} PollRestoresIff(v: View, drains: seq<Drain>)
    requires Shape(v) && Consistent(v) && Inner(Poll(drains))
    ensures Meaning(v, Poll(drains)).active == v.active
    ensures Meaning(v, Poll(drains)).current == v.current
        <==> v.interfaces[v.active].enabled || !AnyConfigured(v.interfaces, |v.cards|)
             || v.interfaces[LastConfigured(v.interfaces, |v.cards|)].cfg == v.current
  {
    hide Meaning, Inner;
    RestoresIff(v, Poll(drains));
    if !AnyConfigured(v.interfaces, |v.cards|) {
      NoDrift(v.interfaces, |v.cards|, v.active, Poll(drains));
    }
  }

  /** So does work inside a configured interface, whatever it polls or sends meanwhile. */
  lemma {:induction false} WithRestoresIff(v: View, j: nat, body: seq<Op>)
    requires Shape(v) && Consistent(v) && InnerAll(body) && j < |v.cards| && v.interfaces[j].enabled
    ensures Meaning(v, With(j, body)).active == v.active
    ensures Meaning(v, With(j, body)).current == v.current
        <==> v.interfaces[v.active].enabled || v.interfaces[j].cfg == v.current
  {
    hide Meaning, InnerAll;
    RestoresIff(v, With(j, body));
  }

  // ---- from boot on ----

  /** Cards found, nothing configured. */
  function PowerOn(cards: seq<Card>): (v: View)
    requires 0 < |cards| <= MAX_INTERFACES
    ensures Shape(v)
  {
    var blank := Config(0, 0, 0, 0);
    View(cards, 0, seq(MAX_INTERFACES, _ => Interface(blank, false)), blank, 0, [])
  }

  /** The lease becomes the addresses, and the configuration of the active card. */
  function Booted(v: View, lease: Config): (r: View)
    requires Shape(v)
    ensures Shape(r) && |r.cards| == |v.cards|
  {
    v.(interfaces := v.interfaces[v.active := Interface(lease, true)], current := lease)
  }

  /** The active card is configured once any is, the addresses are its own, and only cards are configured. */
  ghost predicate Seated(v: View)
    requires Shape(v)
  {
    && Consistent(v) && (AnyConfigured(v.interfaces, |v.cards|) ==> v.interfaces[v.active].enabled)
    && forall j :: |v.cards| <= j < MAX_INTERFACES ==> !v.interfaces[j].enabled
  }

  /** The caller's card, addresses and tables. */
  predicate SameContext(v: View, r: View) {
    r.active == v.active && r.current == v.current && r.interfaces == v.interfaces && r.default == v.default
  }

  lemma {:induction false} Configured(ifs: seq<Interface>, n: nat, j: nat)
    requires j < n <= |ifs| && ifs[j].enabled
    ensures AnyConfigured(ifs, n)
    decreases n
  {
    if j < n - 1 {
      Configured(ifs, n - 1, j);
    }
  }

  lemma {:induction false} NoneConfigured(ifs: seq<Interface>, n: nat)
    requires n <= |ifs| && forall j :: 0 <= j < n ==> !ifs[j].enabled
    ensures !AnyConfigured(ifs, n)
  {
    if n > 0 {
      NoneConfigured(ifs, n - 1);
    }
  }

  /** Where the active card is configured, or none is, an operation always restores the whole context. */
  lemma {:induction false} SeatedRestores(v: View, op: Op)
    requires Shape(v) && Seated(v) && Inner(op)
    ensures SameContext(v, Meaning(v, op)) && Seated(Meaning(v, op))
  {
    hide Meaning, Inner;
    RestoresIff(v, op);
    if !v.interfaces[v.active].enabled {
      NoDrift(v.interfaces, |v.cards|, v.active, op);
    }
    OpConsistent(v, op);
  }

  lemma {:induction false} SeatedRestoresAll(v: View, ops: seq<Op>)
    requires Shape(v) && Seated(v) && InnerAll(ops)
    ensures SameContext(v, MeaningAll(v, ops)) && Seated(MeaningAll(v, ops))
    decreases |ops|
  {
    hide Meaning, Inner, Seated;
    if ops != [] {
      SeatedRestores(v, ops[0]);
      SeatedRestoresAll(Meaning(v, ops[0]), ops[1..]);
    }
  }

  lemma ApplySeats(v: View, j: nat, cfg: Config)
    requires Shape(v) && Seated(v)
    ensures Seated(Applied(v, j, cfg))
  {
  }

  /** What callers issue at top level: work that reconfigures nothing, or a reconfiguration. */
  ghost predicate TopLevel(op: Op) {
    op.Apply? || Inner(op)
  }

  /** Every context entered inside, at any depth, names a configured card, or no card is configured yet. */
  ghost predicate Named(ifs: seq<Interface>, n: nat, op: Op)
    requires n <= |ifs|
    decreases op
  {
    match op
    case Transfer(_) => true
    case With(j, body) => (j < n ==> ifs[j].enabled || !AnyConfigured(ifs, n)) && NamedAll(ifs, n, body)
    case Poll(drains) => forall k :: 0 <= k < |drains| ==> NamedAll(ifs, n, drains[k].ops)
    case Apply(_, _) => true
  }

  ghost predicate NamedAll(ifs: seq<Interface>, n: nat, ops: seq<Op>)
    requires n <= |ifs|
    decreases ops
  {
    forall i :: 0 <= i < |ops| ==> Named(ifs, n, ops[i])
  }

  /** The operation restores the context it finds, and so does every operation it runs, where it runs. */
  ghost predicate Restores(v: View, op: Op)
    requires Shape(v)
    decreases op
  {
    && SameContext(v, Meaning(v, op))
    && match op {
         case Transfer(_) => true
         case With(j, body) => j < |v.cards| ==> AllRestore(Activated(v, j), body)
         case Poll(drains) =>
           if AnyConfigured(v.interfaces, |v.cards|) then
             forall k :: 0 <= k < |v.cards| && k < |drains| && v.interfaces[k].enabled ==>
               AllRestore(Activated(Sweep(v, drains, k), k), drains[k].ops)
           else v.active < |drains| ==> AllRestore(v, drains[v.active].ops)
         case Apply(_, _) => true
       }
  }

  ghost predicate AllRestore(v: View, ops: seq<Op>)
    requires Shape(v)
    decreases ops
  {
    ops == [] || (Restores(v, ops[0]) && AllRestore(Meaning(v, ops[0]), ops[1..]))
  }

  lemma ActivatedSeated(v: View, j: nat)
    requires Shape(v) && j < |v.cards| && (v.interfaces[j].enabled || !AnyConfigured(v.interfaces, |v.cards|))
    requires forall k :: |v.cards| <= k < MAX_INTERFACES ==> !v.interfaces[k].enabled
    ensures Seated(Activated(v, j))
  {
    if v.interfaces[j].enabled {
      Configured(v.interfaces, |v.cards|, j);
    } else {
      NotConfigured(v.interfaces, |v.cards|, j);
    }
  }

  /** At every depth, an operation whose contexts name configured cards restores the context it finds. */
  lemma {:induction false} RestoresAtEveryDepth(v: View, op: Op)
    requires Shape(v) && Seated(v) && Inner(op) && Named(v.interfaces, |v.cards|, op)
    ensures Restores(v, op)
    decreases op
  {
    hide Meaning, AllRestore, Sweep;
    SeatedRestores(v, op);
    match op
    case Transfer(_) =>
    case With(j, body) =>
      if j < |v.cards| {
        ActivatedSeated(v, j);
        AllRestoreAtEveryDepth(Activated(v, j), body);
      }
    case Poll(drains) =>
      if AnyConfigured(v.interfaces, |v.cards|) {
        forall k | 0 <= k < |v.cards| && k < |drains| && v.interfaces[k].enabled
          ensures AllRestore(Activated(Sweep(v, drains, k), k), drains[k].ops)
        {
          SweepSettles(v, drains, k);
          ActivatedSeated(Sweep(v, drains, k), k);
          AllRestoreAtEveryDepth(Activated(Sweep(v, drains, k), k), drains[k].ops);
        }
      } else if v.active < |drains| {
        AllRestoreAtEveryDepth(v, drains[v.active].ops);
      }
  }

  lemma {:induction false} AllRestoreAtEveryDepth(v: View, ops: seq<Op>)
    requires Shape(v) && Seated(v) && InnerAll(ops) && NamedAll(v.interfaces, |v.cards|, ops)
    ensures AllRestore(v, ops)
    decreases ops
  {
    hide Meaning, Inner, Named, Seated, Restores;
    if ops != [] {
      RestoresAtEveryDepth(v, ops[0]);
      SeatedRestores(v, ops[0]);
      AllRestoreAtEveryDepth(Meaning(v, ops[0]), ops[1..]);
    }
  }

  /**
   Every operation of a run restores the context it finds, unless its purpose is to change it;
   if the contexts entered inside it name configured cards, so does everything it runs.
   */
  ghost predicate EachRestores(v: View, ops: seq<Op>)
    requires Shape(v)
    decreases |ops|
  {
    ops == [] ||
    (&& (Inner(ops[0]) ==> SameContext(v, Meaning(v, ops[0])))
     && (Inner(ops[0]) && Named(v.interfaces, |v.cards|, ops[0]) ==> Restores(v, ops[0]))
     && EachRestores(Meaning(v, ops[0]), ops[1..]))
  }

  lemma {:induction false} RunRestores(v: View, ops: seq<Op>)
    requires Shape(v) && Seated(v) && forall i :: 0 <= i < |ops| ==> TopLevel(ops[i])
    ensures EachRestores(v, ops) && Seated(MeaningAll(v, ops))
    decreases |ops|
  {
    hide Inner, Named, Restores, Seated;
    if ops != [] {
      if Inner(ops[0]) {
        SeatedRestores(v, ops[0]);
        if Named(v.interfaces, |v.cards|, ops[0]) {
          RestoresAtEveryDepth(v, ops[0]);
        }
      } else {
        ApplySeats(v, ops[0].j, ops[0].cfg);
      }
      RunRestores(Meaning(v, ops[0]), ops[1..]);
    }
  }

  /**
   From power-on: the lease exchange, the boot seed, then any run of sends, polls and
   reconfigurations. The context is restored throughout, and the active card is configured
   at the end of every one of them.
   */
  lemma {:induction false} ContextRestoredFromBoot(cards: seq<Card>, exchange: seq<Op>, lease: Config, ops: seq<Op>)
    requires 0 < |cards| <= MAX_INTERFACES && InnerAll(exchange)
    requires forall i :: 0 <= i < |ops| ==> TopLevel(ops[i])
    ensures EachRestores(PowerOn(cards), exchange)
    ensures var up := Booted(MeaningAll(PowerOn(cards), exchange), lease);
            && EachRestores(up, ops) && Seated(MeaningAll(up, ops))
            && MeaningAll(up, ops).interfaces[MeaningAll(up, ops).active].enabled
  {
    hide MeaningAll, EachRestores, InnerAll;
    var off := PowerOn(cards);
    NoneConfigured(off.interfaces, |cards|);
    ExchangeIsTopLevel(exchange);
    RunRestores(off, exchange);
    var up := Booted(MeaningAll(off, exchange), lease);
    assert Seated(up);
    RunRestores(up, ops);
    StaysConfigured(up, ops, up.active);
    var end := MeaningAll(up, ops);
    Configured(end.interfaces, |end.cards|, up.active);
  }

  lemma ExchangeIsTopLevel(ops: seq<Op>)
    requires InnerAll(ops)
    ensures forall i :: 0 <= i < |ops| ==> TopLevel(ops[i])
  {
    hide Inner;
  }

  /** A configured interface stays configured, so a route kept in a socket stays good. */
  lemma {:induction false} StaysConfigured(v: View, ops: seq<Op>, j: nat)
    requires Shape(v) && j < MAX_INTERFACES && v.interfaces[j].enabled
    ensures MeaningAll(v, ops).interfaces[j].enabled
    decreases ops
  {
    hide Meaning;
    if ops != [] {
      OpStaysConfigured(v, ops[0], j);
      StaysConfigured(Meaning(v, ops[0]), ops[1..], j);
    }
  }

  lemma {:induction false} OpStaysConfigured(v: View, op: Op, j: nat)
    requires Shape(v) && j < MAX_INTERFACES && v.interfaces[j].enabled
    ensures Meaning(v, op).interfaces[j].enabled
    decreases op
  {
    hide MeaningAll, Sweep;
    match op
    case Transfer(_) =>
    case With(i, body) =>
      if i < |v.cards| {
        StaysConfigured(Activated(v, i), body, j);
      }
    case Poll(drains) =>
      if AnyConfigured(v.interfaces, |v.cards|) {
        SweepStaysConfigured(v, drains, |v.cards|, j);
      } else if v.active < |drains| {
        StaysConfigured(v, drains[v.active].ops, j);
      }
    case Apply(_, _) =>
  }

  lemma {:induction false} SweepStaysConfigured(v: View, drains: seq<Drain>, n: nat, j: nat)
    requires Shape(v) && n <= |v.cards| && j < MAX_INTERFACES && v.interfaces[j].enabled
    ensures Sweep(v, drains, n).interfaces[j].enabled
    decreases drains, n
  {
    hide MeaningAll;
    if n > 0 {
      SweepStaysConfigured(v, drains, n - 1, j);
      var prev := Sweep(v, drains, n - 1);
      if prev.interfaces[n - 1].enabled && n - 1 < |drains| {
        StaysConfigured(Activated(prev, n - 1), drains[n - 1].ops, j);
      }
    }
  }

  // ---- routes name configured cards ----

  const BROADCAST: nat := 0xFFFF_FFFF

  /** The bits two `n`-bit words share. */
  function And(x: nat, y: nat, n: nat): (r: nat) {
    if n == 0 then 0 else 2 * And(x / 2, y / 2, n - 1) + if x % 2 == 1 && y % 2 == 1 then 1 else 0
  }

  function Ones(x: nat, n: nat): (k: nat) {
    if n == 0 then 0 else Ones(x / 2, n - 1) + x % 2
  }

  /** A configured interface whose own network the address is in. */
  predicate Reaches(iface: Interface, dst: nat) {
    && iface.enabled && iface.cfg.mask != 0
    && And(iface.cfg.ip, iface.cfg.mask, 32) == And(dst, iface.cfg.mask, 32)
  }

  function MaskOnes(iface: Interface): (k: nat) {
    Ones(iface.cfg.mask, 32)
  }

  /** The longest match among the first `n` interfaces, the last of equals. */
  function Longest(dst: nat, ifs: seq<Interface>, n: nat): (r: Option<nat>)
    requires n <= |ifs|
    ensures r.Some? ==> r.value < n && Reaches(ifs[r.value], dst)
  {
    if n == 0 then None
    else
      var best := Longest(dst, ifs, n - 1);
      if Reaches(ifs[n - 1], dst) && (best.None? || MaskOnes(ifs[n - 1]) >= MaskOnes(ifs[best.value])) then Some(n - 1)
      else best
  }

  function Chosen(dst: nat, ifs: seq<Interface>, default: nat): (r: Option<nat>) {
    var direct := Longest(dst, ifs, |ifs|);
    if direct.Some? then direct
    else if default < |ifs| && ifs[default].enabled && ifs[default].cfg.gateway != 0 then Some(default)
    else None
  }

  /** The interface table's routing decision, as its loop makes it. */
  method ChooseRoute(dst: nat, ifs: seq<Interface>, default: nat) returns (r: Option<nat>)
    ensures r == Chosen(dst, ifs, default)
  {
    hide Reaches, MaskOnes;
    var best: Option<nat> := None;
    for n := 0 to |ifs|
      invariant best == Longest(dst, ifs, n)
    {
      if Reaches(ifs[n], dst) && (best.None? || MaskOnes(ifs[n]) >= MaskOnes(ifs[best.value])) {
        best := Some(n);
      }
    }
    if best.Some? {
      return best;
    }
    r := if default < |ifs| && ifs[default].enabled && ifs[default].cfg.gateway != 0 then Some(default) else None;
  }

  /**
   A destination on some configured network goes to one with the longest mask, the last of
   equals; any other goes to the default interface if that has a gateway, else nowhere.
   */
  lemma {:induction false} LongestPrefixRoutes(dst: nat, ifs: seq<Interface>, default: nat, j: nat)
    requires j < |ifs|
    ensures Chosen(dst, ifs, default) == Some(j) <==>
              if exists k :: 0 <= k < |ifs| && Reaches(ifs[k], dst) then BestMatch(dst, ifs, |ifs|, j)
              else j == default && ifs[j].enabled && ifs[j].cfg.gateway != 0
    ensures Chosen(dst, ifs, default) == None <==>
              && (forall k :: 0 <= k < |ifs| ==> !Reaches(ifs[k], dst))
              && !(default < |ifs| && ifs[default].enabled && ifs[default].cfg.gateway != 0)
  {
    hide Reaches, MaskOnes;
    LongestIsBest(dst, ifs, |ifs|, j);
  }

  ghost predicate BestMatch(dst: nat, ifs: seq<Interface>, n: nat, j: nat)
    requires j < |ifs| && n <= |ifs|
  {
    && j < n && Reaches(ifs[j], dst)
    && forall k :: 0 <= k < n && Reaches(ifs[k], dst) ==>
         MaskOnes(ifs[k]) < MaskOnes(ifs[j]) || (MaskOnes(ifs[k]) == MaskOnes(ifs[j]) && k <= j)
  }

  lemma {:induction false} LongestIsBest(dst: nat, ifs: seq<Interface>, n: nat, j: nat)
    requires j < |ifs| && n <= |ifs|
    ensures Longest(dst, ifs, n) == Some(j) <==> BestMatch(dst, ifs, n, j)
    ensures Longest(dst, ifs, n) == None <==> forall k :: 0 <= k < n ==> !Reaches(ifs[k], dst)
    decreases n
  {
    hide Reaches, MaskOnes;
    if n > 0 {
      LongestIsBest(dst, ifs, n - 1, j);
      var best := Longest(dst, ifs, n - 1);
      if best.Some? {
        LongestIsBest(dst, ifs, n - 1, best.value);
      }
    }
  }

  /** Where a send to `dst` goes: broadcasts, and everything before boot, leave by the active card. */
  function Route(v: View, dst: nat): (r: Option<nat>) {
    if dst == BROADCAST || !exists j :: 0 <= j < |v.interfaces| && v.interfaces[j].enabled then Some(v.active)
    else Chosen(dst, v.interfaces, v.default)
  }

  /** Every route names a card that may be entered: a send restores the context at every depth. */
  lemma {:induction false} RoutedSendRestores(v: View, dst: nat, body: seq<Op>)
    requires Shape(v) && Seated(v) && Route(v, dst).Some?
    requires InnerAll(body) && NamedAll(v.interfaces, |v.cards|, body)
    ensures Route(v, dst).value < |v.cards| && Restores(v, With(Route(v, dst).value, body))
  {
    hide Restores, And, InnerAll, NamedAll;
    var j := Route(v, dst).value;
    assert j == v.active || v.interfaces[j].enabled;
    assert v.interfaces[j].enabled || !AnyConfigured(v.interfaces, |v.cards|);
    RestoresAtEveryDepth(v, With(j, body));
  }
}
