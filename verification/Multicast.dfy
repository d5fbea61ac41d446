/** Multicast registration of the installation services (aimdns_mod.py): register_all registers every
    enabled service, and each SIGHUP reconciles the registrations with the configuration. */
module Multicast {
  import opened Text

  // ----- the configuration a handler reads -----------------------------------------------------

  /** key and port are what the txt_record of the service names and gives; port is the empty string
      when it gives none. */
  datatype Props = Props(on: bool, key: string, port: string)

  datatype Interface = Interface(name: string, address: string)

  /** The services and the valid networks at one moment. */
  datatype Config = Config(services: seq<string>, props: map<string, Props>, smfPort: nat, networks: seq<string>) {
    ghost predicate Valid() {
      && (forall s :: s in services <==> s in props)
      && (forall i, j | 0 <= i < j < |services| :: services[i] != services[j])
    }

    predicate Enabled(s: string) {
      s in props && props[s].on
    }
  }

  /** The record that clients read: under the key the host of the interface, a colon and the port. */
  datatype TxtRecord = TxtRecord(key: string, comment: string)

  /** A reference of the mDNS daemon; id is its place among all that were ever handed out. */
  datatype Ref = Ref(id: nat, service: string, interface: string, port: int, txt: TxtRecord)

  const DEFAULT_PORT := 5555

  function PortNumber(text: string): int {
    if Parse(text, 10).Some? then Parse(text, 10).value else DEFAULT_PORT
  }

  /** What a service is registered with on every interface: the key and the port as it is written. */
  datatype Setting = Setting(key: string, port: string)

  function SettingOf(cfg: Config, s: string): Setting
    requires s in cfg.props
  {
    Setting(cfg.props[s].key, if cfg.props[s].port == "" then Decimal(cfg.smfPort) else cfg.props[s].port)
  }

  function HostOf(inf: Interface): string {
    inf.address[..IndexOf(inf.address, '/')]
  }

  function NewRef(id: nat, s: string, inf: Interface, setting: Setting): Ref {
    Ref(id, s, inf.name, PortNumber(setting.port), TxtRecord(setting.key, HostOf(inf) + ":" + setting.port))
  }

  predicate OnValidNetwork(inf: Interface, networks: seq<string>) {
    exists i :: 0 <= i < |networks| && StartsWith(inf.address, networks[i])
  }

  /** The batch of references for one service, the first of them numbered next. */
  function Batch(s: string, setting: Setting, interfaces: seq<Interface>, networks: seq<string>, next: nat): seq<Ref> {
    if interfaces == [] then []
    else
      var before := Batch(s, setting, interfaces[..|interfaces| - 1], networks, next);
      var inf := interfaces[|interfaces| - 1];
      if OnValidNetwork(inf, networks) then before + [NewRef(next + |before|, s, inf, setting)] else before
  }

  lemma BatchNext(s: string, setting: Setting, interfaces: seq<Interface>, networks: seq<string>, next: nat, i: nat)
    requires i < |interfaces|
    ensures var before := Batch(s, setting, interfaces[..i], networks, next);
            Batch(s, setting, interfaces[..i + 1], networks, next) ==
            if OnValidNetwork(interfaces[i], networks) then before + [NewRef(next + |before|, s, interfaces[i], setting)] else before
  {
    assert interfaces[..i + 1][..i] == interfaces[..i];
  }

  ghost predicate NextIds(s: string, batch: seq<Ref>, next: nat) {
    forall i | 0 <= i < |batch| :: batch[i].id == next + i && batch[i].service == s
  }

  lemma {:induction false} BatchNumbers(s: string, setting: Setting, interfaces: seq<Interface>, networks: seq<string>, next: nat)
    ensures NextIds(s, Batch(s, setting, interfaces, networks, next), next)
  {
    if interfaces != [] {
      var n := |interfaces| - 1;
      BatchNumbers(s, setting, interfaces[..n], networks, next);
      BatchNext(s, setting, interfaces, networks, next, n);
      assert interfaces[..n + 1] == interfaces;
    }
  }

  /** What a client sees of a reference. */
  datatype Offer = Offer(interface: string, port: int, txt: TxtRecord)

  function OfferOf(ref: Ref): Offer {
    Offer(ref.interface, ref.port, ref.txt)
  }

  function Offers(batch: seq<Ref>): (r: seq<Offer>)
    ensures |r| == |batch|
  {
    seq(|batch|, i requires 0 <= i < |batch| => OfferOf(batch[i]))
  }

  /** What registering the service from scratch offers. */
  function FromScratch(s: string, cfg: Config, interfaces: seq<Interface>): seq<Offer>
    requires s in cfg.props
  {
    Offers(Batch(s, SettingOf(cfg, s), interfaces, cfg.networks, 0))
  }

  /** The batch offers what registering the service from scratch would. */
  predicate LikeNew(s: string, batch: seq<Ref>, cfg: Config, interfaces: seq<Interface>) {
    s in cfg.props && Offers(batch) == FromScratch(s, cfg, interfaces)
  }

  /** Registering the service from scratch gives at least one reference. */
  predicate Reachable(s: string, cfg: Config, interfaces: seq<Interface>) {
    cfg.Enabled(s) && FromScratch(s, cfg, interfaces) != []
  }

  lemma OffersAppend(batch: seq<Ref>, ref: Ref)
    ensures Offers(batch + [ref]) == Offers(batch) + [OfferOf(ref)]
  {}

  lemma {:induction false} OffersIgnoreNumbers(s: string, setting: Setting, interfaces: seq<Interface>, networks: seq<string>, next: nat)
    ensures Offers(Batch(s, setting, interfaces, networks, next)) == Offers(Batch(s, setting, interfaces, networks, 0))
  {
    if interfaces != [] {
      var n := |interfaces| - 1;
      OffersIgnoreNumbers(s, setting, interfaces[..n], networks, next);
      BatchNext(s, setting, interfaces, networks, next, n);
      BatchNext(s, setting, interfaces, networks, 0, n);
      assert interfaces[..n + 1] == interfaces;
      var a, b := Batch(s, setting, interfaces[..n], networks, next), Batch(s, setting, interfaces[..n], networks, 0);
      OffersAppend(a, NewRef(next + |a|, s, interfaces[n], setting));
      OffersAppend(b, NewRef(0 + |b|, s, interfaces[n], setting));
    }
  }

  lemma BatchIsLikeNew(s: string, cfg: Config, interfaces: seq<Interface>, next: nat)
    requires s in cfg.props
    ensures var batch := Batch(s, SettingOf(cfg, s), interfaces, cfg.networks, next);
            NextIds(s, batch, next) && LikeNew(s, batch, cfg, interfaces)
  {
    BatchNumbers(s, SettingOf(cfg, s), interfaces, cfg.networks, next);
    OffersIgnoreNumbers(s, SettingOf(cfg, s), interfaces, cfg.networks, next);
  }

  /** The interfaces on valid networks, in order: those that a service is registered on. */
  function Chosen(interfaces: seq<Interface>, networks: seq<string>): seq<Interface> {
    if interfaces == [] then []
    else
      var inf := interfaces[|interfaces| - 1];
      Chosen(interfaces[..|interfaces| - 1], networks) + if OnValidNetwork(inf, networks) then [inf] else []
  }

  lemma {:induction false} ChosenMembers(interfaces: seq<Interface>, networks: seq<string>)
    ensures forall inf | inf in Chosen(interfaces, networks) :: inf in interfaces
  {
    if interfaces != [] {
      ChosenMembers(interfaces[..|interfaces| - 1], networks);
    }
  }

  function OffersOn(chosen: seq<Interface>, setting: Setting): (r: seq<Offer>)
    ensures |r| == |chosen|
  {
    seq(|chosen|, i requires 0 <= i < |chosen| => OfferOf(NewRef(0, "", chosen[i], setting)))
  }

  lemma {:induction false} BatchOffers(s: string, setting: Setting, interfaces: seq<Interface>, networks: seq<string>)
    ensures Offers(Batch(s, setting, interfaces, networks, 0)) == OffersOn(Chosen(interfaces, networks), setting)
  {
    if interfaces != [] {
      var n := |interfaces| - 1;
      BatchOffers(s, setting, interfaces[..n], networks);
      BatchNext(s, setting, interfaces, networks, 0, n);
      assert interfaces[..n + 1] == interfaces;
      var before := Batch(s, setting, interfaces[..n], networks, 0);
      OffersAppend(before, NewRef(|before|, s, interfaces[n], setting));
    }
  }

  /** The interfaces are a dictionary by name. */
  ghost predicate ByName(interfaces: seq<Interface>) {
    forall x, y | x in interfaces && y in interfaces && x.name == y.name :: x == y
  }

  lemma SameTxt(inf: Interface, p: Setting, q: Setting)
    requires NewRef(0, "", inf, p).txt == NewRef(0, "", inf, q).txt
    ensures p == q
  {
    var n := |HostOf(inf) + ":"|;
    assert (HostOf(inf) + ":" + p.port)[n..] == p.port && (HostOf(inf) + ":" + q.port)[n..] == q.port;
  }

  lemma SameOffers(interfaces: seq<Interface>, a: seq<Interface>, b: seq<Interface>, p: Setting, q: Setting)
    requires ByName(interfaces) && (forall x | x in a :: x in interfaces) && forall x | x in b :: x in interfaces
    ensures OffersOn(a, p) == OffersOn(b, q) <==> a == b && (a != [] ==> p == q)
  {
    var r, s := OffersOn(a, p), OffersOn(b, q);
    if r == s {
      assert |a| == |b|;
      forall i | 0 <= i < |a|
        ensures a[i] == b[i]
      {
        assert r[i] == s[i] && a[i] in a && b[i] in b;
      }
      assert a == b;
      if a != [] {
        assert r[0] == s[0];
        SameTxt(a[0], p, q);
      }
    }
  }

  /** The two configurations choose the same interfaces and, if any, give the service the same key and
      port text. */
  predicate SameSetting(s: string, a: Config, b: Config, interfaces: seq<Interface>)
    requires s in a.props && s in b.props
  {
    && Chosen(interfaces, a.networks) == Chosen(interfaces, b.networks)
    && (Chosen(interfaces, a.networks) != [] ==> SettingOf(a, s) == SettingOf(b, s))
  }

  /** Exactly then registering from scratch offers the same under both. */
  lemma SameFromScratch(s: string, a: Config, b: Config, interfaces: seq<Interface>)
    requires s in a.props && s in b.props && ByName(interfaces)
    ensures FromScratch(s, a, interfaces) == FromScratch(s, b, interfaces) <==> SameSetting(s, a, b, interfaces)
  {
    BatchOffers(s, SettingOf(a, s), interfaces, a.networks);
    BatchOffers(s, SettingOf(b, s), interfaces, b.networks);
    ChosenMembers(interfaces, a.networks);
    ChosenMembers(interfaces, b.networks);
    SameOffers(interfaces, Chosen(interfaces, a.networks), Chosen(interfaces, b.networks), SettingOf(a, s), SettingOf(b, s));
  }

  // ----- what a client is told -------------------------------------------------------------------

  /** The text of the port: the service's own, or the default of the server when it gives none. */
  function PortText(cfg: Config, s: string): string
    requires s in cfg.props
  {
    if cfg.props[s].port != "" then cfg.props[s].port else Decimal(cfg.smfPort)
  }

  /** The comment names the host, which is the address up to its first slash, and the port. */
  predicate NamesHost(comment: string, address: string, text: string) {
    exists n :: 0 <= n <= |address| && '/' !in address[..n] && (n < |address| ==> address[n] == '/')
                && comment == address[..n] + ":" + text
  }

  /** A client that asks on the interface is told where the service is: the port that its text is read
      as, or 5555 if that is no number, and the record of host and port text under the key of the service. */
  predicate Announces(offer: Offer, inf: Interface, cfg: Config, s: string)
    requires s in cfg.props
  {
    && offer.interface == inf.name
    && (match Parse(PortText(cfg, s), 10) case Some(n) => offer.port == n case None => offer.port == 5555)
    && offer.txt.key == cfg.props[s].key
    && NamesHost(offer.txt.comment, inf.address, PortText(cfg, s))
  }

  predicate InNetwork(inf: Interface, networks: seq<string>) {
    exists net :: net in networks && StartsWith(inf.address, net)
  }

  /** One announcement for each interface in a valid network, in the order of the interfaces. */
  predicate AnnouncedOnAll(offers: seq<Offer>, interfaces: seq<Interface>, cfg: Config, s: string)
    requires s in cfg.props
  {
    if interfaces == [] then offers == []
    else
      var n, last := |interfaces| - 1, interfaces[|interfaces| - 1];
      if InNetwork(last, cfg.networks) then
        offers != [] && Announces(offers[|offers| - 1], last, cfg, s)
        && AnnouncedOnAll(offers[..|offers| - 1], interfaces[..n], cfg, s)
      else AnnouncedOnAll(offers, interfaces[..n], cfg, s)
  }

  lemma HostIsNamed(inf: Interface, text: string)
    ensures NamesHost(HostOf(inf) + ":" + text, inf.address, text)
  {
    var n := IndexOf(inf.address, '/');
    assert inf.address[..n] == HostOf(inf);
  }

  lemma NewAnnounces(cfg: Config, s: string, inf: Interface)
    requires s in cfg.props
    ensures Announces(OfferOf(NewRef(0, "", inf, SettingOf(cfg, s))), inf, cfg, s)
  {
    HostIsNamed(inf, PortText(cfg, s));
  }

  lemma ValidNetworkIs(inf: Interface, networks: seq<string>)
    ensures OnValidNetwork(inf, networks) <==> InNetwork(inf, networks)
  {
    if InNetwork(inf, networks) {
      var net :| net in networks && StartsWith(inf.address, net);
      var i :| 0 <= i < |networks| && networks[i] == net;
      assert StartsWith(inf.address, networks[i]);
    }
  }

  lemma {:induction false} ChosenAnnounce(interfaces: seq<Interface>, cfg: Config, s: string)
    requires s in cfg.props
    ensures AnnouncedOnAll(OffersOn(Chosen(interfaces, cfg.networks), SettingOf(cfg, s)), interfaces, cfg, s)
  {
    if interfaces != [] {
      var n, setting := |interfaces| - 1, SettingOf(cfg, s);
      var before := Chosen(interfaces[..n], cfg.networks);
      var last := OfferOf(NewRef(0, "", interfaces[n], setting));
      ChosenAnnounce(interfaces[..n], cfg, s);
      ValidNetworkIs(interfaces[n], cfg.networks);
      NewAnnounces(cfg, s, interfaces[n]);
      if InNetwork(interfaces[n], cfg.networks) {
        var offers := OffersOn(before + [interfaces[n]], setting);
        assert offers == OffersOn(before, setting) + [last];
        assert offers[..|offers| - 1] == OffersOn(before, setting);
      } else {
        assert before + [] == before;
      }
    }
  }

  /** A batch as from scratch announces the service as it is configured, on every interface in a valid
      network and on no other. */
  lemma LikeNewAnnounces(s: string, batch: seq<Ref>, cfg: Config, interfaces: seq<Interface>)
    requires LikeNew(s, batch, cfg, interfaces)
    ensures AnnouncedOnAll(Offers(batch), interfaces, cfg, s)
  {
    BatchOffers(s, SettingOf(cfg, s), interfaces, cfg.networks);
    ChosenAnnounce(interfaces, cfg, s);
  }

  // ----- the dictionary and the daemon ----------------------------------------------------------

  type Refs = map<string, seq<Ref>>

  predicate Held(sdrefs: Refs, ref: Ref) {
    ref.service in sdrefs && ref in sdrefs[ref.service]
  }

  ghost predicate OwnBatch(s: string, batch: seq<Ref>, registered: seq<Ref>) {
    && (forall i | 0 <= i < |batch| :: batch[i].service == s && batch[i].id < |registered| && registered[batch[i].id] == batch[i])
    && (forall i, j | 0 <= i < j < |batch| :: batch[i] != batch[j])
  }

  /** Every batch holds references of its own service, each handed out by the daemon, none twice. */
  ghost predicate OwnRefs(sdrefs: Refs, registered: seq<Ref>) {
    forall s | s in sdrefs :: OwnBatch(s, sdrefs[s], registered)
  }

  function CloseCount(closed: seq<nat>, id: nat): nat {
    multiset(closed)[id]
  }

  /** The open references are those in the dictionary; every other one was closed exactly once. */
  ghost predicate ClosedOnce(sdrefs: Refs, registered: seq<Ref>, closed: seq<nat>) {
    && (forall id | 0 <= id < |registered| :: registered[id].id == id)
    && (forall id | 0 <= id < |registered| :: CloseCount(closed, id) == if Held(sdrefs, registered[id]) then 0 else 1)
    && (forall id | id in closed :: id < |registered|)
  }

  ghost predicate Coherent(sdrefs: Refs, registered: seq<Ref>, closed: seq<nat>) {
    OwnRefs(sdrefs, registered) && ClosedOnce(sdrefs, registered, closed)
  }

  function Ids(batch: seq<Ref>): (r: seq<nat>)
    ensures |r| == |batch|
  {
    seq(|batch|, i requires 0 <= i < |batch| => batch[i].id)
  }

  lemma NewBatchIsOwn(registered: seq<Ref>, s: string, batch: seq<Ref>)
    requires NextIds(s, batch, |registered|)
    ensures OwnBatch(s, batch, registered + batch)
  {}

  lemma OldBatchIsOwn(registered: seq<Ref>, more: seq<Ref>, t: string, batch: seq<Ref>)
    requires OwnBatch(t, batch, registered)
    ensures OwnBatch(t, batch, registered + more)
  {}

  lemma NewIdsAreOpen(registered: seq<Ref>, closed: seq<nat>, batch: seq<Ref>, id: nat)
    requires forall c | c in closed :: c < |registered|
    requires |registered| <= id < |registered + batch|
    ensures CloseCount(closed, id) == 0 && (registered + batch)[id] in batch
  {
    assert id !in closed;
  }

  /** A new batch under a new key keeps the dictionary coherent. */
  lemma AddKeeps(sdrefs: Refs, registered: seq<Ref>, closed: seq<nat>, s: string, batch: seq<Ref>)
    requires Coherent(sdrefs, registered, closed) && s !in sdrefs && NextIds(s, batch, |registered|)
    ensures Coherent(sdrefs[s := batch], registered + batch, closed)
  {
    var all, grown := registered + batch, sdrefs[s := batch];
    forall t | t in grown
      ensures OwnBatch(t, grown[t], all)
    {
      if t == s {
        NewBatchIsOwn(registered, s, batch);
      } else {
        OldBatchIsOwn(registered, batch, t, sdrefs[t]);
      }
    }
    forall id | 0 <= id < |all|
      ensures all[id].id == id && CloseCount(closed, id) == if Held(grown, all[id]) then 0 else 1
    {
      if id < |registered| {
        assert all[id] == registered[id] && registered[id].id == id;
        assert forall i | 0 <= i < |batch| :: batch[i].id != id;
      } else {
        NewIdsAreOpen(registered, closed, batch, id);
      }
    }
  }

  lemma {:induction false} CountOfIds(batch: seq<Ref>, id: nat)
    requires forall i, j | 0 <= i < j < |batch| :: batch[i].id != batch[j].id
    ensures multiset(Ids(batch))[id] == if exists i :: 0 <= i < |batch| && batch[i].id == id then 1 else 0
  {
    if batch != [] {
      var front, last := batch[..|batch| - 1], batch[|batch| - 1];
      CountOfIds(front, id);
      assert Ids(batch) == Ids(front) + [last.id];
      assert batch[|batch| - 1].id == last.id;
      if exists i :: 0 <= i < |front| && front[i].id == id {
        var i :| 0 <= i < |front| && front[i].id == id;
        assert batch[i].id == id;
      }
    }
  }

  lemma DropCount(registered: seq<Ref>, closed: seq<nat>, s: string, batch: seq<Ref>, id: nat)
    requires OwnBatch(s, batch, registered) && id < |registered| && registered[id].id == id
    ensures CloseCount(closed + Ids(batch), id) == CloseCount(closed, id) + if registered[id] in batch then 1 else 0
  {
    CountOfIds(batch, id);
    if exists i :: 0 <= i < |batch| && batch[i].id == id {
      var i :| 0 <= i < |batch| && batch[i].id == id;
      assert registered[id] == batch[i];
    }
  }

  /** Closing a whole batch and deleting its key keeps the dictionary coherent. */
  lemma DropKeeps(sdrefs: Refs, registered: seq<Ref>, closed: seq<nat>, s: string)
    requires Coherent(sdrefs, registered, closed) && s in sdrefs
    ensures Coherent(sdrefs - {s}, registered, closed + Ids(sdrefs[s]))
  {
    var batch, less, closed' := sdrefs[s], sdrefs - {s}, closed + Ids(sdrefs[s]);
    assert OwnBatch(s, batch, registered);
    forall t | t in less
      ensures OwnBatch(t, less[t], registered)
    {
      assert OwnBatch(t, sdrefs[t], registered);
    }
    forall id | 0 <= id < |registered|
      ensures CloseCount(closed', id) == if Held(less, registered[id]) then 0 else 1
    {
      DropCount(registered, closed, s, batch, id);
      assert registered[id].id == id;
    }
    forall id | id in closed'
      ensures id < |registered|
    {
      if id !in closed {
        assert id in Ids(batch);
      }
    }
  }

  function AllRefs(sdrefs: Refs): set<Ref> {
    set s, ref | s in sdrefs && ref in sdrefs[s] :: ref
  }

  function OpenRefs(registered: seq<Ref>, closed: seq<nat>): set<Ref> {
    set id | 0 <= id < |registered| && id !in closed :: registered[id]
  }

  lemma DictionaryIsOpen(sdrefs: Refs, registered: seq<Ref>, closed: seq<nat>)
    requires Coherent(sdrefs, registered, closed)
    ensures AllRefs(sdrefs) == OpenRefs(registered, closed)
  {
    forall ref | ref in AllRefs(sdrefs)
      ensures ref in OpenRefs(registered, closed)
    {
      var s :| s in sdrefs && ref in sdrefs[s];
      assert OwnBatch(s, sdrefs[s], registered);
      assert Held(sdrefs, ref);
      assert CloseCount(closed, ref.id) == 0;
    }
    forall id | 0 <= id < |registered| && id !in closed
      ensures registered[id] in AllRefs(sdrefs)
    {
      assert CloseCount(closed, id) == 0;
    }
  }

  /** The dictionary in the first half of the handler, when the services seen were looked at. */
  ghost predicate Grown(before: Refs, now: Refs, cfg: Config, interfaces: seq<Interface>, seen: seq<string>) {
    && (forall s | s in before :: s in now && now[s] == before[s])
    && (forall s | s in now && s !in before :: s in seen && cfg.Enabled(s) && LikeNew(s, now[s], cfg, interfaces))
    && (forall s | s in seen && cfg.Enabled(s) :: s in now)
  }

  lemma GrownStep(before: Refs, now: Refs, cfg: Config, interfaces: seq<Interface>, seen: seq<string>, srv: string)
    requires Grown(before, now, cfg, interfaces, seen) && (cfg.Enabled(srv) ==> srv in now)
    ensures Grown(before, now, cfg, interfaces, seen + [srv])
  {}

  lemma GrownByOne(before: Refs, now: Refs, cfg: Config, interfaces: seq<Interface>, seen: seq<string>, srv: string, batch: seq<Ref>)
    requires Grown(before, now, cfg, interfaces, seen) && srv !in now && cfg.Enabled(srv) && LikeNew(srv, batch, cfg, interfaces)
    ensures Grown(before, now[srv := batch], cfg, interfaces, seen + [srv])
    ensures now[srv := batch] != before
  {
    assert srv in now[srv := batch] && srv !in before;
  }

  /** The dictionary in the second half, when the services seen were looked at. */
  ghost predicate Shrunk(before: Refs, now: Refs, cfg: Config, seen: seq<string>) {
    && (forall s | s in now :: s in before && now[s] == before[s])
    && (forall s | s in before && s !in now :: !cfg.Enabled(s))
    && (forall s | s in seen && s in now :: cfg.Enabled(s))
  }

  lemma ShrunkStep(before: Refs, now: Refs, cfg: Config, seen: seq<string>, srv: string)
    requires Shrunk(before, now, cfg, seen) && (srv in now ==> cfg.Enabled(srv))
    ensures Shrunk(before, now, cfg, seen + [srv])
  {}

  lemma ShrunkByOne(before: Refs, now: Refs, cfg: Config, seen: seq<string>, srv: string)
    requires Shrunk(before, now, cfg, seen) && srv in now && !cfg.Enabled(srv)
    ensures Shrunk(before, now - {srv}, cfg, seen + [srv])
    ensures now - {srv} != before
  {
    assert srv in before && srv !in now - {srv};
  }

  /** What comes in stays and what goes was there: the dictionary is another one if either half changed it. */
  lemma DictionaryChanged(before: Refs, between: Refs, after: Refs, cfg: Config, interfaces: seq<Interface>)
    requires Grown(before, between, cfg, interfaces, cfg.services) && Shrunk(between, after, cfg, [])
    ensures between != before || after != between <==> after != before
  {
    if s :| s in between && s !in before {
      assert s in after;
    } else {
      assert between == before;
    }
  }

  // ----- AImDNS -----------------------------------------------------------------------------------

  /** Of the first i services exactly those that get a reference have an entry. */
  ghost predicate AllUpTo(sdrefs: Refs, cfg: Config, interfaces: seq<Interface>, i: nat)
    requires i <= |cfg.services|
  {
    && (forall s :: s in sdrefs <==> s in cfg.services[..i] && Reachable(s, cfg, interfaces))
    && (forall s | s in sdrefs :: LikeNew(s, sdrefs[s], cfg, interfaces))
  }

  lemma AllNext(sdrefs: Refs, cfg: Config, interfaces: seq<Interface>, i: nat, refs: Option<seq<Ref>>)
    requires cfg.Valid() && i < |cfg.services| && AllUpTo(sdrefs, cfg, interfaces, i)
    requires refs.None? <==> !cfg.Enabled(cfg.services[i])
    requires refs.Some? ==> LikeNew(cfg.services[i], refs.value, cfg, interfaces)
    ensures cfg.services[i] !in sdrefs
    ensures AllUpTo(if refs.Some? && refs.value != [] then sdrefs[cfg.services[i] := refs.value] else sdrefs, cfg, interfaces, i + 1)
  {
    var s := cfg.services[i];
    assert cfg.services[..i + 1] == cfg.services[..i] + [s];
    assert s !in cfg.services[..i];
    assert refs.Some? ==> (Reachable(s, cfg, interfaces) <==> refs.value != []);
  }

  /** The configuration of the last SIGHUP that arrived. */
  function LastConfig(events: seq<Option<Config>>): Option<Config> {
    if events == [] then None
    else if events[|events| - 1].Some? then events[|events| - 1]
    else LastConfig(events[..|events| - 1])
  }

  /** What the dictionary and the list of services are after the last SIGHUP, or at the start. */
  ghost predicate Reflects(start: Refs, known: seq<string>, sdrefs: Refs, services: seq<string>, last: Option<Config>) {
    match last
    case None => sdrefs == start && services == known
    case Some(cfg) => services == cfg.services && forall s :: s in sdrefs <==> cfg.Enabled(s)
  }

  /** The batch was made by a SIGHUP of these, under the configuration that arrived with it. */
  ghost predicate MadeBy(events: seq<Option<Config>>, s: string, batch: seq<Ref>, interfaces: seq<Interface>) {
    exists i :: 0 <= i < |events| && events[i].Some? && LikeNew(s, batch, events[i].value, interfaces)
  }

  /** Every entry is one of the start, or was made since. */
  ghost predicate AllMade(start: Refs, sdrefs: Refs, events: seq<Option<Config>>, interfaces: seq<Interface>) {
    forall s | s in sdrefs :: (s in start && sdrefs[s] == start[s]) || MadeBy(events, s, sdrefs[s], interfaces)
  }

  lemma MadeNext(start: Refs, before: Refs, sdrefs: Refs, events: seq<Option<Config>>, i: nat, interfaces: seq<Interface>)
    requires i < |events| && AllMade(start, before, events[..i], interfaces)
    requires if events[i].Some? then
               (forall s | s in sdrefs && s in before :: sdrefs[s] == before[s])
               && (forall s | s in sdrefs && s !in before :: LikeNew(s, sdrefs[s], events[i].value, interfaces))
             else sdrefs == before
    ensures AllMade(start, sdrefs, events[..i + 1], interfaces)
  {
    var more := events[..i + 1];
    forall s | s in sdrefs
      ensures (s in start && sdrefs[s] == start[s]) || MadeBy(more, s, sdrefs[s], interfaces)
    {
      if s !in before {
        assert more[i] == events[i];
      } else if MadeBy(events[..i], s, sdrefs[s], interfaces) {
        var k :| 0 <= k < i && events[..i][k].Some? && LikeNew(s, sdrefs[s], events[..i][k].value, interfaces);
        assert more[k] == events[..i][k];
      }
    }
  }

  /** One SIGHUP: the entries are those of the enabled services, kept or made anew. */
  ghost predicate Reconciled(before: Refs, sdrefs: Refs, services: seq<string>, cfg: Config, interfaces: seq<Interface>) {
    && services == cfg.services
    && (forall s :: s in sdrefs <==> cfg.Enabled(s))
    && (forall s | s in sdrefs && s in before :: sdrefs[s] == before[s])
    && (forall s | s in sdrefs && s !in before :: LikeNew(s, sdrefs[s], cfg, interfaces))
  }

  /** What the entries and the list of services are after any number of rounds, with or without SIGHUP. */
  ghost predicate Handled(start: Refs, known: seq<string>, sdrefs: Refs, services: seq<string>, events: seq<Option<Config>>,
                          interfaces: seq<Interface>)
    decreases |events|
  {
    if events == [] then sdrefs == start && services == known
    else
      var n := |events| - 1;
      exists before, were ::
        && Handled(start, known, before, were, events[..n], interfaces)
        && if events[n].Some? then Reconciled(before, sdrefs, services, events[n].value, interfaces)
           else sdrefs == before && services == were
  }

  lemma HandledNext(start: Refs, known: seq<string>, before: Refs, were: seq<string>, sdrefs: Refs, services: seq<string>,
                    events: seq<Option<Config>>, i: nat, interfaces: seq<Interface>)
    requires i < |events| && Handled(start, known, before, were, events[..i], interfaces)
    requires if events[i].Some? then Reconciled(before, sdrefs, services, events[i].value, interfaces)
             else sdrefs == before && services == were
    ensures Handled(start, known, sdrefs, services, events[..i + 1], interfaces)
  {
    assert events[..i + 1][..i] == events[..i];
  }

  /** Then the entries are those of the services enabled at the last SIGHUP that arrived, each of them one
      of the start or made by one of the SIGHUPs. */
  lemma {:induction false} HandledMeans(start: Refs, known: seq<string>, sdrefs: Refs, services: seq<string>,
                                        events: seq<Option<Config>>, interfaces: seq<Interface>)
    requires Handled(start, known, sdrefs, services, events, interfaces)
    ensures Reflects(start, known, sdrefs, services, LastConfig(events)) && AllMade(start, sdrefs, events, interfaces)
    decreases |events|
  {
    if events != [] {
      var n := |events| - 1;
      var before, were :|
        && Handled(start, known, before, were, events[..n], interfaces)
        && if events[n].Some? then Reconciled(before, sdrefs, services, events[n].value, interfaces)
           else sdrefs == before && services == were;
      HandledMeans(start, known, before, were, events[..n], interfaces);
      MadeNext(start, before, sdrefs, events, n, interfaces);
      assert events[..n + 1] == events;
    }
  }

  class AImDNS {
    const interfaces: seq<Interface>
    var sdrefs: Refs
    var instanceServices: seq<string>
    var restartLoop: bool
    // the daemon: references handed out, and ids of the close() calls, in order
    var registered: seq<Ref>
    var closed: seq<nat>

    ghost predicate Valid()
      reads this
    {
      Coherent(sdrefs, registered, closed) && forall s | s in sdrefs :: s in instanceServices
    }

    constructor (interfaces: seq<Interface>)
      ensures Valid() && this.interfaces == interfaces && sdrefs == map[]
    {
      this.interfaces := interfaces;
      sdrefs, instanceServices, restartLoop := map[], [], false;
      registered, closed := [], [];
    }

    /** None for a service that is not enabled; otherwise one reference per interface on a valid network. */
    method RegisterAService(name: string, cfg: Config) returns (r: Option<seq<Ref>>)
      requires name in cfg.props
      modifies this`registered
      ensures r.None? <==> !cfg.Enabled(name)
      ensures r.None? ==> registered == old(registered)
      ensures r.Some? ==> registered == old(registered) + r.value && NextIds(name, r.value, |old(registered)|)
      ensures r.Some? ==> LikeNew(name, r.value, cfg, interfaces)
      ensures r.Some? ==> AnnouncedOnAll(Offers(r.value), interfaces, cfg, name)
    {
      if !cfg.props[name].on {
        return None;
      }
      var setting := SettingOf(cfg, name);
      var listSdrefs: seq<Ref> := [];
      ghost var next := |registered|;
      for i := 0 to |interfaces|
        invariant listSdrefs == Batch(name, setting, interfaces[..i], cfg.networks, next)
        invariant registered == old(registered) + listSdrefs
      {
        BatchNext(name, setting, interfaces, cfg.networks, next, i);
        var includeIt := false;
        for k := 0 to |cfg.networks|
          invariant !includeIt && forall j | 0 <= j < k :: !StartsWith(interfaces[i].address, cfg.networks[j])
        {
          if StartsWith(interfaces[i].address, cfg.networks[k]) {
            includeIt := true;
            break;
          }
        }
        assert includeIt == OnValidNetwork(interfaces[i], cfg.networks);
        if !includeIt {
          continue;
        }
        var sdref := NewRef(|registered|, name, interfaces[i], setting);
        registered := registered + [sdref];
        listSdrefs := listSdrefs + [sdref];
      }
      assert interfaces[..|interfaces|] == interfaces;
      BatchIsLikeNew(name, cfg, interfaces, next);
      LikeNewAnnounces(name, listSdrefs, cfg, interfaces);
      r := Some(listSdrefs);
    }

    /** Unlike the SIGHUP handler it keeps no empty batches. */
    method RegisterAll(cfg: Config)
      requires Valid() && cfg.Valid() && sdrefs == map[]
      modifies this
      ensures Valid() && instanceServices == cfg.services && restartLoop == old(restartLoop)
      ensures forall s :: s in sdrefs <==> Reachable(s, cfg, interfaces)
      ensures forall s | s in sdrefs :: LikeNew(s, sdrefs[s], cfg, interfaces)
    {
      instanceServices := cfg.services;
      for i := 0 to |cfg.services|
        invariant Valid() && instanceServices == cfg.services && restartLoop == old(restartLoop)
        invariant AllUpTo(sdrefs, cfg, interfaces, i)
      {
        var servicename := cfg.services[i];
        assert servicename in cfg.services;
        ghost var before := registered;
        var refs := RegisterAService(servicename, cfg);
        assert refs.Some? && refs.value == [] ==> registered == before;
        AllNext(sdrefs, cfg, interfaces, i, refs);
        if refs.Some? && refs.value != [] {
          AddKeeps(sdrefs, before, closed, servicename, refs.value);
          sdrefs := sdrefs[servicename := refs.value];
        }
      }
    }

    /** Closes every reference of the service and forgets the service. */
    method Unregister(srv: string)
      requires Coherent(sdrefs, registered, closed) && srv in sdrefs
      modifies this`sdrefs, this`closed
      ensures Coherent(sdrefs, registered, closed)
      ensures sdrefs == old(sdrefs) - {srv} && closed == old(closed) + Ids(old(sdrefs)[srv])
    {
      var batch := sdrefs[srv];
      for i := 0 to |batch|
        invariant sdrefs == old(sdrefs) && closed == old(closed) + Ids(batch[..i])
      {
        assert Ids(batch[..i + 1]) == Ids(batch[..i]) + [batch[i].id];
        closed := closed + [batch[i].id];
      }
      assert batch[..|batch|] == batch;
      DropKeeps(sdrefs, registered, closed[..|old(closed)|], srv);
      assert closed[..|old(closed)|] == old(closed);
      sdrefs := sdrefs - {srv};
    }

    /** First half of the handler: services that are not registered yet. */
    method RegisterMissing(cfg: Config)
      requires Valid() && cfg.Valid()
      modifies this`sdrefs, this`registered, this`restartLoop
      ensures Coherent(sdrefs, registered, closed) && Grown(old(sdrefs), sdrefs, cfg, interfaces, cfg.services)
      ensures restartLoop <==> old(restartLoop) || sdrefs != old(sdrefs)
    {
      for i := 0 to |cfg.services|
        invariant Coherent(sdrefs, registered, closed) && Grown(old(sdrefs), sdrefs, cfg, interfaces, cfg.services[..i])
        invariant restartLoop <==> old(restartLoop) || sdrefs != old(sdrefs)
      {
        var srv := cfg.services[i];
        assert cfg.services[..i + 1] == cfg.services[..i] + [srv];
        assert srv in cfg.services && srv !in cfg.services[..i];
        if srv !in instanceServices || srv !in sdrefs {
          ghost var before := registered;
          var refs := RegisterAService(srv, cfg);
          if refs.Some? {
            restartLoop := true;
            if srv in sdrefs {
              assert false;
            } else {
              AddKeeps(sdrefs, before, closed, srv, refs.value);
              GrownByOne(old(sdrefs), sdrefs, cfg, interfaces, cfg.services[..i], srv, refs.value);
              sdrefs := sdrefs[srv := refs.value];
              continue;
            }
          }
        }
        GrownStep(old(sdrefs), sdrefs, cfg, interfaces, cfg.services[..i], srv);
      }
      assert cfg.services[..|cfg.services|] == cfg.services;
    }

    /** Second half: services known before that were removed or disabled. */
    method UnregisterGone(cfg: Config)
      requires Coherent(sdrefs, registered, closed) && cfg.Valid()
      modifies this`sdrefs, this`closed, this`restartLoop
      ensures Coherent(sdrefs, registered, closed) && Shrunk(old(sdrefs), sdrefs, cfg, instanceServices)
      ensures restartLoop <==> old(restartLoop) || sdrefs != old(sdrefs)
    {
      for j := 0 to |instanceServices|
        invariant Coherent(sdrefs, registered, closed) && Shrunk(old(sdrefs), sdrefs, cfg, instanceServices[..j])
        invariant restartLoop <==> old(restartLoop) || sdrefs != old(sdrefs)
      {
        var srv := instanceServices[j];
        assert instanceServices[..j + 1] == instanceServices[..j] + [srv];
        // get_service_props answers None, not KeyError, for a service that is gone
        if srv !in cfg.services || (srv in sdrefs && !cfg.props[srv].on) {
          if srv in sdrefs {
            restartLoop := true;
            ShrunkByOne(old(sdrefs), sdrefs, cfg, instanceServices[..j], srv);
            Unregister(srv);
            continue;
          }
        }
        ShrunkStep(old(sdrefs), sdrefs, cfg, instanceServices[..j], srv);
      }
      assert instanceServices[..|instanceServices|] == instanceServices;
    }

    /** SIGHUP: afterwards exactly the enabled services are registered; those that were before keep
        their references, the others are registered as from scratch, and the event loop is told to
        restart if the dictionary changed and only then. */
    method SignalHup(cfg: Config)
      requires Valid() && cfg.Valid()
      modifies this
      ensures Valid() && instanceServices == cfg.services
      ensures forall s :: s in sdrefs <==> cfg.Enabled(s)
      ensures forall s | s in sdrefs && s in old(sdrefs) :: sdrefs[s] == old(sdrefs)[s]
      ensures forall s | s in sdrefs && s !in old(sdrefs) :: LikeNew(s, sdrefs[s], cfg, interfaces)
      ensures restartLoop <==> old(restartLoop) || sdrefs != old(sdrefs)
    {
      RegisterMissing(cfg);
      ghost var between := sdrefs;
      UnregisterGone(cfg);
      instanceServices := cfg.services;
      DictionaryChanged(old(sdrefs), between, sdrefs, cfg, interfaces);
    }

    /** The loop around select(); events holds, per round, the configuration of a SIGHUP that
        arrives while select() waits. The references waited on are always the open ones. */
    method HandleEvents(events: seq<Option<Config>>) returns (waits: seq<set<Ref>>, open: seq<set<Ref>>)
      requires Valid() && forall e | e in events && e.Some? :: e.value.Valid()
      modifies this
      ensures Valid() && |waits| == |events| && waits == open
      ensures Handled(old(sdrefs), old(instanceServices), sdrefs, instanceServices, events, interfaces)
      ensures Reflects(old(sdrefs), old(instanceServices), sdrefs, instanceServices, LastConfig(events))
      ensures AllMade(old(sdrefs), sdrefs, events, interfaces)
    {
      waits, open := [], [];
      assert events[..0] == [];
      var i := 0;
      while i < |events|
        invariant i <= |events| && Valid() && |waits| == i && waits == open
        invariant Handled(old(sdrefs), old(instanceServices), sdrefs, instanceServices, events[..i], interfaces)
        decreases |events| - i
      {
        var therefs := AllRefs(sdrefs);
        ghost var start := i;
        restartLoop := false;
        while !restartLoop && i < |events|
          invariant i <= |events| && Valid() && |waits| == i && waits == open
          invariant Handled(old(sdrefs), old(instanceServices), sdrefs, instanceServices, events[..i], interfaces)
          invariant !restartLoop ==> therefs == AllRefs(sdrefs)
          invariant start <= i && (restartLoop ==> start < i)
          decreases |events| - i
        {
          DictionaryIsOpen(sdrefs, registered, closed);
          waits, open := waits + [therefs], open + [OpenRefs(registered, closed)];
          assert events[i] in events;
          ghost var before, were := sdrefs, instanceServices;
          if events[i].Some? {
            SignalHup(events[i].value);
          }
          HandledNext(old(sdrefs), old(instanceServices), before, were, sdrefs, instanceServices, events, i, interfaces);
          i := i + 1;
        }
      }
      assert events[..|events|] == events;
      HandledMeans(old(sdrefs), old(instanceServices), sdrefs, instanceServices, events, interfaces);
    }
  }

  // ----- whole runs ---------------------------------------------------------------------------------

  /** The service has an entry after the n-th configuration was processed, number 0 by register_all. */
  predicate Registered(cfgs: seq<Config>, interfaces: seq<Interface>, n: nat, s: string)
    requires n < |cfgs|
  {
    cfgs[n].Enabled(s) && (n == 0 ==> FromScratch(s, cfgs[0], interfaces) != [])
  }

  /** The configuration under which the present entry of the service was made. */
  function Since(cfgs: seq<Config>, interfaces: seq<Interface>, n: nat, s: string): (k: nat)
    requires n < |cfgs| && Registered(cfgs, interfaces, n, s)
    ensures k <= n && Registered(cfgs, interfaces, k, s)
    ensures k > 0 ==> !Registered(cfgs, interfaces, k - 1, s)
    ensures forall j | k <= j <= n :: Registered(cfgs, interfaces, j, s)
  {
    if n > 0 && Registered(cfgs, interfaces, n - 1, s) then Since(cfgs, interfaces, n - 1, s) else n
  }

  /** Each entry offers what registering from scratch under its configuration gives. */
  ghost predicate InStep(sdrefs: Refs, cfgs: seq<Config>, interfaces: seq<Interface>, n: nat)
    requires n < |cfgs|
  {
    && (forall s :: s in sdrefs <==> Registered(cfgs, interfaces, n, s))
    && (forall s | s in sdrefs :: LikeNew(s, sdrefs[s], cfgs[Since(cfgs, interfaces, n, s)], interfaces))
  }

  lemma StaysInStep(before: Refs, after: Refs, cfgs: seq<Config>, interfaces: seq<Interface>, n: nat)
    requires 0 < n < |cfgs| && InStep(before, cfgs, interfaces, n - 1)
    requires forall s :: s in after <==> cfgs[n].Enabled(s)
    requires forall s | s in after && s in before :: after[s] == before[s]
    requires forall s | s in after && s !in before :: LikeNew(s, after[s], cfgs[n], interfaces)
    ensures InStep(after, cfgs, interfaces, n)
  {
    forall s | s in after
      ensures LikeNew(s, after[s], cfgs[Since(cfgs, interfaces, n, s)], interfaces)
    {
      if s in before {
        assert Since(cfgs, interfaces, n, s) == Since(cfgs, interfaces, n - 1, s);
      } else {
        assert Since(cfgs, interfaces, n, s) == n;
      }
    }
  }

  /** An entry is what registering from scratch now would give exactly if the configuration it was
      made under has the service's present setting. */
  lemma UpToDateExactly(sdrefs: Refs, cfgs: seq<Config>, interfaces: seq<Interface>, n: nat, s: string)
    requires n < |cfgs| && InStep(sdrefs, cfgs, interfaces, n) && s in sdrefs && ByName(interfaces)
    ensures LikeNew(s, sdrefs[s], cfgs[n], interfaces) <==>
              SameSetting(s, cfgs[Since(cfgs, interfaces, n, s)], cfgs[n], interfaces)
  {
    SameFromScratch(s, cfgs[Since(cfgs, interfaces, n, s)], cfgs[n], interfaces);
  }

  /** register_all and any number of SIGHUPs. */
  method Run(interfaces: seq<Interface>, cfgs: seq<Config>) returns (m: AImDNS)
    requires cfgs != [] && ByName(interfaces) && forall c | c in cfgs :: c.Valid()
    ensures fresh(m) && m.Valid() && m.interfaces == interfaces
    ensures InStep(m.sdrefs, cfgs, interfaces, |cfgs| - 1)
    ensures forall s | s in m.sdrefs ::
              var made := cfgs[Since(cfgs, interfaces, |cfgs| - 1, s)];
              s in made.props && AnnouncedOnAll(Offers(m.sdrefs[s]), interfaces, made, s)
    ensures forall s | s in m.sdrefs ::
              LikeNew(s, m.sdrefs[s], cfgs[|cfgs| - 1], interfaces) <==>
                SameSetting(s, cfgs[Since(cfgs, interfaces, |cfgs| - 1, s)], cfgs[|cfgs| - 1], interfaces)
  {
    m := new AImDNS(interfaces);
    assert cfgs[0] in cfgs;
    m.RegisterAll(cfgs[0]);
    var n := 0;
    while n + 1 < |cfgs|
      invariant n < |cfgs| && fresh(m) && m.Valid() && m.interfaces == interfaces
      invariant InStep(m.sdrefs, cfgs, interfaces, n)
    {
      n := n + 1;
      ghost var before := m.sdrefs;
      assert cfgs[n] in cfgs;
      m.SignalHup(cfgs[n]);
      StaysInStep(before, m.sdrefs, cfgs, interfaces, n);
    }
    forall s | s in m.sdrefs
      ensures AnnouncedOnAll(Offers(m.sdrefs[s]), interfaces, cfgs[Since(cfgs, interfaces, n, s)], s)
    {
      LikeNewAnnounces(s, m.sdrefs[s], cfgs[Since(cfgs, interfaces, n, s)], interfaces);
    }
    forall s | s in m.sdrefs {
      UpToDateExactly(m.sdrefs, cfgs, interfaces, n, s);
    }
  }

  /** A service registered at the start and still there after one SIGHUP is not up to date. */
  ghost predicate Stale(before: Config, after: Config, interfaces: seq<Interface>, s: string) {
    var cfgs := [before, after];
    Registered(cfgs, interfaces, 1, s)
    && FromScratch(s, cfgs[Since(cfgs, interfaces, 1, s)], interfaces) != FromScratch(s, after, interfaces)
  }

  lemma StaleExactly(before: Config, after: Config, interfaces: seq<Interface>, s: string)
    requires before.Enabled(s) && after.Enabled(s) && Chosen(interfaces, before.networks) != [] && ByName(interfaces)
    ensures Stale(before, after, interfaces, s) <==> !SameSetting(s, before, after, interfaces)
  {
    var cfgs := [before, after];
    BatchOffers(s, SettingOf(before, s), interfaces, before.networks);
    assert Registered(cfgs, interfaces, 0, s);
    assert Since(cfgs, interfaces, 1, s) == 0;
    SameFromScratch(s, before, after, interfaces);
  }

  /** A service that is deleted and made anew with another port or key between two SIGHUPs keeps its old
      offers. */
  lemma ChangedPortIsMissed(before: Config, after: Config, interfaces: seq<Interface>, s: string)
    requires before.Enabled(s) && after.Enabled(s) && SettingOf(before, s) != SettingOf(after, s)
    requires Chosen(interfaces, before.networks) != [] && ByName(interfaces)
    ensures Stale(before, after, interfaces, s)
  {
    StaleExactly(before, after, interfaces, s);
  }

  /** So does a service whose interface is no longer on a valid network, whatever its port. */
  lemma ChangedNetworksAreMissed(before: Config, after: Config, inf: Interface, s: string)
    requires before.Enabled(s) && after.Enabled(s)
    requires OnValidNetwork(inf, before.networks) && !OnValidNetwork(inf, after.networks)
    ensures Stale(before, after, [inf], s)
  {
    assert [inf][..0] == [];
    assert Chosen([inf], before.networks) == [inf] && Chosen([inf], after.networks) == [];
    StaleExactly(before, after, [inf], s);
  }
}
