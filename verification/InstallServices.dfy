/** The registry of installation services and their clients: create, alias, rename and delete commands
    over the configuration of all services (service_config.py and its callers). */
module InstallServices {
  import opened Text
  import opened AliasGraph

  const DEFAULT_ARCH: seq<string> := ["default-i386", "default-sparc"]

  // ----- what every command keeps ------------------------------------------------------------------

  predicate GoodBase(config: Config, alias: Service, base: string) {
    base in config && config[base].aliasof.None? && config[base].arch == alias.arch
  }

  /** Every alias is of an existing service of its architecture that is no alias itself. */
  ghost predicate FlatAliases(config: Config) {
    forall a | a in config && config[a].aliasof.Some? :: GoodBase(config, config[a], config[a].aliasof.value)
  }

  /** No client id stands in the configuration of two services. */
  ghost predicate OneServicePerClient(config: Config) {
    forall s, t, k | s in config && t in config && k in config[s].clients && k in config[t].clients :: s == t
  }

  predicate GoodClient(service: Service, k: string)
    requires k in service.clients
  {
    Lower(k) == k && StartsWith(k, "01") && (service.arch != "i386" ==> service.clients[k].bootargs == "")
  }

  /** Client ids are kept in lower case and start with 01; only i386 clients have boot arguments. */
  ghost predicate GoodClients(config: Config) {
    forall s, k | s in config && k in config[s].clients :: GoodClient(config[s], k)
  }

  ghost predicate Good(config: Config) {
    FlatAliases(config) && OneServicePerClient(config) && GoodClients(config)
  }

  /** A height for the alias graph of a good configuration. */
  function Heights(config: Config): map<string, nat> {
    map s | s in config :: if config[s].aliasof.None? then 1 else 0
  }

  lemma FlatIsAcyclic(config: Config)
    requires FlatAliases(config)
    ensures Acyclic(config, Heights(config))
  {}

  lemma FlatDependents(config: Config, a: string, b: string)
    requires FlatAliases(config)
    ensures Depends(config, a, b) <==> IsAliasOf(config, a, b)
  {
    if IsAliasOf(config, a, b) {
      DependsThroughBase(config, a, b);
    }
    if n: nat :| DependsIn(config, a, b, n) {
      DependsThroughBase(config, a, b);
    }
  }

  // ----- what the commands do, as values -----------------------------------------------------------

  function WithoutClient(config: Config, k: string): Config {
    map s | s in config :: config[s].(clients := config[s].clients - {k})
  }

  function WithClient(config: Config, service: string, k: string, data: Client): Config
    requires service in config
  {
    config[service := config[service].(clients := config[service].clients[k := data])]
  }

  /** The service and all that depend on it, with their clients, are gone. */
  function Deleted(config: Config, service: string): Config {
    map s | s in config && s != service && config[s].aliasof != Some(service) :: config[s]
  }

  /** The service has the new name, and its aliases point there. */
  function Renamed(config: Config, old_: string, new_: string): Config {
    map s | s in config.Keys - {old_} + (if old_ in config then {new_} else {}) ::
      if s == new_ && old_ in config then config[old_]
      else if config[s].aliasof == Some(old_) then config[s].(aliasof := Some(new_))
      else config[s]
  }

  function Repointed(config: Config, alias: string, base: string): Config {
    if alias in config then config[alias := config[alias].(aliasof := Some(base))] else config
  }

  lemma WithoutClientKeeps(config: Config, k: string)
    requires Good(config)
    ensures Good(WithoutClient(config, k))
  {
    var config' := WithoutClient(config, k);
    forall s, t, c | s in config' && t in config' && c in config'[s].clients && c in config'[t].clients
      ensures s == t
    {
      assert c in config[s].clients && c in config[t].clients;
    }
    forall s, c | s in config' && c in config'[s].clients
      ensures GoodClient(config'[s], c)
    {
      assert GoodClient(config[s], c);
    }
    forall a | a in config' && config'[a].aliasof.Some?
      ensures GoodBase(config', config'[a], config'[a].aliasof.value)
    {
      assert GoodBase(config, config[a], config[a].aliasof.value);
    }
  }

  lemma WithClientKeeps(config: Config, service: string, k: string, data: Client)
    requires Good(config) && service in config && Lower(k) == k && StartsWith(k, "01")
    requires config[service].arch != "i386" ==> data.bootargs == ""
    requires forall s | s in config :: k !in config[s].clients
    ensures Good(WithClient(config, service, k, data))
  {
    var config' := WithClient(config, service, k, data);
    forall s, t, c | s in config' && t in config' && c in config'[s].clients && c in config'[t].clients
      ensures s == t
    {
      if c != k {
        assert c in config[s].clients && c in config[t].clients;
      }
    }
    forall s, c | s in config' && c in config'[s].clients
      ensures GoodClient(config'[s], c)
    {
      if c in config[s].clients {
        assert GoodClient(config[s], c);
      }
    }
    forall a | a in config' && config'[a].aliasof.Some?
      ensures GoodBase(config', config'[a], config'[a].aliasof.value)
    {
      assert GoodBase(config, config[a], config[a].aliasof.value);
    }
  }

  lemma DeletedKeeps(config: Config, service: string)
    requires Good(config)
    ensures Good(Deleted(config, service))
  {
    var config' := Deleted(config, service);
    forall a | a in config' && config'[a].aliasof.Some?
      ensures GoodBase(config', config'[a], config'[a].aliasof.value)
    {
      assert GoodBase(config, config[a], config[a].aliasof.value);
    }
    forall s, c | s in config' && c in config'[s].clients
      ensures GoodClient(config'[s], c)
    {
      assert GoodClient(config[s], c);
    }
  }

  lemma RenamedKeeps(config: Config, old_: string, new_: string)
    requires Good(config) && old_ in config && new_ !in config
    ensures Good(Renamed(config, old_, new_))
  {
    var config' := Renamed(config, old_, new_);
    forall a | a in config' && config'[a].aliasof.Some?
      ensures GoodBase(config', config'[a], config'[a].aliasof.value)
    {
      var was := if a == new_ then old_ else a;
      assert GoodBase(config, config[was], config[was].aliasof.value);
    }
    forall s, t, c | s in config' && t in config' && c in config'[s].clients && c in config'[t].clients
      ensures s == t
    {
      var x, y := if s == new_ then old_ else s, if t == new_ then old_ else t;
      assert c in config[x].clients && c in config[y].clients;
    }
    forall s, c | s in config' && c in config'[s].clients
      ensures GoodClient(config'[s], c)
    {
      var was := if s == new_ then old_ else s;
      assert GoodClient(config[was], c);
    }
  }

  /** A new entry that no service depends on yet. */
  lemma NewServiceKeeps(config: Config, name: string, service: Service)
    requires Good(config) && name !in config && service.clients == map[]
    requires service.aliasof.Some? ==> GoodBase(config, service, service.aliasof.value)
    ensures Good(config[name := service])
  {
    var config' := config[name := service];
    forall a | a in config' && config'[a].aliasof.Some?
      ensures GoodBase(config', config'[a], config'[a].aliasof.value)
    {
      if a != name {
        assert GoodBase(config, config[a], config[a].aliasof.value);
      }
    }
    forall s, t, c | s in config' && t in config' && c in config'[s].clients && c in config'[t].clients
      ensures s == t
    {
      assert s != name && t != name && c in config[s].clients && c in config[t].clients;
    }
    forall s, c | s in config' && c in config'[s].clients
      ensures GoodClient(config'[s], c)
    {
      assert s != name && GoodClient(config[s], c);
    }
  }

  lemma NewBaseKeeps(config: Config, alias: string, base: string)
    requires Good(config) && alias in config && config[alias].aliasof.Some? && GoodBase(config, config[alias], base)
    ensures Good(Repointed(config, alias, base))
  {
    var config' := Repointed(config, alias, base);
    forall a | a in config' && config'[a].aliasof.Some?
      ensures GoodBase(config', config'[a], config'[a].aliasof.value)
    {
      if a != alias {
        assert GoodBase(config, config[a], config[a].aliasof.value);
      }
    }
    forall s, t, c | s in config' && t in config' && c in config'[s].clients && c in config'[t].clients
      ensures s == t
    {
      assert c in config[s].clients && c in config[t].clients;
    }
    forall s, c | s in config' && c in config'[s].clients
      ensures GoodClient(config'[s], c)
    {
      assert GoodClient(config[s], c);
    }
  }

  // ----- case of client ids ------------------------------------------------------------------------

  lemma UpperLower(k: string)
    ensures Lower(k) == k ==> Lower(Upper(k)) == k
    ensures Lower(Lower(k)) == Lower(k)
  {
    if Lower(k) == k {
      forall i | 0 <= i < |k|
        ensures Lower(Upper(k))[i] == k[i]
      {
        assert Lower(k)[i] == LowerChar(k[i]);
      }
      assert Lower(Upper(k)) == k;
    }
    assert Lower(Lower(k)) == Lower(k);
  }

  /** The id of a client of which the leading 01 was stripped is made again. */
  lemma IdFromMac(k: string)
    requires Lower(k) == k && StartsWith(k, "01")
    ensures Lower("01" + Upper(k)[2..]) == k
  {
    UpperLower(k);
    assert k[..2] == "01" && k[0] == '0' && k[1] == '1';
    assert Upper(k)[0] == '0' && Upper(k)[1] == '1';
    assert Upper(k) == "01" + Upper(k)[2..];
  }

  lemma NewId(mac: string)
    ensures Lower(Lower("01" + mac)) == Lower("01" + mac) && StartsWith(Lower("01" + mac), "01")
  {
    UpperLower("01" + mac);
    LowerConcat("01", mac);
    assert Lower("01") == "01";
    assert ("01" + Lower(mac))[..2] == "01";
  }

  /** A client as get_clients gives it, its id in upper case. */
  datatype Entry = Entry(id: string, data: Client)

  /** The entries are the clients of a service, each once. */
  ghost predicate Lists(entries: seq<Entry>, clients: map<string, Client>) {
    && (forall e | e in entries :: Lower(e.id) in clients && e == Entry(Upper(Lower(e.id)), clients[Lower(e.id)]))
    && (forall k | k in clients :: Entry(Upper(k), clients[k]) in entries)
    && (forall i, j | 0 <= i < j < |entries| :: Lower(entries[i].id) != Lower(entries[j].id))
  }

  // ----- steps of the commands -----------------------------------------------------------------------

  function Ids(entries: seq<Entry>): set<string> {
    set e | e in entries :: Lower(e.id)
  }

  /** The service without some of its clients. */
  function Emptied(config: Config, service: string, ids: set<string>): Config
    requires service in config
  {
    config[service := config[service].(clients := config[service].clients - ids)]
  }

  /** The service with some of its clients only. */
  function Holding(config: Config, service: string, ids: set<string>): Config
    requires service in config
  {
    config[service := config[service].(clients := map k | k in config[service].clients && k in ids :: config[service].clients[k])]
  }

  /** The aliases in the list follow the service to its new name. */
  function RepointedAll(config: Config, aliases: seq<string>, base: string): Config {
    map s | s in config :: if s in aliases then config[s].(aliasof := Some(base)) else config[s]
  }

  predicate HasDependents(config: Config, service: string)
    requires service in config
  {
    config[service].clients != map[] || exists a :: a in config && config[a].aliasof == Some(service)
  }

  lemma OnlyHit(config: Config, service: Option<string>, k: string)
    requires OneServicePerClient(config)
    requires service.Some? ==> service.value in config && k in config[service.value].clients
    requires service.None? ==> forall s | s in config :: k !in config[s].clients
    ensures WithoutClient(config, k) ==
            if service.None? then config
            else config[service.value := config[service.value].(clients := config[service.value].clients - {k})]
  {
    forall s | s in config
      ensures service != Some(s) ==> config[s].clients - {k} == config[s].clients
    {
      if service != Some(s) {
        assert k !in config[s].clients;
      }
    }
  }

  /** The check for inter-dependencies never fires: what depends on another service is an alias. */
  lemma BaseDependsOnNothing(config: Config, base: string, alias: string)
    requires base in config && config[base].aliasof.None?
    ensures !Depends(config, base, alias)
  {}

  lemma ListsOneMore(entries: seq<Entry>, clients: map<string, Client>, todo: set<string>, k: string)
    requires todo <= clients.Keys && k in todo && Lists(entries, clients - todo) && Lower(Upper(k)) == k
    ensures Lists(entries + [Entry(Upper(k), clients[k])], clients - (todo - {k}))
  {
    var less, more, e := clients - todo, clients - (todo - {k}), Entry(Upper(k), clients[k]);
    forall i | 0 <= i < |entries|
      ensures Lower(entries[i].id) != k
    {
      assert entries[i] in entries && Lower(entries[i].id) in less;
    }
    forall l | l in more
      ensures Entry(Upper(l), more[l]) in entries + [e]
    {
      if l != k {
        assert l in less;
      }
    }
  }

  lemma NoEntries(entries: seq<Entry>, clients: map<string, Client>)
    requires Lists(entries, clients)
    ensures entries == [] <==> clients == map[]
  {
    if clients != map[] {
      var k :| k in clients;
      assert Entry(Upper(k), clients[k]) in entries;
    }
    if entries != [] {
      assert entries[0] in entries;
    }
  }

  lemma NoIds(config: Config, service: string, entries: seq<Entry>)
    requires service in config
    ensures Emptied(config, service, Ids(entries[..0])) == config
  {
    assert config[service].clients - Ids(entries[..0]) == config[service].clients;
  }

  lemma IdsNext(entries: seq<Entry>, clients: map<string, Client>, i: nat)
    requires i < |entries| && Lists(entries, clients)
    ensures Lower(entries[i].id) in clients
    ensures Ids(entries[..i + 1]) == Ids(entries[..i]) + {Lower(entries[i].id)}
  {
    assert entries[i] in entries;
    assert entries[..i + 1] == entries[..i] + [entries[i]];
  }

  lemma AllIds(config: Config, service: string, entries: seq<Entry>)
    requires GoodClients(config) && service in config && Lists(entries, config[service].clients)
    ensures Emptied(config, service, Ids(entries[..|entries|])) == config[service := config[service].(clients := map[])]
  {
    var clients := config[service].clients;
    assert entries[..|entries|] == entries;
    forall k | k in clients
      ensures k in Ids(entries)
    {
      assert GoodClient(config[service], k);
      UpperLower(k);
      assert Entry(Upper(k), clients[k]) in entries;
    }
    assert clients - Ids(entries) == map[];
  }

  lemma OthersLack(config: Config, service: string, ids: set<string>, k: string)
    requires OneServicePerClient(config) && service in config && k in config[service].clients
    ensures WithoutClient(Emptied(config, service, ids), k) == Emptied(config, service, ids + {k})
  {
    assert config[service].clients - ids - {k} == config[service].clients - (ids + {k});
    forall s | s in config && s != service
      ensures config[s].clients - {k} == config[s].clients
    {
      assert k !in config[s].clients;
    }
  }

  lemma NotOwnAlias(config: Config, service: string)
    requires FlatAliases(config)
    ensures !IsAliasOf(config, service, service)
  {
    assert IsAliasOf(config, service, service) ==> GoodBase(config, config[service], service);
  }

  lemma DependentsAreAliases(config: Config, service: string)
    requires FlatAliases(config)
    ensures forall a :: Depends(config, a, service) <==> IsAliasOf(config, a, service)
  {
    forall a
      ensures Depends(config, a, service) <==> IsAliasOf(config, a, service)
    {
      FlatDependents(config, a, service);
    }
  }

  lemma AliasGoesAlone(config: Config, alias: string)
    requires FlatAliases(config) && alias in config && config[alias].aliasof.Some?
    ensures Deleted(config, alias) == config - {alias}
  {
    forall s | s in config
      ensures config[s].aliasof != Some(alias)
    {
      if config[s].aliasof.Some? {
        assert GoodBase(config, config[s], config[s].aliasof.value);
      }
    }
  }

  lemma DeletedInSteps(config: Config, config': Config, service: string, aliases: seq<string>)
    requires service in config && forall a :: a in aliases <==> IsAliasOf(config, a, service)
    requires service !in aliases
    requires config' == (config - (set a | a in aliases))[service := config[service].(clients := map[])]
    ensures config' - {service} == Deleted(config, service)
  {}

  // ----- steps of rename-service ---------------------------------------------------------------------

  lemma HoldingKeeps(config: Config, service: string, ids: set<string>)
    requires Good(config) && service in config
    ensures Good(Holding(config, service, ids))
  {
    var config' := Holding(config, service, ids);
    forall a | a in config' && config'[a].aliasof.Some?
      ensures GoodBase(config', config'[a], config'[a].aliasof.value)
    {
      assert GoodBase(config, config[a], config[a].aliasof.value);
    }
    forall s, t, c | s in config' && t in config' && c in config'[s].clients && c in config'[t].clients
      ensures s == t
    {
      assert c in config[s].clients && c in config[t].clients;
    }
    forall s, c | s in config' && c in config'[s].clients
      ensures GoodClient(config'[s], c)
    {
      assert GoodClient(config[s], c);
    }
  }

  lemma NotYetHeld(full: Config, service: string, entries: seq<Entry>, i: nat)
    requires Good(full) && service in full && Lists(entries, full[service].clients) && i < |entries|
    ensures forall s | s in full :: Lower(entries[i].id) !in Holding(full, service, Ids(entries[..i]))[s].clients
  {
    var k := Lower(entries[i].id);
    assert entries[i] in entries;
    forall s | s in full
      ensures k !in Holding(full, service, Ids(entries[..i]))[s].clients
    {
      if s == service {
        assert k !in Ids(entries[..i]);
      } else {
        assert k in full[service].clients;
      }
    }
  }

  lemma HeldNext(full: Config, service: string, ids: set<string>, k: string)
    requires service in full && k in full[service].clients
    ensures WithClient(Holding(full, service, ids), service, k, full[service].clients[k]) == Holding(full, service, ids + {k})
  {
    var clients := full[service].clients;
    assert (map c | c in clients && c in ids :: clients[c])[k := clients[k]] == map c | c in clients && c in ids + {k} :: clients[c];
  }

  lemma AllHeld(full: Config, service: string, entries: seq<Entry>)
    requires Good(full) && service in full && Lists(entries, full[service].clients)
    ensures Holding(full, service, Ids(entries[..|entries|])) == full
  {
    var clients := full[service].clients;
    assert entries[..|entries|] == entries;
    forall k | k in clients
      ensures k in Ids(entries)
    {
      assert GoodClient(full[service], k);
      UpperLower(k);
      assert Entry(Upper(k), clients[k]) in entries;
    }
    assert (map k | k in clients && k in Ids(entries) :: clients[k]) == clients;
  }

  /** The configuration after the directory has moved, when the aliases still name the old service. */
  function Moved(config: Config, old_: string, new_: string): Config
    requires old_ in config
  {
    (config - {old_})[new_ := config[old_].(clients := map[])]
  }

  lemma MovedIsAcyclic(config: Config, old_: string, new_: string)
    requires FlatAliases(config) && old_ in config && new_ !in config
    ensures Acyclic(Moved(config, old_, new_), Heights(config))
  {
    var moved := Moved(config, old_, new_);
    forall a | a in moved && moved[a].aliasof.Some?
      ensures HeightOf(Heights(config), a) < HeightOf(Heights(config), moved[a].aliasof.value)
    {
      var was := if a == new_ then old_ else a;
      assert GoodBase(config, config[was], config[was].aliasof.value);
    }
  }

  lemma RepointNext(config: Config, aliases: seq<string>, i: nat, base: string)
    requires i < |aliases| && aliases[i] in config
    ensures Repointed(RepointedAll(config, aliases[..i], base), aliases[i], base) == RepointedAll(config, aliases[..i + 1], base)
  {
    assert aliases[..i + 1] == aliases[..i] + [aliases[i]];
  }

  lemma AliasesFollow(config: Config, old_: string, new_: string, aliases: seq<string>)
    requires FlatAliases(config) && old_ in config && new_ !in config
    requires forall a :: a in aliases <==> IsAliasOf(Moved(config, old_, new_), a, old_)
    ensures RepointedAll(Moved(config, old_, new_), aliases, new_) == Holding(Renamed(config, old_, new_), new_, {})
  {
    NotOwnAlias(config, old_);
    var left, right := RepointedAll(Moved(config, old_, new_), aliases, new_), Holding(Renamed(config, old_, new_), new_, {});
    assert left.Keys == right.Keys;
    forall s | s in left
      ensures left[s] == right[s]
    {
    }
  }

  // ----- the commands --------------------------------------------------------------------------------

  datatype Outcome = Done | Refused

  /** The name of a default service that does not name the architecture. */
  predicate WrongDefault(name: string, arch: string) {
    name in DEFAULT_ARCH && ((arch == "sparc" && !Contains(name, "sparc")) || (arch == "i386" && !Contains(name, "i386")))
  }

  class Registry {
    var config: Config

    ghost predicate Valid()
      reads this
    {
      Good(config)
    }

    constructor ()
      ensures Valid() && config == map[]
    {
      config := map[];
    }

    /** The services are searched in the order of the directory, up to the first hit. */
    method FindClient(clientId: string) returns (service: Option<string>)
      ensures service.Some? ==> service.value in config && Lower(clientId) in config[service.value].clients
      ensures service.None? ==> forall s | s in config :: Lower(clientId) !in config[s].clients
    {
      var todo := config.Keys;
      while todo != {}
        invariant todo <= config.Keys
        invariant forall s | s in config && s !in todo :: Lower(clientId) !in config[s].clients
        decreases |todo|
      {
        var svc :| svc in todo;
        todo := todo - {svc};
        if Lower(clientId) in config[svc].clients {
          return Some(svc);
        }
      }
      service := None;
    }

    method RemoveClientFromConfig(service: string, clientId: string)
      requires service in config
      modifies this
      ensures config == old(config)[service := old(config)[service].(clients := old(config)[service].clients - {Lower(clientId)})]
    {
      config := config[service := config[service].(clients := config[service].clients - {Lower(clientId)})];
    }

    method AddClientInfo(service: string, clientId: string, data: Client)
      requires service in config
      modifies this
      ensures config == WithClient(old(config), service, Lower(clientId), data)
    {
      config := WithClient(config, service, Lower(clientId), data);
    }

    /** Although the search stops at the first hit, the client is gone from every service. */
    method RemoveClient(clientId: string)
      requires Valid()
      modifies this
      ensures Valid() && config == WithoutClient(old(config), Lower(clientId))
    {
      var service := FindClient(clientId);
      OnlyHit(config, service, Lower(clientId));
      WithoutClientKeeps(config, Lower(clientId));
      if service.Some? {
        RemoveClientFromConfig(service.value, clientId);
      }
    }

    /** setup_x86_client and setup_sparc_client: the entry of a client that no service has. */
    method CreateNewClient(service: string, mac: string, bootargs: string)
      requires Valid() && service in config
      requires forall s | s in config :: Lower("01" + mac) !in config[s].clients
      modifies this
      ensures Valid()
      ensures config == WithClient(old(config), service, Lower("01" + mac), Client(if old(config)[service].arch == "i386" then bootargs else ""))
    {
      var data := Client(if config[service].arch == "i386" then bootargs else "");
      NewId(mac);
      WithClientKeeps(config, service, Lower("01" + mac), data);
      AddClientInfo(service, "01" + mac, data);
    }

    method IsClient(clientId: string) returns (exists_: bool)
      ensures exists_ <==> exists s :: s in config && Lower(clientId) in config[s].clients
    {
      exists_ := false;
      var todo := config.Keys;
      while todo != {}
        invariant todo <= config.Keys
        invariant exists_ <==> exists s :: s in config && s !in todo && Lower(clientId) in config[s].clients
        decreases |todo|
      {
        var svc :| svc in todo;
        todo := todo - {svc};
        if Lower(clientId) in config[svc].clients {
          exists_ := true;
        }
      }
    }

    method DeleteClient(mac: string) returns (r: Outcome)
      requires Valid()
      modifies this
      ensures Valid()
      ensures r == Done <==> exists s :: s in old(config) && Lower("01" + mac) in old(config)[s].clients
      ensures config == if r == Refused then old(config) else WithoutClient(old(config), Lower("01" + mac))
    {
      var known := IsClient("01" + mac);
      if !known {
        return Refused;
      }
      RemoveClient("01" + mac);
      r := Done;
    }

    /** create-client: whatever service had the client, now this one has it. */
    method CreateClient(service: string, mac: string, bootargs: string) returns (r: Outcome)
      requires Valid()
      modifies this
      ensures Valid()
      ensures r == Refused <==> service !in old(config) || (bootargs != "" && old(config)[service].arch == "sparc")
      ensures r == Refused ==> config == old(config)
      ensures r == Done ==>
                config == WithClient(WithoutClient(old(config), Lower("01" + mac)), service, Lower("01" + mac),
                                     Client(if old(config)[service].arch == "i386" then bootargs else ""))
    {
      if service !in config {
        return Refused;
      }
      if bootargs != "" && config[service].arch == "sparc" {
        return Refused;
      }
      RemoveClient("01" + mac);
      CreateNewClient(service, mac, bootargs);
      r := Done;
    }

    method CreateService(name: string, arch: string) returns (r: Outcome)
      requires Valid()
      modifies this
      ensures Valid()
      ensures r == Refused <==> name in old(config)
      ensures config == if r == Refused then old(config) else old(config)[name := Service(None, arch, map[])]
    {
      if name in config {
        return Refused;
      }
      NewServiceKeeps(config, name, Service(None, arch, map[]));
      config := config[name := Service(None, arch, map[])];
      r := Done;
    }

    /** create-service -t: an alias has the image, and so the architecture, of its base. */
    method CreateAlias(name: string, base: string) returns (r: Outcome)
      requires Valid()
      modifies this
      ensures Valid()
      ensures r == Done <==>
                && name !in old(config) && base in old(config) && old(config)[base].aliasof.None?
                && !WrongDefault(name, old(config)[base].arch)
      ensures r == Refused ==> config == old(config)
      ensures r == Done ==> config == old(config)[name := Service(Some(base), old(config)[base].arch, map[])]
    {
      if name in config || base !in config || config[base].aliasof.Some? {
        return Refused;
      }
      var arch := config[base].arch;
      if WrongDefault(name, arch) {
        return Refused;
      }
      NewServiceKeeps(config, name, Service(Some(base), arch, map[]));
      config := config[name := Service(Some(base), arch, map[])];
      r := Done;
    }

    /** set-service -o aliasof. */
    method SetAliasof(alias: string, base: string) returns (r: Outcome)
      requires Valid()
      modifies this
      ensures Valid()
      ensures r == Done <==>
                && alias in old(config) && old(config)[alias].aliasof.Some? && old(config)[alias].aliasof != Some(base)
                && GoodBase(old(config), old(config)[alias], base)
      ensures config == if r == Refused then old(config) else Repointed(old(config), alias, base)
    {
      if alias !in config || base !in config || alias == base || config[alias].aliasof.None? || config[base].arch != config[alias].arch {
        return Refused;
      }
      FlatIsAcyclic(config);
      ghost var height := Heights(config);
      var direct := GetAliasedServices(config, base, false, height);
      if alias in direct {
        return Refused;
      }
      if config[base].aliasof.Some? {
        return Refused;
      }
      var allAliases := GetAliasedServices(config, alias, true, height);
      if base in allAliases {
        BaseDependsOnNothing(config, base, alias);
        assert false;
      }
      NewBaseKeeps(config, alias, base);
      config := Repointed(config, alias, base);
      r := Done;
    }

    method GetClients(service: string) returns (entries: seq<Entry>)
      requires Valid() && service in config
      ensures Lists(entries, config[service].clients)
    {
      var clients := config[service].clients;
      entries := [];
      var todo := clients.Keys;
      while todo != {}
        invariant todo <= clients.Keys && Lists(entries, clients - todo)
        decreases |todo|
      {
        var k :| k in todo;
        assert GoodClient(config[service], k);
        UpperLower(k);
        ListsOneMore(entries, clients, todo, k);
        todo := todo - {k};
        entries := entries + [Entry(Upper(k), clients[k])];
      }
      assert clients - {} == clients;
    }

    /** Removes the clients of one service, one by one. */
    method RemoveClients(service: string, entries: seq<Entry>)
      requires Valid() && service in config && Lists(entries, config[service].clients)
      modifies this
      ensures Valid() && config == old(config)[service := old(config)[service].(clients := map[])]
    {
      NoIds(config, service, entries);
      for i := 0 to |entries|
        invariant Valid() && config == Emptied(old(config), service, Ids(entries[..i]))
      {
        IdsNext(entries, old(config)[service].clients, i);
        OthersLack(old(config), service, Ids(entries[..i]), Lower(entries[i].id));
        RemoveClient(entries[i].id);
      }
      AllIds(old(config), service, entries);
    }

    /** delete-service: refused when something depends on the service, unless autoRemove is given; then
        the service, its aliases and all their clients go, and nothing else does. */
    method DeleteService(service: string, autoRemove: bool) returns (r: Outcome)
      requires Valid()
      modifies this
      ensures Valid()
      ensures r == Refused <==> service !in old(config) || (!autoRemove && HasDependents(old(config), service))
      ensures config == if r == Refused then old(config) else Deleted(old(config), service)
      decreases if service in config && config[service].aliasof.None? then 1 else 0
    {
      if service !in config {
        return Refused;
      }
      FlatIsAcyclic(config);
      ghost var height := Heights(config);
      DependentsAreAliases(config, service);
      var allAliases := GetAliasedServices(config, service, true, height);
      if !autoRemove {
        var allClients := GetClients(service);
        NoEntries(allClients, config[service].clients);
        if allAliases != [] || allClients != [] {
          assert allAliases != [] ==> allAliases[0] in allAliases;
          return Refused;
        }
      }
      var aliases := GetAliasedServices(config, service, false, height);
      for i := 0 to |aliases|
        invariant Valid() && config == old(config) - (set a | a in aliases[..i])
      {
        var dependent := aliases[i];
        assert dependent in aliases && aliases[..i + 1] == aliases[..i] + [dependent];
        assert dependent !in aliases[..i];
        AliasGoesAlone(config, dependent);
        var _ := DeleteService(dependent, true);
      }
      assert aliases[..|aliases|] == aliases;
      NotOwnAlias(old(config), service);
      var clients := GetClients(service);
      RemoveClients(service, clients);
      DeletedInSteps(old(config), config, service, aliases);
      DeletedKeeps(old(config), service);
      config := config - {service};
      r := Done;
    }

    /** create_new_client for every entry, its leading 01 stripped. */
    method ReAddClients(service: string, entries: seq<Entry>, ghost full: Config)
      requires Good(full) && service in full && Lists(entries, full[service].clients)
      requires config == Holding(full, service, {})
      modifies this
      ensures Valid() && config == full
    {
      HoldingKeeps(full, service, {});
      for i := 0 to |entries|
        invariant Valid() && config == Holding(full, service, Ids(entries[..i]))
      {
        var entry := entries[i];
        ghost var k := Lower(entry.id);
        IdsNext(entries, full[service].clients, i);
        NotYetHeld(full, service, entries, i);
        assert GoodClient(full[service], k) && entry in entries;
        IdFromMac(k);
        CreateNewClient(service, entry.id[2..], entry.data.bootargs);
        HeldNext(full, service, Ids(entries[..i]), k);
      }
      AllHeld(full, service, entries);
    }

    /** rename-service: the clients are taken off, the configuration moves, the aliases follow, and the
        clients are put back: the service keeps all of them, with their boot arguments. */
    method RenameService(svcname: string, newsvcname: string) returns (r: Outcome)
      requires Valid()
      modifies this
      ensures Valid()
      ensures r == Done <==>
                svcname in old(config) && newsvcname !in old(config) && svcname !in DEFAULT_ARCH && newsvcname !in DEFAULT_ARCH
      ensures config == if r == Refused then old(config) else Renamed(old(config), svcname, newsvcname)
    {
      if svcname !in config || newsvcname in config || svcname in DEFAULT_ARCH || newsvcname in DEFAULT_ARCH {
        return Refused;
      }
      ghost var before := config;
      var clients := GetClients(svcname);
      RemoveClients(svcname, clients);
      config := (config - {svcname})[newsvcname := config[svcname]];
      ghost var moved := Moved(before, svcname, newsvcname);
      assert config == moved;
      MovedIsAcyclic(before, svcname, newsvcname);
      var aliases := GetAliasedServices(config, svcname, false, Heights(before));
      for i := 0 to |aliases|
        invariant config == RepointedAll(moved, aliases[..i], newsvcname)
      {
        assert aliases[i] in aliases;
        RepointNext(moved, aliases, i, newsvcname);
        config := Repointed(config, aliases[i], newsvcname);
      }
      assert aliases[..|aliases|] == aliases;
      AliasesFollow(before, svcname, newsvcname, aliases);
      RenamedKeeps(before, svcname, newsvcname);
      ReAddClients(newsvcname, clients, Renamed(before, svcname, newsvcname));
      r := Done;
    }
  }

  // ----- whole runs ----------------------------------------------------------------------------------

  datatype Command =
    | Create(name: string, arch: string)
    | Alias(name: string, base: string)
    | SetBase(name: string, base: string)
    | Delete(name: string, autoRemove: bool)
    | Rename(name: string, newName: string)
    | AddClient(name: string, mac: string, bootargs: string)
    | DropClient(mac: string)

  /** What one command leaves of the configuration; a refused one changes nothing. */
  ghost function After(config: Config, command: Command): Config {
    match command
    case Create(name, arch) => if name in config then config else config[name := Service(None, arch, map[])]
    case Alias(name, base) =>
      if name !in config && base in config && config[base].aliasof.None? && !WrongDefault(name, config[base].arch) then
        config[name := Service(Some(base), config[base].arch, map[])]
      else config
    case SetBase(name, base) =>
      if name in config && config[name].aliasof.Some? && config[name].aliasof != Some(base) && GoodBase(config, config[name], base) then
        Repointed(config, name, base)
      else config
    case Delete(name, autoRemove) =>
      if name in config && (autoRemove || !HasDependents(config, name)) then Deleted(config, name) else config
    case Rename(name, newName) =>
      if name in config && newName !in config && name !in DEFAULT_ARCH && newName !in DEFAULT_ARCH then Renamed(config, name, newName)
      else config
    case AddClient(name, mac, bootargs) =>
      if name in config && (bootargs == "" || config[name].arch != "sparc") then
        WithClient(WithoutClient(config, Lower("01" + mac)), name, Lower("01" + mac),
                   Client(if config[name].arch == "i386" then bootargs else ""))
      else config
    case DropClient(mac) => WithoutClient(config, Lower("01" + mac))
  }

  ghost function AfterAll(commands: seq<Command>): Config {
    if commands == [] then map[] else After(AfterAll(commands[..|commands| - 1]), commands[|commands| - 1])
  }

  lemma NobodyLeaves(config: Config, k: string)
    requires forall s | s in config :: k !in config[s].clients
    ensures WithoutClient(config, k) == config
  {
    forall s | s in config
      ensures config[s].clients - {k} == config[s].clients
    {
    }
  }

  method Perform(registry: Registry, command: Command)
    requires registry.Valid()
    modifies registry
    ensures registry.Valid() && registry.config == After(old(registry.config), command)
  {
    match command
    case Create(name, arch) => var _ := registry.CreateService(name, arch);
    case Alias(name, base) => var _ := registry.CreateAlias(name, base);
    case SetBase(name, base) => var _ := registry.SetAliasof(name, base);
    case Delete(name, autoRemove) => var _ := registry.DeleteService(name, autoRemove);
    case Rename(name, newName) => var _ := registry.RenameService(name, newName);
    case AddClient(name, mac, bootargs) => var _ := registry.CreateClient(name, mac, bootargs);
    case DropClient(mac) =>
      ghost var before := registry.config;
      var r := registry.DeleteClient(mac);
      if r == Refused {
        NobodyLeaves(before, Lower("01" + mac));
      }
  }

  /** The default alias of one of the two architectures is not of a service of the other. */
  predicate FitsDefault(name: string, arch: string) {
    !(name == "default-i386" && arch == "sparc") && !(name == "default-sparc" && arch == "i386")
  }

  ghost predicate DefaultsFit(config: Config) {
    forall a | a in config && config[a].aliasof.Some? :: FitsDefault(a, config[a].arch)
  }

  lemma NotContained(s: string, sub: string, k: nat)
    requires k < |sub| && sub[k] !in s
    ensures !Contains(s, sub)
  {
    forall i | 0 <= i <= |s|
      ensures !OccursAt(s, sub, i)
    {
      OccursChar(s, sub, i, k);
    }
  }

  lemma WrongDefaultExactly(name: string, arch: string)
    ensures WrongDefault(name, arch) <==> !FitsDefault(name, arch)
    ensures name !in DEFAULT_ARCH ==> FitsDefault(name, arch)
  {
    assert DEFAULT_ARCH[0] == "default-i386" && DEFAULT_ARCH[1] == "default-sparc";
    assert OccursAt("default-i386", "i386", 8) && OccursAt("default-sparc", "sparc", 8);
    assert 'p' !in "default-i386" && '8' !in "default-sparc" && "sparc"[1] == 'p' && "i386"[2] == '8';
    NotContained("default-i386", "sparc", 1);
    NotContained("default-sparc", "i386", 2);
    assert "default-i386"[8] != "default-sparc"[8] && "i386"[0] != "sparc"[0];
  }

  lemma DefaultsStayFit(config: Config, command: Command)
    requires Good(config) && DefaultsFit(config)
    ensures DefaultsFit(After(config, command))
  {
    var left := After(config, command);
    forall a | a in left && left[a].aliasof.Some?
      ensures FitsDefault(a, left[a].arch)
    {
      WrongDefaultExactly(a, left[a].arch);
    }
  }

  /** Whatever commands are given: the configuration is what they leave one by one, aliases stay flat,
      each client stays in one service, and the default aliases fit their architectures. */
  method Run(commands: seq<Command>) returns (registry: Registry)
    ensures fresh(registry) && Good(registry.config) && DefaultsFit(registry.config)
    ensures registry.config == AfterAll(commands)
  {
    registry := new Registry();
    for i := 0 to |commands|
      invariant fresh(registry) && registry.Valid() && DefaultsFit(registry.config)
      invariant registry.config == AfterAll(commands[..i])
    {
      assert commands[..i + 1][..i] == commands[..i];
      DefaultsStayFit(registry.config, commands[i]);
      Perform(registry, commands[i]);
    }
    assert commands[..|commands|] == commands;
  }
}
