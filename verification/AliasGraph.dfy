/** The graph of aliased services (service_config.py): which services get_aliased_services lists. */
module AliasGraph {
  import opened Text

  /** bootargs is empty when the client was created without any. */
  datatype Client = Client(bootargs: string)

  datatype Service = Service(aliasof: Option<string>, arch: string, clients: map<string, Client>)

  type Config = map<string, Service>

  predicate IsAliasOf(config: Config, a: string, b: string) {
    a in config && config[a].aliasof == Some(b)
  }

  /** The chain of base services of a comes to b within n steps. */
  predicate DependsIn(config: Config, a: string, b: string, n: nat)
    decreases n
  {
    n > 0 && a in config && config[a].aliasof.Some?
    && (config[a].aliasof.value == b || DependsIn(config, config[a].aliasof.value, b, n - 1))
  }

  ghost predicate Depends(config: Config, a: string, b: string) {
    exists n: nat :: DependsIn(config, a, b, n)
  }

  function HeightOf(height: map<string, nat>, s: string): nat {
    if s in height then height[s] else 0
  }

  /** No chain of base services comes back: bases stand higher than their aliases. */
  ghost predicate Acyclic(config: Config, height: map<string, nat>) {
    forall a | a in config && config[a].aliasof.Some? :: HeightOf(height, a) < HeightOf(height, config[a].aliasof.value)
  }

  lemma {:induction false} ChainClimbs(config: Config, height: map<string, nat>, a: string, b: string, n: nat)
    requires Acyclic(config, height) && DependsIn(config, a, b, n)
    ensures HeightOf(height, a) < HeightOf(height, b)
    decreases n
  {
    if config[a].aliasof.value != b {
      ChainClimbs(config, height, config[a].aliasof.value, b, n - 1);
    }
  }

  lemma DependsThroughBase(config: Config, a: string, b: string)
    requires a in config && config[a].aliasof.Some?
    ensures Depends(config, a, b) <==> config[a].aliasof.value == b || Depends(config, config[a].aliasof.value, b)
  {
    var base := config[a].aliasof.value;
    if n: nat :| DependsIn(config, a, b, n) {
      if base != b {
        assert DependsIn(config, base, b, n - 1);
      }
    }
    if base == b {
      assert DependsIn(config, a, b, 1);
    } else if n: nat :| DependsIn(config, base, b, n) {
      assert DependsIn(config, a, b, n + 1);
    }
  }

  lemma {:induction false} ChainExtends(config: Config, a: string, b: string, c: string, n: nat)
    requires DependsIn(config, a, b, n) && IsAliasOf(config, b, c)
    ensures Depends(config, a, c)
    decreases n
  {
    var base := config[a].aliasof.value;
    if base == b {
      assert DependsIn(config, b, c, 1);
    } else {
      ChainExtends(config, base, b, c, n - 1);
    }
    DependsThroughBase(config, a, c);
  }

  /** Whatever depends on b depends on b's own aliases or is one of them. */
  lemma {:induction false} LastStep(config: Config, a: string, b: string, n: nat)
    requires DependsIn(config, a, b, n)
    ensures IsAliasOf(config, a, b) || exists c :: IsAliasOf(config, c, b) && Depends(config, a, c)
    decreases n
  {
    var base := config[a].aliasof.value;
    if base != b {
      LastStep(config, base, b, n - 1);
      if IsAliasOf(config, base, b) {
        DependsThroughBase(config, a, base);
      } else {
        var c :| IsAliasOf(config, c, b) && Depends(config, base, c);
        DependsThroughBase(config, a, c);
      }
    }
  }

  /** Two services that one service depends on stand on one chain. */
  lemma {:induction false} OneChain(config: Config, a: string, b: string, c: string, n: nat)
    requires DependsIn(config, a, b, n) && Depends(config, a, c)
    ensures b == c || Depends(config, b, c) || Depends(config, c, b)
    decreases n
  {
    var base := config[a].aliasof.value;
    DependsThroughBase(config, a, c);
    if base == b {
    } else if base == c {
      assert DependsIn(config, c, b, n - 1);
    } else {
      OneChain(config, base, b, c, n - 1);
    }
  }

  lemma NotUnderSibling(config: Config, height: map<string, nat>, base: string, b: string, c: string)
    requires Acyclic(config, height) && IsAliasOf(config, b, base) && IsAliasOf(config, c, base)
    ensures !Depends(config, b, c)
  {
    if n: nat :| DependsIn(config, b, c, n) {
      DependsThroughBase(config, b, c);
      if base == c {
        assert false;
      } else {
        var m: nat :| DependsIn(config, base, c, m);
        ChainClimbs(config, height, base, c, m);
        assert false;
      }
    }
  }

  /** No service depends on two different aliases of one base. */
  lemma SiblingsShareNothing(config: Config, height: map<string, nat>, base: string, b: string, c: string, a: string)
    requires Acyclic(config, height) && IsAliasOf(config, b, base) && IsAliasOf(config, c, base)
    requires Depends(config, a, b) && (a == c || Depends(config, a, c))
    ensures b == c && a != c
  {
    NotUnderSibling(config, height, base, b, c);
    NotUnderSibling(config, height, base, c, b);
    if a != c {
      var n: nat :| DependsIn(config, a, b, n);
      OneChain(config, a, b, c, n);
    }
  }

  ghost predicate Distinct(list: seq<string>) {
    forall i, j | 0 <= i < j < |list| :: list[i] != list[j]
  }

  lemma DistinctConcat(a: seq<string>, b: seq<string>)
    requires Distinct(a) && Distinct(b) && forall x | x in a :: x !in b
    ensures Distinct(a + b)
  {
    var all := a + b;
    forall i, j | 0 <= i < j < |all|
      ensures all[i] != all[j]
    {
      if i < |a| {
        assert all[i] in a;
        if j >= |a| {
          assert all[j] in b;
        }
      }
    }
  }

  lemma DisjointLists(config: Config, height: map<string, nat>, base: string, aliases: seq<string>, i: nat,
                      before: seq<string>, more: seq<string>)
    requires Acyclic(config, height) && i < |aliases| && Distinct(aliases) && Distinct(before) && Distinct(more)
    requires forall a | a in aliases :: IsAliasOf(config, a, base)
    requires forall a :: a in before <==> exists j :: 0 <= j < i && Depends(config, a, aliases[j])
    requires forall a :: a in more <==> Depends(config, a, aliases[i])
    ensures Distinct(before + more)
  {
    forall a | a in before
      ensures a !in more
    {
      var j :| 0 <= j < i && Depends(config, a, aliases[j]);
      if a in more {
        assert aliases[j] in aliases && aliases[i] in aliases;
        SiblingsShareNothing(config, height, base, aliases[j], aliases[i], a);
        assert false;
      }
    }
    DistinctConcat(before, more);
  }

  lemma AllDependents(config: Config, height: map<string, nat>, base: string, aliases: seq<string>, taliases: seq<string>)
    requires Acyclic(config, height) && Distinct(aliases) && Distinct(taliases)
    requires forall a :: a in aliases <==> IsAliasOf(config, a, base)
    requires forall a :: a in taliases <==> exists j :: 0 <= j < |aliases| && Depends(config, a, aliases[j])
    ensures Distinct(aliases + taliases)
    ensures forall a :: a in aliases + taliases <==> Depends(config, a, base)
  {
    forall a | a in aliases
      ensures a !in taliases && Depends(config, a, base)
    {
      DependsThroughBase(config, a, base);
      if a in taliases {
        var j :| 0 <= j < |aliases| && Depends(config, a, aliases[j]);
        assert aliases[j] in aliases;
        NotUnderSibling(config, height, base, a, aliases[j]);
        assert false;
      }
    }
    forall a | a in taliases
      ensures Depends(config, a, base)
    {
      var j :| 0 <= j < |aliases| && Depends(config, a, aliases[j]);
      var n: nat :| DependsIn(config, a, aliases[j], n);
      assert aliases[j] in aliases;
      ChainExtends(config, a, aliases[j], base, n);
    }
    forall a | Depends(config, a, base)
      ensures a in aliases + taliases
    {
      var n: nat :| DependsIn(config, a, base, n);
      LastStep(config, a, base, n);
      if !IsAliasOf(config, a, base) {
        var c :| IsAliasOf(config, c, base) && Depends(config, a, c);
        var j :| 0 <= j < |aliases| && aliases[j] == c;
      }
    }
    DistinctConcat(aliases, taliases);
  }

  /** The services aliased to one service, directly or, when recursing, through other aliases: each
      of them exactly once, in the order the dictionary happens to have. */
  method GetAliasedServices(config: Config, serviceName: string, recurse: bool, ghost height: map<string, nat>)
    returns (aliases: seq<string>)
    requires Acyclic(config, height)
    ensures Distinct(aliases)
    ensures forall a :: a in aliases <==> if recurse then Depends(config, a, serviceName) else IsAliasOf(config, a, serviceName)
    decreases HeightOf(height, serviceName)
  {
    aliases := [];
    var todo := config.Keys;
    while todo != {}
      invariant todo <= config.Keys && Distinct(aliases)
      invariant forall a :: a in aliases <==> a !in todo && IsAliasOf(config, a, serviceName)
      decreases |todo|
    {
      var svc :| svc in todo;
      todo := todo - {svc};
      if config[svc].aliasof == Some(serviceName) {
        aliases := aliases + [svc];
      }
    }
    if recurse {
      var taliases: seq<string> := [];
      for i := 0 to |aliases|
        invariant Distinct(taliases)
        invariant forall a :: a in taliases <==> exists j :: 0 <= j < i && Depends(config, a, aliases[j])
      {
        var alias := aliases[i];
        assert alias in aliases;
        var more := GetAliasedServices(config, alias, recurse, height);
        DisjointLists(config, height, serviceName, aliases, i, taliases, more);
        taliases := taliases + more;
      }
      AllDependents(config, height, serviceName, aliases, taliases);
      aliases := aliases + taliases;
    }
  }
}
