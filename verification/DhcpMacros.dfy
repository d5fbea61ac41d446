/** Expansion of Include keywords in Solaris DHCP macros (installadm-convert.py).  The expansion
    works in place, one macro after another in dictionary order, while later macros still follow
    Include keys that earlier expansions have overwritten. */
module DhcpMacros {
  type Macro = map<string, string>
  type Macros = map<string, Macro>

  const INCLUDE := "Include"
  const NETMASK := "netmask"
  const SUBNET := "subnet"

  /** The macro included by name, when there is one and it exists. */
  predicate HasInclude(macros: Macros, name: string) {
    name in macros && INCLUDE in macros[name] && macros[name][INCLUDE] in macros
  }

  function Included(macros: Macros, name: string): string
    requires HasInclude(macros, name)
  {
    macros[name][INCLUDE]
  }

  /** A rank that falls along every Include edge: the Include graph has no cycle. */
  ghost predicate Ranked(macros: Macros, rank: map<string, nat>) {
    && macros.Keys <= rank.Keys
    && forall m | HasInclude(macros, m) :: rank[Included(macros, m)] < rank[m]
  }

  ghost function IncludeVals(name: string, macros: Macros, rank: map<string, nat>): Macro
    requires name in macros && Ranked(macros, rank)
    decreases rank[name]
  {
    if HasInclude(macros, name) then
      macros[Included(macros, name)] + IncludeVals(Included(macros, name), macros, rank)
    else map[]
  }

  /** _get_include_vals: the included macro, updated by what that one includes in turn. */
  method GetIncludeVals(name: string, macros: Macros, ghost rank: map<string, nat>) returns (expansion: Macro)
    requires name in macros && Ranked(macros, rank)
    ensures expansion == IncludeVals(name, macros, rank)
    decreases rank[name]
  {
    expansion := map[];
    if INCLUDE in macros[name] {
      var includeValue := macros[name][INCLUDE];
      if includeValue in macros {
        assert HasInclude(macros, name);
        expansion := expansion + macros[includeValue];
        var nested := GetIncludeVals(includeValue, macros, rank);
        expansion := expansion + nested;
      }
    }
  }

  // ----- the reference: every macro with its whole original chain merged in ----------

  /** Right-biased merge of a macro with the chain of macros it includes. */
  ghost function Chain(name: string, macros: Macros, rank: map<string, nat>): Macro
    requires name in macros && Ranked(macros, rank)
    decreases rank[name]
  {
    if HasInclude(macros, name) then macros[name] + Chain(Included(macros, name), macros, rank) else macros[name]
  }

  /** A macro whose chain sets a netmask describes the subnet it is named after. */
  ghost function Expanded(name: string, macros: Macros, rank: map<string, nat>): Macro
    requires name in macros && Ranked(macros, rank)
  {
    var all := Chain(name, macros, rank);
    if NETMASK in all then all[SUBNET := name] else all
  }

  // ----- a table in the middle of the expansion ----------------------------------------

  ghost predicate Partly(now: Macros, original: Macros, done: set<string>, rank: map<string, nat>)
    requires Ranked(original, rank)
  {
    && now.Keys == original.Keys
    && forall m | m in original :: now[m] == if m in done then Expanded(m, original, rank) else original[m]
  }

  /** The end of a chain: its keys are in the merged chain as they are, and when the merged chain
      still includes an existing macro it is the end itself. */
  lemma {:induction false} ChainEnd(name: string, macros: Macros, rank: map<string, nat>) returns (end: string)
    requires name in macros && Ranked(macros, rank)
    ensures end in macros && !HasInclude(macros, end)
    ensures rank[end] < rank[name] || end == name
    ensures var all := Chain(name, macros, rank);
            && (forall k | k in macros[end] :: k in all && all[k] == macros[end][k])
            && (INCLUDE in all && all[INCLUDE] in macros ==> all[INCLUDE] == end && rank[end] < rank[name])
            && (INCLUDE !in macros[end] && end != name ==> INCLUDE in all && all[INCLUDE] == end)
            && (INCLUDE !in macros[end] && end == name ==> INCLUDE !in all)
    decreases rank[name]
  {
    if HasInclude(macros, name) {
      end := ChainEnd(Included(macros, name), macros, rank);
    } else {
      end := name;
    }
  }

  lemma ExpandedInclude(name: string, macros: Macros, rank: map<string, nat>)
    requires name in macros && Ranked(macros, rank)
    ensures var all, e := Chain(name, macros, rank), Expanded(name, macros, rank);
            && (INCLUDE in e <==> INCLUDE in all) && (INCLUDE in all ==> e[INCLUDE] == all[INCLUDE])
            && (NETMASK in e <==> NETMASK in all)
            && e - {SUBNET} == all - {SUBNET}
  {
    assert INCLUDE[0] != SUBNET[0] && NETMASK[0] != SUBNET[0];
  }

  /** Overwritten Include keys only jump ahead along the chain, so the graph stays acyclic. */
  lemma PartlyRanked(now: Macros, original: Macros, done: set<string>, rank: map<string, nat>)
    requires Ranked(original, rank) && Partly(now, original, done, rank)
    ensures Ranked(now, rank)
  {
    forall m | HasInclude(now, m)
      ensures rank[Included(now, m)] < rank[m]
    {
      if m in done {
        ExpandedInclude(m, original, rank);
        var end := ChainEnd(m, original, rank);
      } else {
        assert HasInclude(original, m);
      }
    }
  }

  /** Equal but for "subnet", and equal altogether when no netmask is set. */
  ghost predicate Agree(a: Macro, b: Macro) {
    a - {SUBNET} == b - {SUBNET} && (NETMASK !in b ==> a == b)
  }

  lemma AgreeMerge(m: Macro, a: Macro, b: Macro)
    requires Agree(a, b)
    ensures Agree(m + a, m + b)
  {
    assert (m + a) - {SUBNET} == (m - {SUBNET}) + (a - {SUBNET});
    assert (m + b) - {SUBNET} == (m - {SUBNET}) + (b - {SUBNET});
  }

  /** Absorption: merging the end of a chain into the merged chain again changes nothing. */
  lemma AgreeAbsorb(e: Macro, all: Macro, merged: Macro, end: Macro)
    requires Agree(e, all) && Agree(merged, end)
    requires forall k | k in end :: k in all && all[k] == end[k]
    ensures Agree(e + merged, all)
  {
    assert all + end == all;
    assert (e + merged) - {SUBNET} == (e - {SUBNET}) + (merged - {SUBNET});
    assert (all + end) - {SUBNET} == (all - {SUBNET}) + (end - {SUBNET});
  }

  /** However far the expansion has come, a macro merged with its current includes is its
      original chain -- but for "subnet" names that the macro's own name is about to replace. */
  lemma {:induction false} MixedChain(name: string, now: Macros, original: Macros, done: set<string>, rank: map<string, nat>)
    requires Ranked(original, rank) && Partly(now, original, done, rank) && Ranked(now, rank) && name in original
    ensures Agree(now[name] + IncludeVals(name, now, rank), Chain(name, original, rank))
    decreases rank[name]
  {
    var all := Chain(name, original, rank);
    if name !in done {
      if HasInclude(original, name) {
        var next := Included(original, name);
        assert HasInclude(now, name) && Included(now, name) == next;
        MixedChain(next, now, original, done, rank);
        AgreeMerge(original[name], now[next] + IncludeVals(next, now, rank), Chain(next, original, rank));
      } else {
        assert !HasInclude(now, name);
        assert now[name] + map[] == now[name];
      }
    } else {
      ExpandedInclude(name, original, rank);
      if HasInclude(now, name) {
        var end := ChainEnd(name, original, rank);
        assert Included(now, name) == end;
        MixedChain(end, now, original, done, rank);
        AgreeAbsorb(now[name], all, now[end] + IncludeVals(end, now, rank), original[end]);
      } else {
        assert now[name] + map[] == now[name];
      }
    }
  }

  lemma FinishOne(name: string, merged: Macro, original: Macros, rank: map<string, nat>)
    requires name in original && Ranked(original, rank) && Agree(merged, Chain(name, original, rank))
    ensures (if NETMASK in merged then merged[SUBNET := name] else merged) == Expanded(name, original, rank)
  {
    var all := Chain(name, original, rank);
    assert NETMASK[0] != SUBNET[0];
    assert NETMASK in merged <==> NETMASK in merged - {SUBNET};
    assert NETMASK in all <==> NETMASK in all - {SUBNET};
    forall k | k != SUBNET
      ensures k in merged <==> k in all
      ensures k in merged ==> merged[k] == all[k]
    {
      assert k in merged <==> k in merged - {SUBNET};
      assert k in all <==> k in all - {SUBNET};
      if k in merged {
        assert merged[k] == (merged - {SUBNET})[k] == (all - {SUBNET})[k] == all[k];
      }
    }
  }

  /** Whatever order the dictionary yields its names in, every macro ends as its whole original
      chain, with "subnet" set to its own name exactly when the chain has a netmask. */
  method ExpandMacros(original: Macros, order: seq<string>, ghost rank: map<string, nat>) returns (macros: Macros)
    requires Ranked(original, rank)
    requires forall m :: m in order <==> m in original
    requires forall i, j | 0 <= i < j < |order| :: order[i] != order[j]
    ensures macros == map m | m in original :: Expanded(m, original, rank)
  {
    macros := original;
    ghost var done: set<string> := {};
    for i := 0 to |order|
      invariant done == set k | 0 <= k < i :: order[k]
      invariant Partly(macros, original, done, rank)
    {
      var mname := order[i];
      assert mname in order;
      PartlyRanked(macros, original, done, rank);
      MixedChain(mname, macros, original, done, rank);
      var vals := GetIncludeVals(mname, macros, rank);
      var merged := macros[mname] + vals;
      FinishOne(mname, merged, original, rank);
      macros := macros[mname := merged];
      if NETMASK in macros[mname] {
        macros := macros[mname := macros[mname][SUBNET := mname]];
      }
      done := done + {mname};
    }
    forall m | m in original
      ensures m in done
    {
      assert m in order;
    }
  }

  /** The names along the Include chain of the first one, which ends where nothing is included. */
  ghost predicate IsPath(path: seq<string>, macros: Macros) {
    && path != [] && (forall i | 0 <= i < |path| :: path[i] in macros)
    && (forall i | 0 <= i < |path| - 1 :: HasInclude(macros, path[i]) && Included(macros, path[i]) == path[i + 1])
    && !HasInclude(macros, path[|path| - 1])
  }

  lemma {:induction false} NoHolder(path: seq<string>, macros: Macros, rank: map<string, nat>, k: string)
    requires Ranked(macros, rank) && IsPath(path, macros)
    requires forall i | 0 <= i < |path| :: k !in macros[path[i]]
    ensures k !in Chain(path[0], macros, rank)
  {
    if |path| > 1 {
      NoHolder(path[1..], macros, rank, k);
    }
  }

  /** Along the chain the last macro that has a keyword decides its value. */
  lemma {:induction false} LastHolderDecides(path: seq<string>, macros: Macros, rank: map<string, nat>, k: string, j: nat)
    requires Ranked(macros, rank) && IsPath(path, macros) && j < |path|
    requires k in macros[path[j]] && forall i | j < i < |path| :: k !in macros[path[i]]
    ensures k in Chain(path[0], macros, rank) && Chain(path[0], macros, rank)[k] == macros[path[j]][k]
  {
    if |path| > 1 {
      if j > 0 {
        LastHolderDecides(path[1..], macros, rank, k, j - 1);
      } else {
        NoHolder(path[1..], macros, rank, k);
      }
    }
  }

  /** The expansion does not depend on the witness of acyclicity. */
  lemma {:induction false} ChainIsUnique(name: string, macros: Macros, rank: map<string, nat>, rank': map<string, nat>)
    requires name in macros && Ranked(macros, rank) && Ranked(macros, rank')
    ensures Chain(name, macros, rank) == Chain(name, macros, rank')
    decreases rank[name]
  {
    if HasInclude(macros, name) {
      ChainIsUnique(Included(macros, name), macros, rank, rank');
    }
  }
}
