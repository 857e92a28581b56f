/**
 * The hierarchical parameter store of ParametersTree_LOW.cs: every store has its own
 * key/value properties and an ordered list of parent stores. A lookup searches the store, then
 * its parents depth-first in order, using a per-store `checkState` flag so that every store is
 * entered at most once, and clears the flags again afterwards.
 *
 * The whole graph of stores is one `ParameterDatabase` object: `nodes` maps each store to its
 * properties and parents, and `checked` is the set of stores whose `checkState` flag is set.
 */
module ParameterTree {
  import opened Wrappers
  import opened Strings
  import opened NumberParsing
  import opened ParameterValues

  type NodeId = nat

  /** One store: its own properties and its parents, in declaration order. */
  datatype StoreNode = StoreNode(properties: map<string, string>, parents: seq<NodeId>)

  type Graph = map<NodeId, StoreNode>

  /** Every parent of a store is itself a store of the graph. Cycles and diamonds are allowed. */
  predicate Closed(g: Graph) {
    forall id, p :: id in g && p in g[id].parents ==> p in g
  }

  /** `s` is closed under flagged parents: a flagged store of `s` brings along each of its flagged
      parents. Every store reached from a start through a chain of flagged stores lies in any
      such `s` that holds the start. */
  predicate FlaggedClosed(g: Graph, flagged: set<NodeId>, s: set<NodeId>) {
    forall m, p :: m in s && m in flagged && m in g && p in g[m].parents && p in flagged ==> p in s
  }

  /** What a store's own property yields: the trimmed text, or null when it trims to nothing. */
  function LocalValue(raw: string): Option<string> {
    var t := Trim(raw);
    if |t| == 0 then None else Some(t)
  }

  lemma SubsetCard(a: set<NodeId>, b: set<NodeId>)
    requires a <= b
    ensures |a| <= |b|
    decreases |a|
  {
    if a != {} {
      var x :| x in a;
      SubsetCard(a - {x}, b - {x});
    }
  }

  /** Marking more stores leaves no more stores to mark. */
  lemma RemainingShrinks(u: set<NodeId>, a: set<NodeId>, b: set<NodeId>)
    requires a <= b
    ensures |u - b| <= |u - a|
  {
    SubsetCard(u - b, u - a);
  }

  lemma RemainingShrinksStrictly(u: set<NodeId>, a: set<NodeId>, x: NodeId)
    requires x in u && x !in a
    ensures |u - (a + {x})| < |u - a|
  {
    assert u - (a + {x}) == (u - a) - {x};
  }

  /**
   * `_get` started at store `id` when the stores in `visited` are already checked: the value
   * found, and the checked stores afterwards. The search terminates on every graph because each
   * step either checks one more store or moves along the parent list.
   */
  function Lookup(g: Graph, visited: set<NodeId>, id: NodeId, key: string): (res: (Option<string>, set<NodeId>))
    requires Closed(g) && id in g && visited <= g.Keys
    ensures visited <= res.1 <= g.Keys
    decreases |g.Keys - visited|, 0
  {
    if id in visited then (None, visited)
    else
      var node := g[id];
      if key in node.properties then (LocalValue(node.properties[key]), visited + {id})
      else
        RemainingShrinksStrictly(g.Keys, visited, id);
        LookupParents(g, visited + {id}, node.parents, key)
  }

  /** The loop of `_get` over the parents: the first non-null result, in order. */
  function LookupParents(g: Graph, visited: set<NodeId>, ps: seq<NodeId>, key: string): (res: (Option<string>, set<NodeId>))
    requires Closed(g) && visited <= g.Keys && forall p :: p in ps ==> p in g
    ensures visited <= res.1 <= g.Keys
    decreases |g.Keys - visited|, |ps|
  {
    if ps == [] then (None, visited)
    else
      var r := Lookup(g, visited, ps[0], key);
      if r.0.Some? then r
      else
        RemainingShrinks(g.Keys, visited, r.1);
        LookupParents(g, r.1, ps[1..], key)
  }

  /** The value of `key` as seen from `root` by a lookup that starts with every flag clear. */
  function Resolve(g: Graph, root: NodeId, key: string): Option<string>
    requires Closed(g) && root in g
  {
    Lookup(g, {}, root, key).0
  }

  // ---------------------------------------------------------------------------------------
  // What a lookup finds.

  /** A value found comes from a store newly entered by this lookup whose own property holds it. */
  lemma {:induction false} LookupFindsDefinition(g: Graph, visited: set<NodeId>, id: NodeId, key: string) returns (n: NodeId)
    requires Closed(g) && id in g && visited <= g.Keys
    requires Lookup(g, visited, id, key).0.Some?
    ensures n in Lookup(g, visited, id, key).1 && n !in visited
    ensures key in g[n].properties && LocalValue(g[n].properties[key]) == Lookup(g, visited, id, key).0
    decreases |g.Keys - visited|, 0
  {
    if key in g[id].properties {
      n := id;
    } else {
      RemainingShrinksStrictly(g.Keys, visited, id);
      n := LookupParentsFindsDefinition(g, visited + {id}, g[id].parents, key);
    }
  }

  lemma {:induction false} LookupParentsFindsDefinition(g: Graph, visited: set<NodeId>, ps: seq<NodeId>, key: string) returns (n: NodeId)
    requires Closed(g) && visited <= g.Keys && forall p :: p in ps ==> p in g
    requires LookupParents(g, visited, ps, key).0.Some?
    ensures n in LookupParents(g, visited, ps, key).1 && n !in visited
    ensures key in g[n].properties && LocalValue(g[n].properties[key]) == LookupParents(g, visited, ps, key).0
    decreases |g.Keys - visited|, |ps|
  {
    var r := Lookup(g, visited, ps[0], key);
    if r.0.Some? {
      n := LookupFindsDefinition(g, visited, ps[0], key);
    } else {
      RemainingShrinks(g.Keys, visited, r.1);
      n := LookupParentsFindsDefinition(g, r.1, ps[1..], key);
    }
  }

  /**
   * Every store newly entered in `w` either holds the key with a value that trims to nothing, or
   * lacks it and has all its parents in `w`.
   */
  ghost predicate SearchedWithoutValue(g: Graph, key: string, visited: set<NodeId>, w: set<NodeId>)
    requires w <= g.Keys
  {
    forall n :: n in w && n !in visited ==>
      if key in g[n].properties then LocalValue(g[n].properties[key]) == None
      else forall p :: p in g[n].parents ==> p in w
  }

  lemma SearchedWithoutValueGrows(g: Graph, key: string, v0: set<NodeId>, v1: set<NodeId>, v2: set<NodeId>)
    requires v0 <= v1 <= v2 <= g.Keys
    requires SearchedWithoutValue(g, key, v0, v1) && SearchedWithoutValue(g, key, v1, v2)
    ensures SearchedWithoutValue(g, key, v0, v2)
  {
  }

  /** A lookup that finds nothing has entered its start store and every parent of every
      key-less store it entered, and met no usable value. */
  lemma {:induction false} LookupMisses(g: Graph, visited: set<NodeId>, id: NodeId, key: string)
    requires Closed(g) && id in g && visited <= g.Keys
    requires Lookup(g, visited, id, key).0.None?
    ensures id in Lookup(g, visited, id, key).1
    ensures SearchedWithoutValue(g, key, visited, Lookup(g, visited, id, key).1)
    decreases |g.Keys - visited|, 0
  {
    if id !in visited && key !in g[id].properties {
      RemainingShrinksStrictly(g.Keys, visited, id);
      LookupParentsMisses(g, visited + {id}, g[id].parents, key);
    }
  }

  lemma {:induction false} LookupParentsMisses(g: Graph, visited: set<NodeId>, ps: seq<NodeId>, key: string)
    requires Closed(g) && visited <= g.Keys && forall p :: p in ps ==> p in g
    requires LookupParents(g, visited, ps, key).0.None?
    ensures forall p :: p in ps ==> p in LookupParents(g, visited, ps, key).1
    ensures SearchedWithoutValue(g, key, visited, LookupParents(g, visited, ps, key).1)
    decreases |g.Keys - visited|, |ps|
  {
    if ps != [] {
      var r := Lookup(g, visited, ps[0], key);
      LookupMisses(g, visited, ps[0], key);
      RemainingShrinks(g.Keys, visited, r.1);
      LookupParentsMisses(g, r.1, ps[1..], key);
      var res := LookupParents(g, r.1, ps[1..], key);
      SearchedWithoutValueGrows(g, key, visited, r.1, res.1);
      forall p | p in ps
        ensures p in res.1
      {
        if p != ps[0] {
          assert p in ps[1..];
        }
      }
    }
  }

  /**
   * The stores a lookup checks are all reachable from its start through checked stores: any set
   * `s` that holds the start and is closed under the parents that the lookup checked holds
   * everything the lookup checked. This is what lets `Uncheck` clear every flag.
   */
  lemma {:induction false} LookupCovered(g: Graph, visited: set<NodeId>, id: NodeId, key: string, s: set<NodeId>, t: set<NodeId>)
    requires Closed(g) && id in g && visited <= g.Keys
    requires Lookup(g, visited, id, key).1 <= t
    requires id in t ==> id in s
    requires forall m, p :: m in s && m in g && p in g[m].parents && p in t ==> p in s
    ensures Lookup(g, visited, id, key).1 - visited <= s
    decreases |g.Keys - visited|, 0
  {
    if id !in visited && key !in g[id].properties {
      RemainingShrinksStrictly(g.Keys, visited, id);
      LookupParentsCovered(g, visited + {id}, g[id].parents, key, s, t);
    }
  }

  lemma {:induction false} LookupParentsCovered(g: Graph, visited: set<NodeId>, ps: seq<NodeId>, key: string, s: set<NodeId>, t: set<NodeId>)
    requires Closed(g) && visited <= g.Keys && forall p :: p in ps ==> p in g
    requires LookupParents(g, visited, ps, key).1 <= t
    requires forall p :: p in ps && p in t ==> p in s
    requires forall m, p :: m in s && m in g && p in g[m].parents && p in t ==> p in s
    ensures LookupParents(g, visited, ps, key).1 - visited <= s
    decreases |g.Keys - visited|, |ps|
  {
    if ps != [] {
      var r := Lookup(g, visited, ps[0], key);
      LookupCovered(g, visited, ps[0], key, s, t);
      if r.0.None? {
        RemainingShrinks(g.Keys, visited, r.1);
        LookupParentsCovered(g, r.1, ps[1..], key, s, t);
      }
    }
  }

  /** Every value a lookup yields is trimmed and non-empty. */
  lemma ResolvedValueIsTrimmed(g: Graph, root: NodeId, key: string)
    requires Closed(g) && root in g
    ensures Resolve(g, root, key).Some? ==>
      |Resolve(g, root, key).value| > 0 && Trim(Resolve(g, root, key).value) == Resolve(g, root, key).value
  {
    if Resolve(g, root, key).Some? {
      var n := LookupFindsDefinition(g, {}, root, key);
      TrimIdempotent(g[n].properties[key]);
    }
  }

  /** Store 0 has parents 1 and 2; store 1 points back to 0 and store 2 to 1, so the graph has a
      cycle and a diamond. Keys "x", "y" and "z" are each held by two stores with different
      values, so which value a lookup returns shows the search order. */
  function ExampleGraph(): Graph {
    map[0 := StoreNode(map["x" := "1", "y" := " "], [1, 2]),
        1 := StoreNode(map["z" := "3", "x" := "7"], [0]),
        2 := StoreNode(map["y" := "5", "w" := "4", "z" := "6"], [1])]
  }

  lemma ExampleClosed()
    ensures Closed(ExampleGraph())
  {
  }

  /** A store not yet checked that holds the key answers with its own value, whatever its
      parents hold. */
  lemma LookupLocal(g: Graph, visited: set<NodeId>, id: NodeId, key: string)
    requires Closed(g) && id in g && visited <= g.Keys && id !in visited && key in g[id].properties
    ensures Lookup(g, visited, id, key) == (LocalValue(g[id].properties[key]), visited + {id})
  {
  }

  lemma DigitIsOwnValue(c: char)
    requires '0' <= c <= '9'
    ensures LocalValue([c]) == Some([c])
  {
    TrimPadded([], [c], []);
    assert [] + [c] + [] == [c];
  }

  /** The local value comes first: store 0 answers "1" although its parent store 1 holds "7",
      and store 1 answers "7" although its parent store 0 holds "1". */
  lemma ExampleLocalFirst()
    ensures Closed(ExampleGraph())
    ensures ExampleGraph()[1].properties["x"] == "7"
    ensures Resolve(ExampleGraph(), 0, "x") == Some("1")
    ensures Resolve(ExampleGraph(), 1, "x") == Some("7")
  {
    ExampleClosed();
    var g := ExampleGraph();
    DigitIsOwnValue('1');
    DigitIsOwnValue('7');
    LookupLocal(g, {}, 0, "x");
    LookupLocal(g, {}, 1, "x");
  }

  /** A blank local value hides the value of store 2. */
  lemma ExampleBlankHides()
    ensures Closed(ExampleGraph())
    ensures Resolve(ExampleGraph(), 0, "y") == None
  {
    ExampleClosed();
    var g := ExampleGraph();
    assert Trim(" ") == [] by { TrimPadded(" ", [], []); assert " " + [] + [] == " "; }
    assert "y" in g[0].properties && g[0].properties["y"] == " ";
    assert LocalValue(" ") == None;
    assert {} + {0} == {0};
    assert Lookup(g, {}, 0, "y") == (None, {0});
  }

  /** Parents are searched in order, depth first: store 0 lacks "z", and its first parent,
      store 1, answers "3" before the second parent, store 2, which holds "6", is reached. */
  lemma ExampleFirstParent()
    ensures Closed(ExampleGraph())
    ensures ExampleGraph()[2].properties["z"] == "6"
    ensures Resolve(ExampleGraph(), 0, "z") == Some("3")
    ensures Resolve(ExampleGraph(), 2, "z") == Some("6")
  {
    ExampleClosed();
    var g := ExampleGraph();
    DigitIsOwnValue('3');
    DigitIsOwnValue('6');
    assert "z" !in g[0].properties && g[0].parents == [1, 2];
    LookupLocal(g, {0}, 1, "z");
    assert {0} + {1} == {0, 1};
    assert LookupParents(g, {0}, [1, 2], "z") == (Some("3"), {0, 1});
    assert {} + {0} == {0};
    assert Lookup(g, {}, 0, "z") == LookupParents(g, {0}, [1, 2], "z");
    LookupLocal(g, {}, 2, "z");
  }

  /** Store 1 leads back to store 0, which is already checked and yields nothing. */
  lemma ExampleBackEdge(k: string)
    requires k == "w" || k == "v"
    ensures Closed(ExampleGraph())
    ensures Lookup(ExampleGraph(), {0}, 1, k) == (None, {0, 1})
  {
    ExampleClosed();
    var g := ExampleGraph();
    assert {0} + {1} == {0, 1};
    assert [0][1..] == [];
    assert Lookup(g, {0, 1}, 0, k) == (None, {0, 1});
    assert LookupParents(g, {0, 1}, [0], k) == (None, {0, 1});
  }

  /** After going round the cycle, the search tries store 2. */
  lemma ExampleSecondParent()
    ensures Closed(ExampleGraph())
    ensures Resolve(ExampleGraph(), 0, "w") == Some("4")
  {
    ExampleClosed();
    var g := ExampleGraph();
    ExampleBackEdge("w");
    assert Trim("4") == "4" by { TrimPadded([], "4", []); assert [] + "4" + [] == "4"; }
    assert [1, 2][1..] == [2];
    assert {0, 1} + {2} == {0, 1, 2};
    assert Lookup(g, {0, 1}, 2, "w") == (Some("4"), {0, 1, 2});
    assert LookupParents(g, {0, 1}, [2], "w") == (Some("4"), {0, 1, 2});
    assert LookupParents(g, {0}, [1, 2], "w") == (Some("4"), {0, 1, 2});
    assert {} + {0} == {0};
    assert Lookup(g, {}, 0, "w") == LookupParents(g, {0}, [1, 2], "w");
  }

  /** A key no store holds: every store is checked exactly once and the search ends. */
  lemma ExampleMissing()
    ensures Closed(ExampleGraph())
    ensures Lookup(ExampleGraph(), {}, 0, "v") == (None, {0, 1, 2})
  {
    ExampleClosed();
    var g := ExampleGraph();
    ExampleBackEdge("v");
    assert [1, 2][1..] == [2] && [1][1..] == [];
    assert {0, 1} + {2} == {0, 1, 2};
    assert Lookup(g, {0, 1, 2}, 1, "v") == (None, {0, 1, 2});
    assert LookupParents(g, {0, 1, 2}, [1], "v") == (None, {0, 1, 2});
    assert Lookup(g, {0, 1}, 2, "v") == (None, {0, 1, 2});
    assert LookupParents(g, {0, 1}, [2], "v") == (None, {0, 1, 2});
    assert LookupParents(g, {0}, [1, 2], "v") == (None, {0, 1, 2});
    assert {} + {0} == {0};
    assert Lookup(g, {}, 0, "v") == LookupParents(g, {0}, [1, 2], "v");
  }

  // ---------------------------------------------------------------------------------------
  // Command-line overrides.

  /** ParseCommandLineArg's reading of one line: ignored (None) when it trims to nothing,
      starts with '#' or has no '='; otherwise the text before the first '=' is the key and the
      text after it the value. */
  function CommandLineEntry(line: string): Option<(string, string)> {
    var s := Trim(line);
    if |s| == 0 || s[0] == '#' then None
    else
      var eq := IndexOf(s, '=');
      if eq < 0 then None else Some((s[..eq], s[eq + 1..]))
  }

  /** An accepted line is exactly `key=value` once trimmed, with no '=' in the key. */
  lemma CommandLineEntrySplits(line: string)
    ensures CommandLineEntry(line).Some? <==> |Trim(line)| > 0 && Trim(line)[0] != '#' && '=' in Trim(line)
    ensures CommandLineEntry(line).Some? ==>
      var (k, v) := CommandLineEntry(line).value;
      Trim(line) == k + "=" + v && '=' !in k
  {
    var s := Trim(line);
    if |s| > 0 && s[0] != '#' {
      var eq := IndexOf(s, '=');
      if eq >= 0 {
        SplitAround(s, eq);
      }
    }
  }

  lemma SplitAround(s: string, i: nat)
    requires i < |s| && s[i] == '='
    ensures s == s[..i] + "=" + s[i + 1..]
  {
    assert s[..i + 1] == s[..i] + "=";
    assert s == s[..i + 1] + s[i + 1..];
  }

  /** Printing `key=value` and reading it back gives the same entry, whenever the key does not
      start with '#' or white space and holds no '=', and the value does not end in white space. */
  lemma CommandLineEntryRoundTrip(k: string, v: string)
    requires |k| > 0 && k[0] != '#' && !IsWhiteSpace(k[0]) && '=' !in k
    requires v == [] || !IsWhiteSpace(v[|v| - 1])
    ensures CommandLineEntry(k + "=" + v) == Some((k, v))
  {
    var s := k + "=" + v;
    TrimmedLine(k, v);
    var eq := IndexOf(s, '=');
    assert s[|k|] == '=';
    assert s[..|k|] == k;
    assert eq == |k|;
    assert s[|k| + 1..] == v;
  }

  lemma TrimmedLine(k: string, v: string)
    requires |k| > 0 && !IsWhiteSpace(k[0])
    requires v == [] || !IsWhiteSpace(v[|v| - 1])
    ensures Trim(k + "=" + v) == k + "=" + v
  {
    var s := k + "=" + v;
    assert s[0] == k[0];
    assert !IsWhiteSpace(s[|s| - 1]) by {
      if v == [] {
        assert s[|s| - 1] == '=';
      } else {
        assert s[|s| - 1] == v[|v| - 1];
      }
    }
    TrimPadded([], s, []);
    assert [] + s + [] == s;
  }

  /** The store with `key` set to `value` in store `id`'s own properties. */
  function WithProperty(g: Graph, id: NodeId, key: string, value: string): (g': Graph)
    requires id in g
    ensures g'.Keys == g.Keys && (Closed(g) ==> Closed(g'))
    ensures g'[id].properties == g[id].properties[key := value] && g'[id].parents == g[id].parents
    ensures forall n :: n in g && n != id ==> g'[n] == g[n]
  {
    g[id := g[id].(properties := g[id].properties[key := value])]
  }

  /** A value stored in the root shadows every parent: the next lookup sees it, trimmed. */
  lemma OverrideShadowsParents(g: Graph, root: NodeId, key: string, value: string)
    requires Closed(g) && root in g
    ensures Resolve(WithProperty(g, root, key, value), root, key) == LocalValue(value)
  {
  }

  /** GetStringWithDefault never falls back to the default while the parameter exists (its
      second trim changes nothing), and falls back to the trimmed default exactly when the
      parameter has no value. */
  lemma StringWithDefaultOfResolved(g: Graph, root: NodeId, key: string, defaultValue: Option<string>)
    requires Closed(g) && root in g
    ensures Resolve(g, root, key).Some? ==>
      StringWithDefault(Resolve(g, root, key), defaultValue) == Resolve(g, root, key)
    ensures Resolve(g, root, key).None? ==>
      StringWithDefault(Resolve(g, root, key), defaultValue) ==
        if defaultValue.None? then None else Some(Trim(defaultValue.value))
  {
    ResolvedValueIsTrimmed(g, root, key);
  }

  // ---------------------------------------------------------------------------------------
  // The store object.

  class ParameterDatabase {
    /** Every store of the graph. */
    var nodes: Graph
    /** The store the accessors are called on. */
    const root: NodeId
    /** The stores whose checkState flag is set. */
    var checked: set<NodeId>
    /** The keys of the `accessed` and `gotten` tables. */
    var accessed: set<string>
    var gotten: set<string>

    /** Between calls every flag is clear. */
    ghost predicate Valid()
      reads this
    {
      Closed(nodes) && root in nodes && checked == {}
    }

    constructor (g: Graph, r: NodeId)
      requires Closed(g) && r in g
      ensures Valid() && nodes == g && root == r && accessed == {} && gotten == {}
    {
      nodes := g;
      root := r;
      checked := {};
      accessed := {};
      gotten := {};
    }

    /** `_get`: checks store `id` unless it is already checked, then yields its own value, or the
        first value its parents yield, in order. */
    method Get(id: NodeId, key: string) returns (r: Option<string>)
      requires Closed(nodes) && id in nodes && checked <= nodes.Keys
      modifies this
      ensures nodes == old(nodes) && accessed == old(accessed) && gotten == old(gotten)
      ensures (r, checked) == Lookup(nodes, old(checked), id, key)
      decreases |nodes.Keys - checked|
    {
      if id in checked {
        return None;
      }
      RemainingShrinksStrictly(nodes.Keys, checked, id);
      checked := checked + {id};
      var node := nodes[id];
      if key in node.properties {
        var t := Trim(node.properties[key]);
        r := if |t| == 0 then None else Some(t);
        return;
      }
      var ps := node.parents;
      ghost var start := checked;
      var x := 0;
      while x < |ps|
        invariant 0 <= x <= |ps|
        invariant nodes == old(nodes) && accessed == old(accessed) && gotten == old(gotten)
        invariant start <= checked <= nodes.Keys
        invariant LookupParents(nodes, start, ps, key) == LookupParents(nodes, checked, ps[x..], key)
      {
        RemainingShrinks(nodes.Keys, start, checked);
        r := Get(ps[x], key);
        assert ps[x..][1..] == ps[x + 1..];
        if r.Some? {
          return;
        }
        x := x + 1;
      }
      r := None;
    }

    /** `Uncheck`: clears the flag of store `id` and, recursively, of its parents; it stops at
        stores whose flag is already clear. */
    method Uncheck(id: NodeId)
      requires Closed(nodes) && id in nodes
      modifies this
      ensures nodes == old(nodes) && accessed == old(accessed) && gotten == old(gotten)
      ensures checked <= old(checked) && id !in checked
      ensures forall m, p :: m in old(checked) && m !in checked && m in nodes && p in nodes[m].parents ==> p !in checked
      ensures id !in old(checked) ==> checked == old(checked)
      ensures forall s :: id in s && FlaggedClosed(nodes, old(checked), s) ==> old(checked) - checked <= s
      decreases |checked|
    {
      if id !in checked {
        return;
      }
      checked := checked - {id};
      var ps := nodes[id].parents;
      for x := 0 to |ps|
        invariant nodes == old(nodes) && accessed == old(accessed) && gotten == old(gotten)
        invariant checked <= old(checked) - {id}
        invariant forall m, p :: m in old(checked) && m !in checked && m != id && m in nodes && p in nodes[m].parents ==> p !in checked
        invariant forall p :: p in ps[..x] ==> p !in checked
        invariant forall s :: id in s && FlaggedClosed(nodes, old(checked), s) ==> old(checked) - checked <= s
      {
        SubsetCard(checked, old(checked) - {id});
        ghost var before := checked;
        Uncheck(ps[x]);
        forall s | id in s && FlaggedClosed(nodes, old(checked), s)
          ensures old(checked) - checked <= s
        {
          if ps[x] in before {
            assert ps[x] in s;
            assert FlaggedClosed(nodes, before, s);
          }
        }
      }
      assert ps[..|ps|] == ps;
    }

    /** A lookup from the root followed by `Uncheck` of the root: the value, and every flag clear
        again. */
    method LookupAndUncheck(key: string) returns (r: Option<string>)
      requires Valid()
      modifies this
      ensures Valid() && nodes == old(nodes) && accessed == old(accessed) && gotten == old(gotten)
      ensures r == Resolve(nodes, root, key)
    {
      r := Get(root, key);
      ghost var marked := checked;
      Uncheck(root);
      LookupCovered(nodes, {}, root, key, marked - checked, marked);
    }

    /** `_exists`: whether the parameter has a value; the key is recorded as accessed. */
    method Exists(key: string) returns (b: bool)
      requires Valid()
      modifies this
      ensures Valid() && nodes == old(nodes) && gotten == old(gotten)
      ensures accessed == old(accessed) + {key}
      ensures b <==> Resolve(nodes, root, key).Some?
    {
      var r := LookupAndUncheck(key);
      accessed := accessed + {key};
      b := r.Some?;
    }

    /** `Take`: the parameter's value; the key is recorded as accessed and gotten. */
    method Take(key: string) returns (r: Option<string>)
      requires Valid()
      modifies this
      ensures Valid() && nodes == old(nodes)
      ensures accessed == old(accessed) + {key} && gotten == old(gotten) + {key}
      ensures r == Resolve(nodes, root, key)
    {
      r := LookupAndUncheck(key);
      accessed := accessed + {key};
      gotten := gotten + {key};
    }

    /** The bookkeeping every accessor leaves: the key is accessed, and gotten when present. */
    ghost predicate Recorded(key: string, oldAccessed: set<string>, oldGotten: set<string>)
      requires Closed(nodes) && root in nodes
      reads this
    {
      accessed == oldAccessed + {key} &&
      gotten == if Resolve(nodes, root, key).Some? then oldGotten + {key} else oldGotten
    }

    /** GetBoolean. */
    method GetBoolean(key: string, defaultValue: bool) returns (b: bool)
      requires Valid()
      modifies this
      ensures Valid() && nodes == old(nodes) && Recorded(key, old(accessed), old(gotten))
      ensures b == BooleanSetting(Resolve(nodes, root, key), defaultValue)
    {
      var e := Exists(key);
      if !e {
        return defaultValue;
      }
      var v := Take(key);
      b := ToLower(v.value) != "false";
    }

    /** GetInt(p) (w == Int32) and GetLong(p) (w == Int64). */
    method GetInteger(key: string, w: Width) returns (r: Result<int, ParseFailure>)
      requires Valid()
      modifies this
      ensures Valid() && nodes == old(nodes) && Recorded(key, old(accessed), old(gotten))
      ensures r == Strict(Resolve(nodes, root, key), w)
    {
      var e := Exists(key);
      if !e {
        return Err(FormatError);
      }
      var v := Take(key);
      r := ParseInteger(v.value, w);
      if r == Err(FormatError) {
        // the error message takes the value a second time
        v := Take(key);
      }
    }

    /** GetInt(p, minValue) and GetLong(p, minValue). */
    method GetIntegerAtLeast(key: string, minValue: int, w: Width) returns (r: Result<int, ParseFailure>)
      requires Valid()
      modifies this
      ensures Valid() && nodes == old(nodes) && Recorded(key, old(accessed), old(gotten))
      ensures r == AtLeast(Resolve(nodes, root, key), minValue, w)
    {
      var e := Exists(key);
      if !e {
        return Ok(Sentinel(minValue, w));
      }
      var v := Take(key);
      var p := ParseInteger(v.value, w);
      match p
      case Ok(i) => r := if i < minValue then Ok(Sentinel(minValue, w)) else Ok(i);
      case Err(FormatError) => r := Ok(Sentinel(minValue, w));
      case Err(_) => r := p;
    }

    /** GetIntWithMax and GetLongWithMax. */
    method GetIntegerWithin(key: string, minValue: int, maxValue: int, w: Width) returns (r: Result<int, ParseFailure>)
      requires Valid()
      modifies this
      ensures Valid() && nodes == old(nodes) && Recorded(key, old(accessed), old(gotten))
      ensures r == Within(Resolve(nodes, root, key), minValue, maxValue, w)
    {
      var e := Exists(key);
      if !e {
        return Ok(Sentinel(minValue, w));
      }
      var v := Take(key);
      var p := ParseInteger(v.value, w);
      match p
      case Ok(i) => r := if i < minValue || i > maxValue then Ok(Sentinel(minValue, w)) else Ok(i);
      case Err(FormatError) => r := Ok(Sentinel(minValue, w));
      case Err(_) => r := p;
    }

    /** GetIntWithDefault and GetLongWithDefault. */
    method GetIntegerWithDefault(key: string, defaultValue: int, w: Width) returns (r: Result<int, ParseFailure>)
      requires Valid()
      modifies this
      ensures Valid() && nodes == old(nodes) && Recorded(key, old(accessed), old(gotten))
      ensures r == WithDefault(Resolve(nodes, root, key), defaultValue, w)
    {
      var e := Exists(key);
      if !e {
        return Ok(defaultValue);
      }
      var v := Take(key);
      r := ParseInteger(v.value, w);
      if r == Err(FormatError) {
        r := Ok(defaultValue);
      }
    }

    /** GetString: the value, or null when missing. */
    method GetString(key: string) returns (r: Option<string>)
      requires Valid()
      modifies this
      ensures Valid() && nodes == old(nodes) && Recorded(key, old(accessed), old(gotten))
      ensures r == Resolve(nodes, root, key)
    {
      var e := Exists(key);
      if !e {
        return None;
      }
      r := Take(key);
    }

    /** GetStringWithDefault: the parameter's value when it has one, the trimmed default
        (null stays null) otherwise. */
    method GetStringWithDefault(key: string, defaultValue: Option<string>) returns (r: Option<string>)
      requires Valid()
      modifies this
      ensures Valid() && nodes == old(nodes) && Recorded(key, old(accessed), old(gotten))
      ensures r == StringWithDefault(Resolve(nodes, root, key), defaultValue)
      ensures Resolve(nodes, root, key).Some? ==> r == Resolve(nodes, root, key)
      ensures Resolve(nodes, root, key).None? ==>
        r == if defaultValue.None? then None else Some(Trim(defaultValue.value))
    {
      var e := Exists(key);
      var fallback := match defaultValue case None => None case Some(d) => Some(Trim(d));
      if !e {
        return fallback;
      }
      var v := Take(key);
      var t := Trim(v.value);
      r := if |t| == 0 then fallback else Some(t);
      StringWithDefaultOfResolved(nodes, root, key, defaultValue);
    }

    /** ParseCommandLineArg: stores `key=value` in the root's own properties. */
    method ParseCommandLineArg(line: string) returns (b: bool)
      requires Valid()
      modifies this
      ensures Valid() && accessed == old(accessed) && gotten == old(gotten)
      ensures b <==> CommandLineEntry(line).Some?
      ensures nodes == if b then WithProperty(old(nodes), root, CommandLineEntry(line).value.0, CommandLineEntry(line).value.1)
                       else old(nodes)
    {
      var s := Trim(line);
      if |s| == 0 || s[0] == '#' {
        return false;
      }
      var eq := IndexOf(s, '=');
      if eq < 0 {
        return false;
      }
      nodes := WithProperty(nodes, root, s[..eq], s[eq + 1..]);
      b := true;
    }
  }
}
