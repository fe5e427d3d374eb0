/**
 The schema keys a plugin accepts with everything its schema composes: `foldComposed` of
 scripts/gen-config-catalog.ts (lines 731-750), which recurses over one shared, growing set.
 */
module ComposedSchemas {
  import opened Prelude

  /** A catalog entry: its own schema keys and the packages whose schemas it intersects. */
  datatype Entry = Entry(keys: seq<string>, composes: seq<string>)

  type Catalog = map<string, Entry>

  /** Nothing composed from inside the set lies outside it. */
  ghost predicate Closed(c: Catalog, s: set<string>) {
    forall n, m :: n in s && n in c && m in c[n].composes && m in c ==> m in s
  }

  /** The packages reached from `root`: the smallest closed set around it. */
  ghost predicate IsReach(c: Catalog, root: string, s: set<string>) {
    root in s && s <= c.Keys && Closed(c, s) && forall t: set<string> :: root in t && Closed(c, t) ==> s <= t
  }

  /** There is only one. */
  lemma ReachIsUnique(c: Catalog, root: string, s: set<string>, t: set<string>)
    requires IsReach(c, root, s) && IsReach(c, root, t)
    ensures s == t
  {
    assert s <= t && t <= s;
  }

  /** The keys of the entries in a list, in its order. */
  function KeysOf(c: Catalog, order: seq<string>): seq<string>
    requires forall n :: n in order ==> n in c
  {
    if order == [] then [] else c[order[0]].keys + KeysOf(c, order[1..])
  }

  lemma {:induction false} KeysOfConcat(c: Catalog, a: seq<string>, b: seq<string>)
    requires forall n :: n in a + b ==> n in c
    ensures (forall n :: n in a ==> n in c) && (forall n :: n in b ==> n in c)
    ensures KeysOf(c, a + b) == KeysOf(c, a) + KeysOf(c, b)
  {
    forall n | n in a ensures n in c { assert n in a + b; }
    forall n | n in b ensures n in c { assert n in a + b; }
    if a == [] {
      assert a + b == b;
    } else {
      var rest := a[1..];
      assert (a + b)[1..] == rest + b;
      KeysOfConcat(c, rest, b);
    }
  }

  /** `m` is composed by a package of the set, but is no package at all. */
  ghost predicate Dangles(c: Catalog, s: set<string>, m: string) {
    m !in c && exists n :: n in s && n in c && m in c[n].composes
  }

  /** All that one call visits is forced: it lies in every closed set around `name`. */
  ghost predicate Forced(c: Catalog, name: string, visited: set<string>) {
    forall t: set<string> :: name in t && Closed(c, t) ==> visited <= t
  }

  /** What the visited packages compose is in `seen`. */
  ghost predicate ClosedInto(c: Catalog, visited: set<string>, seen: set<string>) {
    forall n, m :: n in visited && n in c && m in c[n].composes && m in c ==> m in seen
  }

  /** `order` lists each newly visited package once. */
  ghost predicate Lists(order: seq<string>, visited: set<string>) {
    Distinct(order) && forall n :: n in order <==> n in visited
  }

  class Fold {
    const catalog: Catalog
    var seen: set<string>
    var unknown: seq<string>

    constructor (catalog: Catalog)
      ensures this.catalog == catalog && seen == {} && unknown == []
    {
      this.catalog, seen, unknown := catalog, {}, [];
    }

    method FoldComposed(name: string) returns (keys: seq<string>, ghost order: seq<string>)
      requires name in catalog && seen <= catalog.Keys
      modifies this
      ensures name in seen && seen <= catalog.Keys
      ensures Folded(catalog, name, old(seen), seen, order, keys, old(unknown), unknown)
      decreases |catalog.Keys - seen|, 0
    {
      keys, order := [], [];
      ghost var before, known := seen, unknown;
      if name in seen {
        SeenAlready(catalog, name, seen, unknown);
        return;
      }
      seen := seen + {name};
      var entry := catalog[name];
      keys, order := entry.keys, [name];
      Entered(catalog, name, before, known);
      for k := 0 to |entry.composes|
        invariant seen <= catalog.Keys
        invariant Folding(catalog, name, k, before, seen, order, keys, known, unknown)
      {
        SmallerAfter(catalog.Keys, before, name, seen);
        keys, order := Follow(name, k, keys, before, order, known);
      }
      Left(catalog, name, before, seen, order, keys, known, unknown);
    }

    /** One turn of the loop: fold what `name` composes at `k`, or complain about it. */
    method Follow(name: string, k: nat, collected: seq<string>, ghost before: set<string>, ghost listed: seq<string>, ghost known: seq<string>)
      returns (keys: seq<string>, ghost order: seq<string>)
      requires seen <= catalog.Keys && Folding(catalog, name, k, before, seen, listed, collected, known, unknown)
      requires k < |catalog[name].composes|
      modifies this
      ensures seen <= catalog.Keys && Folding(catalog, name, k + 1, before, seen, order, keys, known, unknown)
      decreases |catalog.Keys - seen|, 1
    {
      keys, order := collected, listed;
      var composed := catalog[name].composes[k];
      if composed !in catalog {
        Complained(catalog, name, k, before, seen, order, keys, known, unknown);
        unknown := unknown + [composed];
      } else {
        ghost var earlier, knownBefore := seen, unknown;
        var more; ghost var visited;
        more, visited := FoldComposed(composed);
        Returned(catalog, name, k, before, earlier, seen, order, visited, keys, more, known, knownBefore, unknown);
        keys, order := keys + more, order + visited;
      }
    }
  }

  /** What a call has done: the packages in `seen` and not in `before` are the ones it visited. */
  ghost predicate Folded(c: Catalog, name: string, before: set<string>, seen: set<string>, order: seq<string>, keys: seq<string>,
                         known: seq<string>, unknown: seq<string>) {
    var visited := seen - before;
    && before <= seen
    && Lists(order, visited) && (forall n :: n in order ==> n in c) && keys == KeysOf(c, order)
    && ClosedInto(c, visited, seen)
    && Forced(c, name, visited)
    && forall m :: m in unknown <==> m in known || Dangles(c, visited, m)
  }

  /** The same in the middle of the loop over what `name` composes: only its first `k` have been followed. */
  ghost predicate Folding(c: Catalog, name: string, k: nat, before: set<string>, seen: set<string>, order: seq<string>, keys: seq<string>,
                          known: seq<string>, unknown: seq<string>) {
    var visited := seen - before;
    && name in c && k <= |c[name].composes| && name !in before && before + {name} <= seen
    && Lists(order, visited) && (forall n :: n in order ==> n in c) && keys == KeysOf(c, order)
    && ClosedInto(c, visited - {name}, seen)
    && (forall i :: 0 <= i < k && c[name].composes[i] in c ==> c[name].composes[i] in seen)
    && Forced(c, name, visited)
    && forall m :: m in unknown <==> m in known || Dangles(c, visited - {name}, m) || Complains(c, name, k, m)
  }

  /** `m` is no package and among the first `k` that `name` composes. */
  ghost predicate Complains(c: Catalog, name: string, k: nat, m: string)
    requires name in c && k <= |c[name].composes|
  {
    m !in c && exists i :: 0 <= i < k && c[name].composes[i] == m
  }

  lemma SeenAlready(c: Catalog, name: string, seen: set<string>, known: seq<string>)
    ensures Folded(c, name, seen, seen, [], [], known, known)
  {
    assert seen - seen == {};
  }

  lemma Entered(c: Catalog, name: string, before: set<string>, known: seq<string>)
    requires name in c && name !in before
    ensures Folding(c, name, 0, before, before + {name}, [name], c[name].keys, known, known)
  {
    assert before + {name} - before == {name};
    assert {name} - {name} == {};
    assert KeysOf(c, [name]) == c[name].keys + KeysOf(c, []);
  }

  lemma Complained(c: Catalog, name: string, k: nat, before: set<string>, seen: set<string>, order: seq<string>, keys: seq<string>,
                   known: seq<string>, unknown: seq<string>)
    requires Folding(c, name, k, before, seen, order, keys, known, unknown)
    requires k < |c[name].composes| && c[name].composes[k] !in c
    ensures Folding(c, name, k + 1, before, seen, order, keys, known, unknown + [c[name].composes[k]])
  {
    forall m ensures Complains(c, name, k + 1, m) <==> Complains(c, name, k, m) || m == c[name].composes[k] {}
  }

  lemma Returned(c: Catalog, name: string, k: nat, before: set<string>, earlier: set<string>, seen: set<string>,
                 order: seq<string>, visited: seq<string>, keys: seq<string>, more: seq<string>,
                 known: seq<string>, knownBefore: seq<string>, unknown: seq<string>)
    requires Folding(c, name, k, before, earlier, order, keys, known, knownBefore)
    requires k < |c[name].composes| && c[name].composes[k] in c && c[name].composes[k] in seen
    requires Folded(c, c[name].composes[k], earlier, seen, visited, more, knownBefore, unknown)
    ensures Folding(c, name, k + 1, before, seen, order + visited, keys + more, known, unknown)
  {
    var mine, theirs := earlier - before, seen - earlier;
    assert seen - before == mine + theirs;
    assert seen - before - {name} == (mine - {name}) + theirs;
    assert Forced(c, name, seen - before) by { ForcedOn(c, name, c[name].composes[k], mine, theirs); }
    assert Lists(order + visited, seen - before) by { ListsOn(order, visited, mine, theirs); }
    assert ClosedInto(c, seen - before - {name}, seen) by { ClosedOn(c, mine - {name}, theirs, earlier, seen); }
    KeysOfConcat(c, order, visited);
    UnknownOn(c, name, k, mine - {name}, theirs, known, knownBefore, unknown);
  }

  lemma ClosedOn(c: Catalog, mine: set<string>, theirs: set<string>, earlier: set<string>, seen: set<string>)
    requires ClosedInto(c, mine, earlier) && ClosedInto(c, theirs, seen) && earlier <= seen
    ensures ClosedInto(c, mine + theirs, seen)
  {}

  lemma UnknownOn(c: Catalog, name: string, k: nat, mine: set<string>, theirs: set<string>,
                  known: seq<string>, knownBefore: seq<string>, unknown: seq<string>)
    requires name in c && k < |c[name].composes| && c[name].composes[k] in c
    requires forall m :: m in knownBefore <==> m in known || Dangles(c, mine, m) || Complains(c, name, k, m)
    requires forall m :: m in unknown <==> m in knownBefore || Dangles(c, theirs, m)
    ensures forall m :: m in unknown <==> m in known || Dangles(c, mine + theirs, m) || Complains(c, name, k + 1, m)
  {
    forall m ensures m in unknown <==> m in known || Dangles(c, mine + theirs, m) || Complains(c, name, k + 1, m) {
      DanglesOn(c, mine, theirs, m);
      assert Complains(c, name, k + 1, m) <==> Complains(c, name, k, m);
    }
  }

  lemma Left(c: Catalog, name: string, before: set<string>, seen: set<string>, order: seq<string>, keys: seq<string>,
             known: seq<string>, unknown: seq<string>)
    requires name in c && Folding(c, name, |c[name].composes|, before, seen, order, keys, known, unknown)
    ensures Folded(c, name, before, seen, order, keys, known, unknown)
  {
    var visited := seen - before;
    assert visited == (visited - {name}) + {name};
    forall m ensures Dangles(c, visited, m) <==> Dangles(c, visited - {name}, m) || Complains(c, name, |c[name].composes|, m) {
      DanglesOn(c, visited - {name}, {name}, m);
    }
  }

  lemma SmallerRest(all: set<string>, seen: set<string>, name: string)
    requires name in all && name !in seen
    ensures |all - (seen + {name})| < |all - seen|
  {
    assert all - seen == (all - (seen + {name})) + {name};
  }

  lemma SmallerAfter(all: set<string>, before: set<string>, name: string, seen: set<string>)
    requires name in all && name !in before && before + {name} <= seen
    ensures |all - seen| < |all - before|
  {
    SmallerRest(all, before, name);
    SubsetSize(all - seen, all - (before + {name}));
  }

  lemma ForcedOn(c: Catalog, name: string, composed: string, visited: set<string>, more: set<string>)
    requires name in c && name in visited && composed in c && composed in c[name].composes
    requires Forced(c, name, visited) && Forced(c, composed, more)
    ensures Forced(c, name, visited + more)
  {}

  lemma ListsOn(a: seq<string>, b: seq<string>, s: set<string>, t: set<string>)
    requires Lists(a, s) && Lists(b, t) && s !! t
    ensures Lists(a + b, s + t)
  {
    forall i, j | 0 <= i < j < |a + b| ensures (a + b)[i] != (a + b)[j] {
      assert i < |a| ==> (a + b)[i] in s;
      assert j >= |a| ==> (a + b)[j] in t;
    }
  }

  lemma DanglesOn(c: Catalog, s: set<string>, t: set<string>, m: string)
    ensures Dangles(c, s + t, m) <==> Dangles(c, s, m) || Dangles(c, t, m)
  {}

  /** `keys` are those of the packages reached from `root`, each package once, and `unknown` the composed names that are no package. */
  ghost predicate IsFold(c: Catalog, root: string, keys: seq<string>, unknown: seq<string>) {
    exists order: seq<string> ::
      && Distinct(order) && IsReach(c, root, (set n | n in order)) && keys == KeysOf(c, order)
      && forall m :: m in unknown <==> Dangles(c, (set n | n in order), m)
  }

  /**
   The fold from one entry: the keys of each reachable package, each package once whatever composes it and
   however the compositions loop, and a complaint for exactly the names that are no package.
   */
  method FoldFrom(catalog: Catalog, root: string) returns (keys: seq<string>, unknown: seq<string>)
    requires root in catalog
    ensures IsFold(catalog, root, keys, unknown)
  {
    var fold := new Fold(catalog);
    ghost var order;
    keys, order := fold.FoldComposed(root);
    unknown := fold.unknown;
    assert fold.seen - {} == fold.seen;
    assert fold.seen == (set n | n in order);
  }
}
