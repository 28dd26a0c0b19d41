/** The breadth-first traversal of a module's hierarchy (`Module.hierarchy`). */
module Hierarchy {
  import opened Reachability

  type ModuleId = string

  /** For each module, the modules of its design's components (none without a design). */
  type ModuleGraph = map<ModuleId, seq<ModuleId>>

  ghost predicate Closed(g: ModuleGraph) {
    forall m, c | m in g && c in g[m] :: c in g
  }

  ghost function Steps(g: ModuleGraph): (ModuleId, ModuleId) -> bool {
    (p: ModuleId, m: ModuleId) => p in g && m in g[p]
  }

  /** `m` is at most `n` instantiation levels below `root`. */
  ghost predicate Below(g: ModuleGraph, root: ModuleId, m: ModuleId, n: nat) {
    Within(Steps(g), root, m, n)
  }

  /** `m` is the root, or a component of some module that is reached. */
  ghost predicate Reached(g: ModuleGraph, root: ModuleId, m: ModuleId) {
    Reachable(Steps(g), root, m)
  }

  ghost predicate IsDistance(g: ModuleGraph, root: ModuleId, m: ModuleId, d: nat) {
    Below(g, root, m, d) && forall n: nat | Below(g, root, m, n) :: d <= n
  }

  ghost predicate Distinct(ms: seq<ModuleId>) {
    forall i, j | 0 <= i < j < |ms| :: ms[i] != ms[j]
  }

  ghost predicate NonDecreasing(levels: seq<nat>) {
    forall i, j | 0 <= i < j < |levels| :: levels[i] <= levels[j]
  }

  /** `c` was found no deeper than `bound`. */
  ghost predicate FoundBy(found: seq<ModuleId>, levels: seq<nat>, c: ModuleId, bound: nat)
    requires |found| == |levels|
  {
    exists j | 0 <= j < |found| :: found[j] == c && levels[j] <= bound
  }

  /** All modules found so far, in order, each with its level; the levels span at most one step past `front`. */
  ghost predicate Frontier(g: ModuleGraph, root: ModuleId, found: seq<ModuleId>, levels: seq<nat>, front: nat) {
    && |found| == |levels| && found != [] && found[0] == root && levels[0] == 0
    && Distinct(found) && NonDecreasing(levels)
    && (forall i | 0 <= i < |found| :: found[i] in g && Below(g, root, found[i], levels[i]))
    && (forall i | 0 <= i < |levels| :: levels[i] <= front + 1)
  }

  ghost predicate Expanded(g: ModuleGraph, found: seq<ModuleId>, levels: seq<nat>, count: nat)
    requires |found| == |levels|
  {
    && count <= |found|
    && forall i, c | 0 <= i < count && found[i] in g && c in g[found[i]] :: FoundBy(found, levels, c, levels[i] + 1)
  }

  lemma FoundByMore(found: seq<ModuleId>, levels: seq<nat>, m: ModuleId, d: nat, c: ModuleId, bound: nat)
    requires |found| == |levels| && FoundBy(found, levels, c, bound)
    ensures FoundBy(found + [m], levels + [d], c, bound)
  {
    var j :| 0 <= j < |found| && found[j] == c && levels[j] <= bound;
    assert (found + [m])[j] == c && (levels + [d])[j] <= bound;
  }

  /** Appending a child of the module being expanded keeps the frontier in order. */
  lemma FrontierGrows(g: ModuleGraph, root: ModuleId, found: seq<ModuleId>, levels: seq<nat>, i: nat,
                     c: ModuleId, count: nat)
    requires Closed(g) && i < |found| == |levels| && Frontier(g, root, found, levels, levels[i])
    requires c in g[found[i]] && c !in found && Expanded(g, found, levels, count)
    ensures Frontier(g, root, found + [c], levels + [levels[i] + 1], levels[i])
    ensures Expanded(g, found + [c], levels + [levels[i] + 1], count)
    ensures FoundBy(found + [c], levels + [levels[i] + 1], c, levels[i] + 1)
  {
    var found', levels' := found + [c], levels + [levels[i] + 1];
    OneMoreStep(Steps(g), root, found[i], c, levels[i]);
    assert found'[|found|] == c && levels'[|found|] == levels[i] + 1;
    forall k, x | 0 <= k < count && found'[k] in g && x in g[found'[k]]
      ensures FoundBy(found', levels', x, levels'[k] + 1)
    {
      FoundByMore(found, levels, c, levels[i] + 1, x, levels[k] + 1);
    }
  }

  /** Once everything found is expanded, every module below the root was found, at its distance at most. */
  lemma {:induction false} AllFound(g: ModuleGraph, root: ModuleId, found: seq<ModuleId>, levels: seq<nat>, front: nat,
                                    m: ModuleId, n: nat)
    requires Frontier(g, root, found, levels, front) && Expanded(g, found, levels, |found|)
    requires Below(g, root, m, n)
    ensures FoundBy(found, levels, m, n)
    decreases n
  {
    if m == root {
      assert found[0] == m;
    } else {
      var p := LastStep(Steps(g), root, m, n);
      AllFound(g, root, found, levels, front, p, n - 1);
      var i :| 0 <= i < |found| && found[i] == p && levels[i] <= n - 1;
      assert FoundBy(found, levels, m, levels[i] + 1);
    }
  }

  lemma FoundIff(g: ModuleGraph, root: ModuleId, found: seq<ModuleId>, levels: seq<nat>, front: nat, m: ModuleId)
    requires Frontier(g, root, found, levels, front) && Expanded(g, found, levels, |found|)
    ensures m in found <==> Reached(g, root, m)
  {
    if m in found {
      var i :| 0 <= i < |found| && found[i] == m;
      assert Below(g, root, m, levels[i]);
    }
    if Reached(g, root, m) {
      var n: nat :| Within(Steps(g), root, m, n);
      AllFound(g, root, found, levels, front, m, n);
    }
  }

  lemma LevelIsDistance(g: ModuleGraph, root: ModuleId, found: seq<ModuleId>, levels: seq<nat>, front: nat, i: nat)
    requires Frontier(g, root, found, levels, front) && Expanded(g, found, levels, |found|) && i < |found|
    ensures IsDistance(g, root, found[i], levels[i])
  {
    forall n: nat | Below(g, root, found[i], n)
      ensures levels[i] <= n
    {
      AllFound(g, root, found, levels, front, found[i], n);
    }
  }

  /** The search while module `at` is being expanded. */
  ghost predicate Searching(g: ModuleGraph, root: ModuleId, found: seq<ModuleId>, levels: seq<nat>, at: nat,
                            visited: set<ModuleId>) {
    && |found| == |levels| && at < |found|
    && Frontier(g, root, found, levels, levels[at])
    && Expanded(g, found, levels, at)
    && (forall m :: m in visited <==> m in found)
  }

  /** All of `cs` were found no deeper than `bound`. */
  ghost predicate AllFoundBy(found: seq<ModuleId>, levels: seq<nat>, cs: seq<ModuleId>, bound: nat)
    requires |found| == |levels|
  {
    forall c | c in cs :: FoundBy(found, levels, c, bound)
  }

  /** The search after the components `before` of module `at` were visited. */
  ghost predicate Visiting(g: ModuleGraph, root: ModuleId, found: seq<ModuleId>, levels: seq<nat>, at: nat,
                           visited: set<ModuleId>, before: seq<ModuleId>) {
    Searching(g, root, found, levels, at, visited) && AllFoundBy(found, levels, before, levels[at] + 1)
  }

  lemma NewComponent(g: ModuleGraph, root: ModuleId, found: seq<ModuleId>, levels: seq<nat>, at: nat,
                     visited: set<ModuleId>, before: seq<ModuleId>, c: ModuleId)
    requires Closed(g) && Visiting(g, root, found, levels, at, visited, before)
    requires c in g[found[at]] && c !in visited
    ensures Visiting(g, root, found + [c], levels + [levels[at] + 1], at, visited + {c}, before + [c])
  {
    FrontierGrows(g, root, found, levels, at, c, at);
    forall x | x in before
      ensures FoundBy(found + [c], levels + [levels[at] + 1], x, levels[at] + 1)
    {
      FoundByMore(found, levels, c, levels[at] + 1, x, levels[at] + 1);
    }
  }

  lemma KnownComponent(g: ModuleGraph, root: ModuleId, found: seq<ModuleId>, levels: seq<nat>, at: nat,
                       visited: set<ModuleId>, before: seq<ModuleId>, c: ModuleId)
    requires Visiting(g, root, found, levels, at, visited, before) && c in visited
    ensures Visiting(g, root, found, levels, at, visited, before + [c])
  {
    var j :| 0 <= j < |found| && found[j] == c;
    assert levels[j] <= levels[at] + 1;
  }

  /** Those of `cs` that were not visited, in order of first occurrence. */
  function Unvisited(cs: seq<ModuleId>, visited: set<ModuleId>): (ms: seq<ModuleId>)
    ensures forall m :: m in ms <==> m in cs && m !in visited
  {
    if cs == [] then []
    else
      var front, c := Unvisited(cs[..|cs| - 1], visited), cs[|cs| - 1];
      assert forall m :: m in cs <==> m in cs[..|cs| - 1] || m == c;
      if c in visited || c in front then front else front + [c]
  }

  lemma UnvisitedMore(cs: seq<ModuleId>, visited: set<ModuleId>, k: nat)
    requires k < |cs|
    ensures
      var seen := visited + AsSet(cs[..k]);
      && AsSet(cs[..k + 1]) == AsSet(cs[..k]) + {cs[k]}
      && Unvisited(cs[..k + 1], visited) ==
         Unvisited(cs[..k], visited) + if cs[k] in seen then [] else [cs[k]]
  {
    assert cs[..k + 1] == cs[..k] + [cs[k]];
    assert cs[..k + 1][..k] == cs[..k];
  }

  function AsSet(cs: seq<ModuleId>): set<ModuleId> {
    set m | m in cs
  }

  method VisitComponents(g: ModuleGraph, target: ModuleId, queue: seq<ModuleId>, visited: set<ModuleId>)
    returns (queue': seq<ModuleId>, visited': set<ModuleId>)
    requires target in g
    ensures queue' == queue + Unvisited(g[target], visited)
    ensures visited' == visited + AsSet(g[target])
  {
    queue', visited' := queue, visited;
    var components := g[target];
    for k := 0 to |components|
      invariant queue' == queue + Unvisited(components[..k], visited)
      invariant visited' == visited + AsSet(components[..k])
    {
      UnvisitedMore(components, visited, k);
      if components[k] !in visited' {
        visited' := visited' + {components[k]};
        queue' := queue' + [components[k]];
      }
    }
    assert components[..|components|] == components;
  }

  /** The levels after `n` modules were found one level below module `at`. */
  function Deeper(levels: seq<nat>, at: nat, n: nat): seq<nat>
    requires at < |levels|
  {
    levels + seq(n, _ => levels[at] + 1)
  }

  lemma DeeperMore(levels: seq<nat>, at: nat, n: nat)
    requires at < |levels|
    ensures Deeper(levels, at, n)[at] == levels[at]
    ensures Deeper(levels, at, n + 1) == Deeper(levels, at, n) + [levels[at] + 1]
  {
  }

  /** What visiting one more component makes of the modules found, their levels and the visited set. */
  lemma OneMoreVisited(found: seq<ModuleId>, levels: seq<nat>, at: nat, visited: set<ModuleId>, cs: seq<ModuleId>)
    requires cs != [] && at < |levels|
    ensures
      var before, c, added := cs[..|cs| - 1], cs[|cs| - 1], Unvisited(cs[..|cs| - 1], visited);
      var seen, deeper := visited + AsSet(before), Deeper(levels, at, |added|);
      && before + [c] == cs && visited + AsSet(cs) == seen + {c} && deeper[at] == levels[at]
      && found + Unvisited(cs, visited) == (if c in seen then found + added else found + added + [c])
      && Deeper(levels, at, |Unvisited(cs, visited)|) ==
         (if c in seen then deeper else deeper + [deeper[at] + 1])
  {
    var k, c := |cs| - 1, cs[|cs| - 1];
    UnvisitedMore(cs, visited, k);
    assert cs[..k + 1] == cs && cs[..k] + [c] == cs;
    var added := Unvisited(cs[..k], visited);
    DeeperMore(levels, at, |added|);
    assert found + (added + [c]) == found + added + [c] && added + [] == added;
  }

  /** Visiting components keeps the search in order. */
  lemma {:induction false} VisitKeepsSearching(g: ModuleGraph, root: ModuleId, found: seq<ModuleId>, levels: seq<nat>,
                                               at: nat, visited: set<ModuleId>, cs: seq<ModuleId>)
    requires Closed(g) && Searching(g, root, found, levels, at, visited) && forall c | c in cs :: c in g[found[at]]
    ensures
      var added := Unvisited(cs, visited);
      Visiting(g, root, found + added, Deeper(levels, at, |added|), at, visited + AsSet(cs), cs)
    decreases |cs|
  {
    if cs == [] {
      assert found + [] == found && Deeper(levels, at, 0) == levels && visited + AsSet([]) == visited;
    } else {
      var before, c := cs[..|cs| - 1], cs[|cs| - 1];
      VisitKeepsSearching(g, root, found, levels, at, visited, before);
      OneMoreVisited(found, levels, at, visited, cs);
      var added := Unvisited(before, visited);
      NextVisited(g, root, found + added, Deeper(levels, at, |added|), at, visited + AsSet(before), before, c);
    }
  }

  lemma NextVisited(g: ModuleGraph, root: ModuleId, found: seq<ModuleId>, levels: seq<nat>, at: nat,
                    visited: set<ModuleId>, before: seq<ModuleId>, c: ModuleId)
    requires Closed(g) && Visiting(g, root, found, levels, at, visited, before) && c in g[found[at]]
    ensures if c in visited then Visiting(g, root, found, levels, at, visited + {c}, before + [c])
            else Visiting(g, root, found + [c], levels + [levels[at] + 1], at, visited + {c}, before + [c])
  {
    if c in visited {
      assert visited + {c} == visited;
      KnownComponent(g, root, found, levels, at, visited, before, c);
    } else {
      NewComponent(g, root, found, levels, at, visited, before, c);
    }
  }

  /** Moving on to the next module in the queue: levels never drop behind it. */
  lemma NextTarget(g: ModuleGraph, root: ModuleId, found: seq<ModuleId>, levels: seq<nat>, at: nat)
    requires |found| == |levels| && 0 < at < |found| && Frontier(g, root, found, levels, levels[at - 1])
    ensures Frontier(g, root, found, levels, levels[at])
  {
  }

  /** Between rounds: the first `at` of the modules found are expanded, and the next one is next. */
  ghost predicate Between(g: ModuleGraph, root: ModuleId, found: seq<ModuleId>, at: nat, visited: set<ModuleId>,
                          levels: seq<nat>) {
    && at <= |found| == |levels|
    && Expanded(g, found, levels, at)
    && (at < |found| ==> Searching(g, root, found, levels, at, visited))
    && (at == |found| ==> at > 0 && Frontier(g, root, found, levels, levels[at - 1]))
  }

  lemma ExpandedNext(g: ModuleGraph, found: seq<ModuleId>, levels: seq<nat>, at: nat)
    requires |found| == |levels| && at < |found| && found[at] in g && Expanded(g, found, levels, at)
    requires AllFoundBy(found, levels, g[found[at]], levels[at] + 1)
    ensures Expanded(g, found, levels, at + 1)
  {
  }

  lemma AfterVisit(g: ModuleGraph, root: ModuleId, found: seq<ModuleId>, at: nat, visited: set<ModuleId>,
                   levels: seq<nat>)
    requires at < |found| && found[at] in g && Visiting(g, root, found, levels, at, visited, g[found[at]])
    ensures Between(g, root, found, at + 1, visited, levels)
  {
    ExpandedNext(g, found, levels, at);
    if at + 1 < |found| {
      NextTarget(g, root, found, levels, at + 1);
    }
  }

  /** One round of the traversal: the module that is next is expanded. */
  lemma NextRound(g: ModuleGraph, root: ModuleId, found: seq<ModuleId>, at: nat, visited: set<ModuleId>,
                  levels: seq<nat>)
    requires Closed(g) && at < |found| && Between(g, root, found, at, visited, levels)
    ensures found[at] in g
    ensures
      var added := Unvisited(g[found[at]], visited);
      Between(g, root, found + added, at + 1, visited + AsSet(g[found[at]]), Deeper(levels, at, |added|))
  {
    var cs := g[found[at]];
    var added := Unvisited(cs, visited);
    VisitKeepsSearching(g, root, found, levels, at, visited, cs);
    AfterVisit(g, root, found + added, at, visited + AsSet(cs), Deeper(levels, at, |added|));
  }

  /** One module of the graph less to go. */
  lemma Shrinks(g: ModuleGraph, found: seq<ModuleId>, at: nat)
    requires Distinct(found) && at < |found| && found[at] in g
    ensures (set m | m in g && m !in found[..at + 1]) < (set m | m in g && m !in found[..at])
  {
    var less, more := set m | m in g && m !in found[..at + 1], set m | m in g && m !in found[..at];
    assert found[..at + 1] == found[..at] + [found[at]];
    assert found[at] in more && found[at] !in less;
    assert forall m | m in less :: m in more;
  }

  /** What is reached from the root, each once, the root first. */
  ghost predicate ReachedOnce(g: ModuleGraph, root: ModuleId, hier: seq<ModuleId>) {
    Distinct(hier) && hier != [] && hier[0] == root && forall m :: m in hier <==> Reached(g, root, m)
  }

  /** The distances from the root, which never decrease. */
  ghost predicate ByDistance(g: ModuleGraph, root: ModuleId, hier: seq<ModuleId>, distances: seq<nat>) {
    && |distances| == |hier| && NonDecreasing(distances)
    && (forall i | 0 <= i < |hier| :: IsDistance(g, root, hier[i], distances[i]))
  }

  /** With an empty queue the traversal is done. */
  lemma AllExpanded(g: ModuleGraph, root: ModuleId, hier: seq<ModuleId>, visited: set<ModuleId>, distances: seq<nat>)
    requires Between(g, root, hier, |hier|, visited, distances)
    ensures ReachedOnce(g, root, hier)
    ensures ByDistance(g, root, hier, distances)
  {
    var front := distances[|hier| - 1];
    forall m
      ensures m in hier <==> Reached(g, root, m)
    {
      FoundIff(g, root, hier, distances, front, m);
    }
    forall i | 0 <= i < |hier|
      ensures IsDistance(g, root, hier[i], distances[i])
    {
      LevelIsDistance(g, root, hier, distances, front, i);
    }
  }

  /**
   Exactly the modules below the root (and the root itself), each once, in order of their
   distance from it.
   */
  method Traverse(g: ModuleGraph, root: ModuleId) returns (hier: seq<ModuleId>, ghost distances: seq<nat>)
    requires Closed(g) && root in g
    ensures ReachedOnce(g, root, hier)
    ensures ByDistance(g, root, hier, distances)
  {
    hier, distances := [], [0];
    var visited := {root};
    var queue := [root];
    ghost var found := [root];
    ReachesItself(Steps(g), root);
    assert Below(g, root, root, 0);
    while queue != []
      invariant Between(g, root, found, |hier|, visited, distances)
      invariant hier == found[..|hier|] && queue == found[|hier|..]
      decreases set m | m in g && m !in hier
    {
      var target := queue[0];
      ghost var at, added := |hier|, Unvisited(g[target], visited);
      Shrinks(g, found, at);
      NextRound(g, root, found, at, visited, distances);
      Splits(found, at, added);
      queue, visited := VisitComponents(g, target, queue[1..], visited);
      distances, found := Deeper(distances, at, |added|), found + added;
      hier := hier + [target];
    }
    assert found == hier;
    AllExpanded(g, root, hier, visited, distances);
  }

  lemma Splits(found: seq<ModuleId>, at: nat, added: seq<ModuleId>)
    requires at < |found|
    ensures found[at..][0] == found[at]
    ensures (found + added)[..at + 1] == found[..at] + [found[at]]
    ensures (found + added)[at + 1..] == found[at..][1..] + added
  {
  }
}
