/** `planning.py`: prerequisites of the selected packs, and the order in which packs run. */
module DependencyOrder {
  import opened Results
  import opened TextOrder

  /** What each pack depends on. */
  type Graph = map<string, set<string>>

  datatype ClosureError = UnknownPack(pack: string, dependency: string) | UnavailablePack(pack: string,
                                      dependency: string)

  predicate ClosedUnder(depends: Graph, packs: set<string>) {
    forall p, d {:trigger d in depends[p]} :: p in packs && p in depends && d in depends[p] ==> d in packs
  }

  /** Every dependency of a listed pack is listed too. */
  predicate Complete(graph: Graph) {
    ClosedUnder(graph, graph.Keys)
  }

  // ---------------------------------------------------------------- closure

  /** Every closed superset of the initial selection contains `packs`. */
  ghost predicate Needed(initial: set<string>, depends: Graph, packs: set<string>) {
    forall t :: initial <= t && ClosedUnder(depends, t) ==> packs <= t
  }

  /** The result keeps every pack's own dependencies, and is the least closed superset. */
  ghost predicate LeastClosure(initial: set<string>, depends: Graph, candidates: set<string>, closure: Graph) {
    && initial <= closure.Keys && closure.Keys <= candidates
    && ClosedUnder(depends, closure.Keys) && Needed(initial, depends, closure.Keys)
    && (forall p :: p in closure ==> p in depends && closure[p] == depends[p])
  }

  /** Every closed superset contains a pack that depends on something that is no candidate. */
  ghost predicate Leaves(initial: set<string>, depends: Graph, candidates: set<string>, error: ClosureError) {
    && Needed(initial, depends, {error.pack, error.dependency})
    && error.pack in depends && error.dependency in depends[error.pack] && error.dependency !in candidates
    && (error.UnknownPack? <==> error.dependency !in depends)
  }

  lemma NeededExtends(initial: set<string>, depends: Graph, packs: set<string>, pack: string, dependency: string)
    requires Needed(initial, depends, packs) && pack in packs && pack in depends && dependency in depends[pack]
    ensures Needed(initial, depends, packs + {dependency})
  {
  }

  /** Queue the dependencies of one pack that are not selected yet. */
  method SelectDependencies(pack: string, depends: Graph, candidates: set<string>, selected: set<string>,
                            pending: seq<string>)
    returns (error: Option<ClosureError>, selected': set<string>, pending': seq<string>)
    requires pack in selected && selected <= candidates <= depends.Keys
    requires Distinct(pending) && Elements(pending) <= selected
    ensures pending <= pending' && Distinct(pending')
    ensures Elements(pending') == Elements(pending) + (selected' - selected)
    ensures selected <= selected' <= selected + depends[pack] && selected' <= candidates
    ensures error.None? ==> depends[pack] <= selected'
    ensures error.Some? ==>
              error.value.pack == pack && error.value.dependency in depends[pack] - candidates
              && (error.value.UnknownPack? <==> error.value.dependency !in depends)
  {
    selected', pending' := selected, pending;
    var dependencies := Sorted(depends[pack]);
    for i := 0 to |dependencies|
      invariant pending <= pending' && Distinct(pending')
      invariant Elements(pending') == Elements(pending) + (selected' - selected)
      invariant selected <= selected' <= selected + depends[pack] && selected' <= candidates
      invariant forall k :: 0 <= k < i ==> dependencies[k] in selected'
    {
      var dependency := dependencies[i];
      assert dependency in Elements(dependencies);
      if dependency !in depends { return Some(UnknownPack(pack, dependency)), selected', pending'; }
      if dependency !in candidates { return Some(UnavailablePack(pack, dependency)), selected', pending'; }
      if dependency !in selected' {
        ElementsOfAppend(pending', [dependency]);
        assert dependency !in Elements(pending');
        selected', pending' := selected' + {dependency}, pending' + [dependency];
      }
    }
    error := None;
    forall d | d in depends[pack] ensures d in selected' { assert d in Elements(dependencies); }
  }

  /** The worklist's invariant: what is selected has been visited or is queued, each pack once. */
  ghost predicate Collecting(initial: set<string>, depends: Graph, candidates: set<string>, selected: set<string>,
                             prerequisites: Graph, pending: seq<string>, visits: seq<string>) {
    && initial <= selected && selected <= candidates && Needed(initial, depends, selected)
    && Distinct(pending) && Distinct(visits) && Elements(visits) == prerequisites.Keys
    && selected == prerequisites.Keys + Elements(pending) && prerequisites.Keys !! Elements(pending)
    && (forall p {:trigger prerequisites[p]} :: p in prerequisites ==>
          p in depends && prerequisites[p] == depends[p] && depends[p] <= selected)
  }

  lemma CollectingVisits(initial: set<string>, depends: Graph, candidates: set<string>, selected: set<string>,
                         prerequisites: Graph, pending: seq<string>, visits: seq<string>,
                         selected': set<string>, pending': seq<string>)
    requires Collecting(initial, depends, candidates, selected, prerequisites, pending, visits) && pending != []
    requires pending[0] in depends && Distinct(pending')
    requires selected <= selected' && selected' <= selected + depends[pending[0]] && selected' <= candidates
    requires Elements(pending') == Elements(pending[1..]) + (selected' - selected) && depends[pending[0]] <= selected'
    ensures Collecting(initial, depends, candidates, selected',
                       prerequisites[pending[0] := depends[pending[0]]], pending',
                       visits + [pending[0]])
  {
    var pack := pending[0];
    FirstIsRemoved(pending);
    ElementsOfAppend(visits, [pack]);
    assert pack in selected && pack !in prerequisites;
    assert Distinct(visits + [pack]) by {
      forall i | 0 <= i < |visits| ensures visits[i] != pack { assert visits[i] in Elements(visits); }
    }
    forall t | initial <= t && ClosedUnder(depends, t) ensures selected' <= t { assert selected <= t; }
  }

  lemma CollectedIsLeast(initial: set<string>, depends: Graph, candidates: set<string>, selected: set<string>,
                         prerequisites: Graph, visits: seq<string>)
    requires Collecting(initial, depends, candidates, selected, prerequisites, [], visits)
    ensures LeastClosure(initial, depends, candidates, prerequisites)
  {
    assert prerequisites.Keys == selected;
  }

  lemma CollectingLeaves(initial: set<string>, depends: Graph, candidates: set<string>, selected: set<string>,
                         error: ClosureError)
    requires Needed(initial, depends, selected) && error.pack in selected
    requires error.pack in depends && error.dependency in depends[error.pack] && error.dependency !in candidates
    requires error.UnknownPack? <==> error.dependency !in depends
    ensures Leaves(initial, depends, candidates, error)
  {
    NeededExtends(initial, depends, selected, error.pack, error.dependency);
  }

  lemma FirstIsRemoved(s: seq<string>)
    requires s != [] && Distinct(s)
    ensures Elements(s) == {s[0]} + Elements(s[1..]) && s[0] !in Elements(s[1..]) && Distinct(s[1..])
  {
    assert s == [s[0]] + s[1..];
    ElementsOfAppend([s[0]], s[1..]);
  }

  /** Take one pack off the queue, record its prerequisites and queue the new ones. */
  method Visit(initial: set<string>, depends: Graph, candidates: set<string>, selected: set<string>,
               prerequisites: Graph, pending: seq<string>, ghost visits: seq<string>)
    returns (error: Option<ClosureError>, selected': set<string>, prerequisites': Graph, pending': seq<string>)
    requires candidates <= depends.Keys && pending != []
    requires Collecting(initial, depends, candidates, selected, prerequisites, pending, visits)
    ensures error.Some? ==> Leaves(initial, depends, candidates, error.value)
    ensures error.None? ==>
              Collecting(initial, depends, candidates, selected', prerequisites', pending', visits + [pending[0]])
    ensures prerequisites'.Keys == prerequisites.Keys + {pending[0]} && pending[0] in candidates - prerequisites.Keys
  {
    var pack := pending[0];
    FirstIsRemoved(pending);
    assert pack in selected && pack !in prerequisites;
    prerequisites' := prerequisites[pack := depends[pack]];
    error, selected', pending' := SelectDependencies(pack, depends, candidates, selected, pending[1..]);
    if error.Some? {
      CollectingLeaves(initial, depends, candidates, selected, error.value);
    } else {
      CollectingVisits(initial, depends, candidates, selected, prerequisites, pending, visits, selected', pending');
    }
  }

  /** Add declared prerequisites, visiting each selected pack once. The result is the least closed
      superset of the selection, and fails exactly when that superset leaves the candidates. */
  method DependencyClosure(initial: set<string>, depends: Graph, candidates: set<string>)
    returns (r: Result<Graph, ClosureError>, ghost visits: seq<string>)
    requires initial <= candidates && candidates <= depends.Keys
    ensures r.Ok? ==> LeastClosure(initial, depends, candidates, r.value)
    ensures r.Ok? ==> Distinct(visits) && Elements(visits) == r.value.Keys
    ensures r.Err? ==> Leaves(initial, depends, candidates, r.error)
  {
    var selected, prerequisites: Graph := initial, map[];
    var pending := Sorted(selected);
    AscendingIsDistinct(pending);
    visits := [];
    while pending != []
      invariant Collecting(initial, depends, candidates, selected, prerequisites, pending, visits)
      decreases candidates - prerequisites.Keys
    {
      var error, selected', prerequisites', pending' :=
        Visit(initial, depends, candidates, selected, prerequisites, pending, visits);
      if error.Some? { return Err(error.value), visits; }
      visits := visits + [pending[0]];
      selected, prerequisites, pending := selected', prerequisites', pending';
    }
    CollectedIsLeast(initial, depends, candidates, selected, prerequisites, visits);
    r := Ok(prerequisites);
  }

  /** The closure fails only when no closed superset of the selection stays within the candidates. */
  lemma NoClosureWithinCandidates(initial: set<string>, depends: Graph, candidates: set<string>, error: ClosureError)
    requires Leaves(initial, depends, candidates, error)
    ensures !exists t :: initial <= t && t <= candidates && ClosedUnder(depends, t)
  {
  }

  // ---------------------------------------------------------------- chains, heights and cycles

  /** A dependency chain: each pack is followed by one it depends on. */
  ghost predicate Chain(graph: Graph, chain: seq<string>) {
    && chain != []
    && (forall i :: 0 <= i < |chain| ==> chain[i] in graph)
    && (forall i, j :: 0 <= i < j < |chain| && j == i + 1 ==> chain[j] in graph[chain[i]])
  }

  ghost predicate Cyclic(graph: Graph) {
    exists chain :: Chain(graph, chain) && |chain| >= 2 && chain[0] == chain[|chain| - 1]
  }

  /** `n` is the number of steps of the longest dependency chain that starts at `pack`. */
  ghost predicate LongestChain(graph: Graph, pack: string, n: nat) {
    && (exists chain :: Chain(graph, chain) && chain[0] == pack && |chain| == n + 1)
    && (forall chain :: Chain(graph, chain) && chain[0] == pack ==> |chain| <= n + 1)
  }

  /** Layer numbers as the layered sort assigns them: above every dependency, and directly above one. */
  predicate Layers(graph: Graph, layer: map<string, nat>) {
    && layer.Keys <= graph.Keys
    && (forall p, d {:trigger d in graph[p]} :: p in layer && d in graph[p] ==> d in layer && layer[d] < layer[p])
    && (forall p {:trigger HasLower(graph, layer, p)} :: p in layer && layer[p] > 0 ==> HasLower(graph, layer, p))
  }

  /** Some dependency lies exactly one layer below. */
  predicate HasLower(graph: Graph, layer: map<string, nat>, pack: string) {
    pack in graph && pack in layer && exists d :: d in graph[pack] && d in layer && layer[d] + 1 == layer[pack]
  }

  lemma {:induction false} ChainsDescend(graph: Graph, layer: map<string, nat>, chain: seq<string>)
    requires Layers(graph, layer) && Chain(graph, chain) && chain[0] in layer
    ensures forall i :: 0 <= i < |chain| ==> chain[i] in layer && layer[chain[i]] + i <= layer[chain[0]]
    ensures |chain| <= layer[chain[0]] + 1
    decreases |chain|
  {
    if |chain| > 1 {
      var rest := chain[1..];
      assert chain[1] in graph[chain[0]];
      assert Chain(graph, rest);
      ChainsDescend(graph, layer, rest);
      forall i | 0 <= i < |chain| ensures chain[i] in layer && layer[chain[i]] + i <= layer[chain[0]] {
        if i > 0 { assert chain[i] == rest[i - 1]; }
      }
    }
  }

  lemma {:induction false} ChainOfLayer(graph: Graph, layer: map<string, nat>, pack: string)
    returns (chain: seq<string>)
    requires Layers(graph, layer) && pack in layer
    ensures Chain(graph, chain) && chain[0] == pack && |chain| == layer[pack] + 1
    decreases layer[pack]
  {
    if layer[pack] == 0 {
      chain := [pack];
    } else {
      assert HasLower(graph, layer, pack);
      var d :| d in graph[pack] && d in layer && layer[d] + 1 == layer[pack];
      var rest := ChainOfLayer(graph, layer, d);
      chain := [pack] + rest;
    }
  }

  /** The layer of a pack is the length of its longest dependency chain. */
  lemma LayerIsLongestChain(graph: Graph, layer: map<string, nat>, pack: string)
    requires Layers(graph, layer) && pack in layer
    ensures LongestChain(graph, pack, layer[pack])
  {
    var chain := ChainOfLayer(graph, layer, pack);
    forall other | Chain(graph, other) && other[0] == pack ensures |other| <= layer[pack] + 1 {
      ChainsDescend(graph, layer, other);
    }
  }

  lemma LayeredIsAcyclic(graph: Graph, layer: map<string, nat>)
    requires Layers(graph, layer) && layer.Keys == graph.Keys
    ensures !Cyclic(graph)
  {
    forall chain | Chain(graph, chain) && |chain| >= 2 ensures chain[0] != chain[|chain| - 1] {
      ChainsDescend(graph, layer, chain);
    }
  }

  lemma {:induction false} DistinctBound(path: seq<string>, bound: set<string>)
    requires Distinct(path) && Elements(path) <= bound
    ensures |path| <= |bound|
  {
    if path != [] {
      var last := path[|path| - 1];
      var rest := path[..|path| - 1];
      assert path == rest + [last];
      assert last in Elements(path);
      assert Elements(rest) <= bound - {last};
      DistinctBound(rest, bound - {last});
    }
  }

  /** Every pack here still waits for a pack that is here too. */
  predicate Waiting(graph: Graph, packs: set<string>) {
    forall p {:trigger NeedsAny(graph, p, packs)} :: p in packs ==> NeedsAny(graph, p, packs)
  }

  predicate NeedsAny(graph: Graph, pack: string, packs: set<string>) {
    pack in graph && graph[pack] * packs != {}
  }

  /** A walk among such packs can go on for ever, so it must meet itself. */
  lemma {:induction false} EndlessWalkIsCyclic(graph: Graph, waiting: set<string>, path: seq<string>)
    requires Waiting(graph, waiting)
    requires Chain(graph, path) && Distinct(path) && Elements(path) <= waiting
    ensures Cyclic(graph)
    decreases |waiting| - |path|
  {
    DistinctBound(path, waiting);
    var last := path[|path| - 1];
    assert last in Elements(path);
    assert NeedsAny(graph, last, waiting);
    var d :| d in graph[last] * waiting;
    assert NeedsAny(graph, d, waiting);
    ChainExtends(graph, path, d);
    if d in path {
      LoopIsCyclic(graph, path, d);
    } else {
      ElementsOfAppend(path, [d]);
      DistinctBound(path + [d], waiting);
      EndlessWalkIsCyclic(graph, waiting, path + [d]);
    }
  }

  lemma ChainExtends(graph: Graph, path: seq<string>, d: string)
    requires Chain(graph, path) && d in graph && d in graph[path[|path| - 1]]
    ensures Chain(graph, path + [d])
  {
  }

  lemma LoopIsCyclic(graph: Graph, path: seq<string>, d: string)
    requires Chain(graph, path + [d]) && d in path
    ensures Cyclic(graph)
  {
    var i :| 0 <= i < |path| && path[i] == d;
    var longer := path + [d];
    SuffixIsChain(graph, longer, i);
    assert longer[i..][0] == longer[i..][|longer| - i - 1];
  }

  lemma SuffixIsChain(graph: Graph, chain: seq<string>, i: nat)
    requires Chain(graph, chain) && i < |chain|
    ensures Chain(graph, chain[i..])
  {
    var suffix := chain[i..];
    forall k, l | 0 <= k < l < |suffix| && l == k + 1 ensures suffix[l] in graph[suffix[k]] {
      assert suffix[l] == chain[i + l] && suffix[k] == chain[i + k];
    }
  }

  // ---------------------------------------------------------------- the order

  /** The order the source promises: by longest dependency chain, then by pack id. */
  predicate OrderedByLayer(order: seq<string>, layer: map<string, nat>) {
    && Elements(order) == layer.Keys
    && forall i, j :: 0 <= i < j < |order| ==>
         order[i] in layer && order[j] in layer
         && (layer[order[i]] < layer[order[j]] || (layer[order[i]] == layer[order[j]] && Below(order[i], order[j])))
  }

  /** The state of the layered sort after `round` layers. */
  ghost predicate Sorting(graph: Graph, remaining: Graph, layer: map<string, nat>, round: nat) {
    && remaining.Keys + layer.Keys == graph.Keys && remaining.Keys !! layer.Keys
    && (forall p {:trigger remaining[p]} :: p in remaining ==> remaining[p] == graph[p] - layer.Keys)
    && Layers(graph, layer)
    && (forall p :: p in layer ==> layer[p] < round)
    && (round > 0 ==>
          forall p {:trigger HeldUp(graph, remaining, layer, round, p)} :: p in remaining ==>
            HeldUp(graph, remaining, layer, round, p))
  }

  /** Why a pack was not in the previous layer: something it needs is in that layer or later. */
  ghost predicate HeldUp(graph: Graph, remaining: Graph, layer: map<string, nat>, round: nat, pack: string)
  {
    pack in graph && exists d :: d in graph[pack] && (d in remaining || (d in layer && layer[d] + 1 == round))
  }

  lemma FreeAreLayered(graph: Graph, remaining: Graph, layer: map<string, nat>, round: nat, p: string)
    requires Sorting(graph, remaining, layer, round) && p in remaining && remaining[p] == {}
    ensures graph[p] <= layer.Keys
    ensures round > 0 ==> exists d :: d in graph[p] && d in layer && layer[d] + 1 == round
  {
    assert forall d :: d in graph[p] ==> d in layer.Keys || d in graph[p] - layer.Keys;
    if round > 0 { assert HeldUp(graph, remaining, layer, round, p); }
  }

  /** What taking the free packs off does to the remaining packs and to the layers. */
  ghost predicate Peeled(remaining: Graph, layer: map<string, nat>, round: nat, remaining': Graph, layer': map<string,
                         nat>) {
    && remaining'.Keys <= remaining.Keys
    && (forall p :: p in remaining ==> (p in remaining' <==> remaining[p] != {}))
    && (forall p {:trigger remaining'[p]} :: p in remaining' ==>
          remaining'[p] == remaining[p] - (remaining.Keys - remaining'.Keys))
    && layer'.Keys == layer.Keys + (remaining.Keys - remaining'.Keys)
    && (forall p {:trigger layer'[p]} :: p in layer' ==> layer'[p] == if p in layer then layer[p] else round)
  }

  lemma NextLayerIsAbove(graph: Graph, remaining: Graph, layer: map<string, nat>, round: nat,
                         remaining': Graph, layer': map<string, nat>, p: string, d: string)
    requires Sorting(graph, remaining, layer, round) && Peeled(remaining, layer, round, remaining', layer')
    requires p in layer' && p in graph && d in graph[p]
    ensures d in layer' && layer'[d] < layer'[p]
  {
    if p !in layer { FreeAreLayered(graph, remaining, layer, round, p); }
  }

  lemma NextLayerHasLower(graph: Graph, remaining: Graph, layer: map<string, nat>, round: nat,
                          remaining': Graph, layer': map<string, nat>, p: string)
    requires Sorting(graph, remaining, layer, round) && Peeled(remaining, layer, round, remaining', layer')
    requires p in layer' && layer'[p] > 0
    ensures HasLower(graph, layer', p)
  {
    if p !in layer { FreeAreLayered(graph, remaining, layer, round, p); } else { assert HasLower(graph, layer, p); }
    var d :| d in graph[p] && d in layer && layer[d] + 1 == layer'[p];
    assert layer'[d] == layer[d];
  }

  lemma NextLayerIsLayered(graph: Graph, remaining: Graph, layer: map<string, nat>, round: nat,
                           remaining': Graph, layer': map<string, nat>)
    requires Sorting(graph, remaining, layer, round) && Peeled(remaining, layer, round, remaining', layer')
    ensures Layers(graph, layer')
  {
    assert layer'.Keys <= graph.Keys;
    forall p, d | p in layer' && d in graph[p] ensures d in layer' && layer'[d] < layer'[p] {
      NextLayerIsAbove(graph, remaining, layer, round, remaining', layer', p, d);
    }
    forall p | p in layer' && layer'[p] > 0 ensures HasLower(graph, layer', p) {
      NextLayerHasLower(graph, remaining, layer, round, remaining', layer', p);
    }
  }

  lemma StillHeldUp(graph: Graph, remaining: Graph, layer: map<string, nat>, round: nat,
                    remaining': Graph, layer': map<string, nat>, p: string)
    requires Complete(graph) && Sorting(graph, remaining, layer, round)
    requires Peeled(remaining, layer, round, remaining', layer') && p in remaining'
    ensures remaining'[p] == graph[p] - layer'.Keys && HeldUp(graph, remaining', layer', round + 1, p)
  {
    assert remaining[p] == graph[p] - layer.Keys;
    var d :| d in remaining[p];
    assert d in graph && d in remaining;
    assert d in remaining' || (d in layer' && layer'[d] == round);
  }

  lemma AllStillHeldUp(graph: Graph, remaining: Graph, layer: map<string, nat>, round: nat,
                       remaining': Graph, layer': map<string, nat>)
    requires Complete(graph) && Sorting(graph, remaining, layer, round)
    requires Peeled(remaining, layer, round, remaining', layer')
    ensures forall p {:trigger remaining'[p]} :: p in remaining' ==> remaining'[p] == graph[p] - layer'.Keys
    ensures forall p {:trigger HeldUp(graph, remaining', layer', round + 1, p)} :: p in remaining' ==>
              HeldUp(graph, remaining', layer', round + 1, p)
  {
    forall p | p in remaining'
      ensures remaining'[p] == graph[p] - layer'.Keys && HeldUp(graph, remaining', layer', round + 1, p)
    {
      StillHeldUp(graph, remaining, layer, round, remaining', layer', p);
    }
  }

  lemma PeeledPartition(graph: Graph, remaining: Graph, layer: map<string, nat>, round: nat,
                        remaining': Graph, layer': map<string, nat>)
    requires Sorting(graph, remaining, layer, round) && Peeled(remaining, layer, round, remaining', layer')
    ensures remaining'.Keys + layer'.Keys == graph.Keys && remaining'.Keys !! layer'.Keys
    ensures forall p :: p in layer' ==> layer'[p] < round + 1
  {
  }

  lemma NextLayer(graph: Graph, remaining: Graph, layer: map<string, nat>, round: nat,
                  remaining': Graph, layer': map<string, nat>)
    requires Complete(graph) && Sorting(graph, remaining, layer, round)
    requires Peeled(remaining, layer, round, remaining', layer')
    ensures Sorting(graph, remaining', layer', round + 1)
  {
    NextLayerIsLayered(graph, remaining, layer, round, remaining', layer');
    AllStillHeldUp(graph, remaining, layer, round, remaining', layer');
    PeeledPartition(graph, remaining, layer, round, remaining', layer');
  }

  lemma StuckIsWaiting(graph: Graph, remaining: Graph, layer: map<string, nat>, round: nat, p: string)
    requires Complete(graph) && Sorting(graph, remaining, layer, round)
    requires p in remaining && remaining[p] != {}
    ensures NeedsAny(graph, p, remaining.Keys)
  {
    var d :| d in remaining[p];
    assert d in graph[p] && d in graph && d !in layer;
    assert d in graph[p] * remaining.Keys;
  }

  lemma WaitingIsCyclic(graph: Graph, waiting: set<string>)
    requires Waiting(graph, waiting) && waiting != {}
    ensures Cyclic(graph)
  {
    var start :| start in waiting;
    assert NeedsAny(graph, start, waiting);
    EndlessWalkIsCyclic(graph, waiting, [start]);
  }

  lemma StuckIsCyclic(graph: Graph, remaining: Graph, layer: map<string, nat>, round: nat)
    requires Complete(graph) && Sorting(graph, remaining, layer, round) && remaining.Keys != {}
    requires forall p {:trigger remaining[p]} :: p in remaining ==> remaining[p] != {}
    ensures Cyclic(graph)
  {
    forall p {:trigger NeedsAny(graph, p, remaining.Keys)} | p in remaining.Keys
      ensures NeedsAny(graph, p, remaining.Keys)
    {
      StuckIsWaiting(graph, remaining, layer, round, p);
    }
    WaitingIsCyclic(graph, remaining.Keys);
  }

  lemma LayerIsSorted(graph: Graph, remaining: Graph, order: seq<string>, layer: map<string, nat>, round: nat,
                      free: set<string>, ready: seq<string>, remaining': Graph)
    returns (layer': map<string, nat>)
    requires Complete(graph) && Sorting(graph, remaining, layer, round) && OrderedByLayer(order, layer)
    requires free == (set p | p in remaining && remaining[p] == {}) && free != {}
    requires Ascending(ready) && Elements(ready) == free
    requires remaining' == map p | p in remaining && p !in free :: remaining[p] - free
    ensures Sorting(graph, remaining', layer', round + 1) && OrderedByLayer(order + ready, layer')
    ensures |remaining'| < |remaining|
  {
    layer' := map p | p in layer.Keys + free :: if p in layer then layer[p] else round;
    PeelsFree(remaining, layer, round, free, remaining', layer');
    NextLayer(graph, remaining, layer, round, remaining', layer');
    AppendLayer(order, ready, layer, layer', round);
    Smaller(remaining'.Keys, remaining.Keys);
  }

  lemma PeelsFree(remaining: Graph, layer: map<string, nat>, round: nat, free: set<string>, remaining': Graph,
                  layer': map<string, nat>)
    requires free == set p | p in remaining && remaining[p] == {}
    requires remaining' == map p | p in remaining && p !in free :: remaining[p] - free
    requires layer' == map p | p in layer.Keys + free :: if p in layer then layer[p] else round
    ensures Peeled(remaining, layer, round, remaining', layer')
    ensures remaining'.Keys == remaining.Keys - free
  {
    assert remaining.Keys - remaining'.Keys == free;
  }

  /** Sort one layer off the remaining packs; with no free pack left, there is a cycle. */
  method SortLayer(graph: Graph, remaining: Graph, order: seq<string>, ghost layer: map<string, nat>, ghost round: nat)
    returns (progress: bool, remaining': Graph, order': seq<string>, ghost layer': map<string, nat>)
    requires Complete(graph) && Sorting(graph, remaining, layer, round) && OrderedByLayer(order, layer)
    requires remaining != map[]
    ensures !progress ==> Cyclic(graph)
    ensures progress ==> Sorting(graph, remaining', layer', round + 1)
    ensures progress ==> OrderedByLayer(order', layer')
    ensures progress ==> |remaining'| < |remaining|
  {
    var free := set p | p in remaining && remaining[p] == {};
    var ready := Sorted(free);
    NothingListed(ready);
    progress := ready != [];
    order' := order + ready;
    remaining' := map p | p in remaining && p !in free :: remaining[p] - free;
    if progress {
      layer' := LayerIsSorted(graph, remaining, order, layer, round, free, ready, remaining');
    } else {
      assert remaining.Keys != {} && forall p :: p in remaining ==> p !in free;
      StuckIsCyclic(graph, remaining, layer, round);
      layer' := layer;
    }
  }

  lemma Smaller<T>(a: set<T>, b: set<T>)
    requires a < b
    ensures |a| < |b|
  {
    assert |b - a| == |b| - |a|;
  }

  /** Each pack once, by longest dependency chain and then by name; refused exactly when the graph is cyclic. */
  method ExecutionOrder(graph: Graph) returns (r: Result<seq<string>, set<string>>, ghost layer: map<string, nat>)
    requires Complete(graph)
    ensures r.Err? <==> Cyclic(graph)
    ensures r.Ok? ==> layer.Keys == graph.Keys && OrderedByLayer(r.value, layer) && Distinct(r.value)
    ensures r.Ok? ==> forall p :: p in graph ==> LongestChain(graph, p, layer[p])
  {
    var remaining := graph;
    var order: seq<string> := [];
    layer := map[];
    ghost var round := 0;
    while remaining != map[]
      invariant Sorting(graph, remaining, layer, round) && OrderedByLayer(order, layer)
      decreases |remaining|
    {
      var progress, remaining', order', layer' := SortLayer(graph, remaining, order, layer, round);
      if !progress { return Err(remaining.Keys), layer; }
      remaining, order, layer, round := remaining', order', layer', round + 1;
    }
    LayeredIsAcyclic(graph, layer);
    forall p | p in graph ensures LongestChain(graph, p, layer[p]) { LayerIsLongestChain(graph, layer, p); }
    OrderedIsDistinct(order, layer);
    r := Ok(order);
  }

  lemma AppendLayer(order: seq<string>, ready: seq<string>, layer: map<string, nat>, next: map<string, nat>, round: nat)
    requires OrderedByLayer(order, layer) && Ascending(ready)
    requires forall p :: p in layer ==> layer[p] < round
    requires next.Keys == layer.Keys + Elements(ready)
    requires forall p :: p in next ==> next[p] == if p in Elements(ready) then round else layer[p]
    requires layer.Keys !! Elements(ready)
    ensures OrderedByLayer(order + ready, next)
  {
    ElementsOfAppend(order, ready);
    forall i | 0 <= i < |order + ready|
      ensures i < |order| ==> order[i] in layer && next[order[i]] == layer[order[i]]
      ensures i >= |order| ==> next[(order + ready)[i]] == round
    {
      if i < |order| { assert order[i] in Elements(order); } else { assert ready[i - |order|] in Elements(ready); }
    }
  }

  lemma OrderedIsDistinct(order: seq<string>, layer: map<string, nat>)
    requires OrderedByLayer(order, layer)
    ensures Distinct(order)
  {
    forall i, j | 0 <= i < j < |order| ensures order[i] != order[j] { BelowIsIrreflexive(order[i]); }
  }

  /** Every dependency comes before the packs that need it. */
  predicate Topological(order: seq<string>, graph: Graph) {
    && Distinct(order) && Elements(order) == graph.Keys
    && forall i, j :: 0 <= i < |order| && 0 <= j < |order| && order[j] in graph[order[i]] ==> j < i
  }

  lemma DependencyIsLower(graph: Graph, layer: map<string, nat>, p: string, d: string)
    requires layer.Keys == graph.Keys && p in graph && d in graph && d in graph[p]
    requires LongestChain(graph, p, layer[p]) && LongestChain(graph, d, layer[d])
    ensures layer[d] < layer[p]
  {
    var chain :| Chain(graph, chain) && chain[0] == d && |chain| == layer[d] + 1;
    assert Chain(graph, [p] + chain);
  }

  lemma OrderIsTopological(order: seq<string>, graph: Graph, layer: map<string, nat>)
    requires Complete(graph) && layer.Keys == graph.Keys && OrderedByLayer(order, layer) && Distinct(order)
    requires forall p :: p in graph ==> LongestChain(graph, p, layer[p])
    ensures Topological(order, graph)
  {
    forall i, j | 0 <= i < |order| && 0 <= j < |order| && order[i] in graph && order[j] in graph[order[i]]
      ensures j < i
    {
      assert order[i] in Elements(order) && order[j] in Elements(order);
      DependencyIsLower(graph, layer, order[i], order[j]);
    }
    forall i | 0 <= i < |order| ensures order[i] in graph { assert order[i] in Elements(order); }
  }
}
