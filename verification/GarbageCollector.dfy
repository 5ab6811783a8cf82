/** The mark-and-sweep collector: resources mark what they refer to, the collector sweeps its
    list, and a counter decides when a cycle is worth it. */
module GarbageCollector {
  import opened Bytes

  /** The references of all resources at one time. */
  type Graph = map<GcResource, seq<GcResource>>

  ghost predicate Closed(g: Graph) {
    forall r <- g :: forall c <- g[r] :: c in g
  }

  /** `p` is a chain of references from the first resource to the last. */
  ghost predicate IsPath(g: Graph, older p: seq<GcResource>) {
    |p| > 0 && (forall i :: 0 <= i < |p| ==> p[i] in g) && forall i :: 0 <= i < |p| - 1 ==> p[i + 1] in g[p[i]]
  }

  /** `r` can be reached from one of the resources `from`. */
  ghost predicate Reachable(g: Graph, from: seq<GcResource>, r: GcResource) {
    exists p :: IsPath(g, p) && p[0] in from && p[|p| - 1] == r
  }

  class GcResource {
    var reachable: bool
    /** What `markReachableResources` of the resource's class calls `setReachable` on. */
    var refs: seq<GcResource>

    constructor (refs: seq<GcResource>)
      ensures !reachable && this.refs == refs
    {
      reachable := false;
      this.refs := refs;
    }

    /** Marks this resource and, if it was not marked before, all that it refers to. Everything
        newly marked is reachable from here, and leads to marked resources only. */
    method SetReachable(ghost g: Graph)
      requires this in g && Closed(g) && Snapshot(g)
      modifies g.Keys`reachable
      ensures reachable
      ensures forall r <- g :: old(r.reachable) ==> r.reachable
      ensures forall r <- g :: r.reachable && !old(r.reachable) ==> Reachable(g, [this], r)
      ensures forall r <- g :: r.reachable && !old(r.reachable) ==> forall c <- g[r] :: c.reachable
      decreases Unmarked(g), 1
    {
      if reachable {
        return;
      }
      reachable := true;
      OnItself(g, this);
      assert this in old(Unmarked(g)) && this !in Unmarked(g);
      assert Unmarked(g) < old(Unmarked(g));
      MarkReachableResources(g);
    }

    method MarkReachableResources(ghost g: Graph)
      requires this in g && Closed(g) && Snapshot(g) && reachable
      modifies g.Keys`reachable
      ensures forall r <- g :: old(r.reachable) ==> r.reachable
      ensures forall c <- g[this] :: c.reachable
      ensures forall r <- g :: r.reachable && !old(r.reachable) ==> Reachable(g, [this], r)
      ensures forall r <- g :: r.reachable && !old(r.reachable) ==> forall c <- g[r] :: c.reachable
      decreases Unmarked(g), 2
    {
      var i := 0;
      while i < |refs|
        invariant 0 <= i <= |refs|
        invariant forall r <- g :: old(r.reachable) ==> r.reachable
        invariant forall j :: 0 <= j < i ==> refs[j].reachable
        invariant forall r <- g :: r.reachable && !old(r.reachable) ==> Reachable(g, [this], r)
        invariant forall r <- g :: r.reachable && !old(r.reachable) ==> forall c <- g[r] :: c.reachable
      {
        ghost var marked := set r <- g | r.reachable;
        refs[i].SetReachable(g);
        forall r <- g | r.reachable && r !in marked
          ensures Reachable(g, [this], r)
        {
          ThroughReference(g, this, refs[i], r);
        }
        i := i + 1;
      }
    }
  }

  /** The graph shows the references as they are. */
  ghost predicate Snapshot(g: Graph)
    reads g.Keys
  {
    forall r <- g :: r.refs == g[r]
  }

  ghost function Unmarked(g: Graph): set<GcResource>
    reads g.Keys
  {
    set r <- g | !r.reachable
  }

  lemma OnItself(g: Graph, r: GcResource)
    requires r in g
    ensures Reachable(g, [r], r)
  {
    assert IsPath(g, [r]);
  }

  lemma ThroughReference(g: Graph, a: GcResource, b: GcResource, r: GcResource)
    requires a in g && b in g[a] && Reachable(g, [b], r)
    ensures Reachable(g, [a], r)
  {
    var p :| IsPath(g, p) && p[0] in [b] && p[|p| - 1] == r;
    var q := [a] + p;
    assert forall i :: 0 < i < |q| ==> q[i] == p[i - 1];
    assert IsPath(g, q) && q[0] in [a] && q[|q| - 1] == r;
  }

  lemma {:induction false} ClosedUnderPaths(g: Graph, marked: set<GcResource>, p: seq<GcResource>, n: nat)
    requires IsPath(g, p) && n < |p|
    requires p[0] in marked && forall r <- g :: r in marked ==> forall c <- g[r] :: c in marked
    ensures p[n] in marked
  {
    if n == 0 {
    } else {
      ClosedUnderPaths(g, marked, p, n - 1);
      assert p[n] in g[p[n - 1]];
    }
  }

  /** What marking leaves marked: the resources reachable from the root, if none was marked before. */
  lemma MarkedIffReachable(g: Graph, from: seq<GcResource>, marked: set<GcResource>, r: GcResource)
    requires r in g && Closed(g)
    requires forall c <- from :: c in marked
    requires forall x <- g :: x in marked ==> forall c <- g[x] :: c in marked
    requires r in marked ==> Reachable(g, from, r)
    ensures r in marked <==> Reachable(g, from, r)
  {
    if Reachable(g, from, r) {
      var p :| IsPath(g, p) && p[0] in from && p[|p| - 1] == r;
      ClosedUnderPaths(g, marked, p, |p| - 1);
    }
  }

  lemma FromMore(g: Graph, from: seq<GcResource>, c: GcResource, r: GcResource)
    requires c in from && Reachable(g, [c], r)
    ensures Reachable(g, from, r)
  {
    var p :| IsPath(g, p) && p[0] in [c] && p[|p| - 1] == r;
    assert p[0] in from;
  }

  /** The sweep on values: the listed resources that are marked, in the order of the list. */
  function Kept(list: seq<GcResource>, marked: set<GcResource>): (k: seq<GcResource>)
    ensures forall r <- k :: r in list && r in marked
    ensures forall r <- list :: r in marked ==> r in k
    ensures |k| <= |list|
  {
    if list == [] then [] else
      (if list[0] in marked then [list[0]] else []) + Kept(list[1..], marked)
  }

  /** The survivors stay in the order of the list. */
  lemma {:induction false} KeptInOrder(list: seq<GcResource>, marked: set<GcResource>, i: nat, j: nat)
    returns (a: nat, b: nat)
    requires i < j < |Kept(list, marked)|
    ensures a < b < |list| && list[a] == Kept(list, marked)[i] && list[b] == Kept(list, marked)[j]
  {
    var rest := Kept(list[1..], marked);
    if list[0] !in marked {
      a, b := KeptInOrder(list[1..], marked, i, j);
      a, b := a + 1, b + 1;
    } else if i > 0 {
      a, b := KeptInOrder(list[1..], marked, i - 1, j - 1);
      a, b := a + 1, b + 1;
    } else {
      a := 0;
      assert Kept(list, marked) == [list[0]] + rest && rest[j - 1] in rest;
      assert rest[j - 1] in list[1..];
      var k :| 0 <= k < |list[1..]| && list[1..][k] == rest[j - 1];
      b := k + 1;
    }
  }

  lemma NothingKept(marked: set<GcResource>)
    ensures Kept([], marked) == []
  {
  }

  lemma HeadApart(list: seq<GcResource>)
    requires Distinct(list) && list != []
    ensures Distinct(list[1..]) && forall r <- list[1..] :: r in list && r != list[0]
  {
  }

  lemma KeptStep(list: seq<GcResource>, marked: set<GcResource>)
    requires list != []
    ensures Kept(list, marked) == (if list[0] in marked then [list[0]] else []) + Kept(list[1..], marked)
  {
  }

  /** What a cycle is for: the resources of a list that can be reached, in order. */
  ghost function Live(list: seq<GcResource>, g: Graph, from: seq<GcResource>): seq<GcResource> {
    Kept(list, set r <- list | Reachable(g, from, r))
  }

  lemma SurvivorsClosed(g: Graph, from: seq<GcResource>)
    requires Closed(g) && forall c <- from :: c in g
    ensures forall r <- g :: Reachable(g, from, r) ==> forall c <- g[r] :: Reachable(g, from, c)
    ensures forall c <- from :: Reachable(g, from, c)
  {
    forall r <- g, c <- g[r] | Reachable(g, from, r)
      ensures Reachable(g, from, c)
    {
      var p :| IsPath(g, p) && p[0] in from && p[|p| - 1] == r;
      var q := p + [c];
      assert forall i :: 0 <= i < |p| ==> q[i] == p[i];
      assert IsPath(g, q) && q[0] in from && q[|q| - 1] == c;
    }
    forall c <- from
      ensures Reachable(g, from, c)
    {
      assert IsPath(g, [c]);
    }
  }

  predicate Distinct(list: seq<GcResource>) {
    forall i, j :: 0 <= i < j < |list| ==> list[i] != list[j]
  }

  lemma {:induction false} KeptDistinct(list: seq<GcResource>, marked: set<GcResource>)
    requires Distinct(list)
    ensures Distinct(Kept(list, marked))
  {
    if list == [] {
    } else {
      KeptDistinct(list[1..], marked);
      var rest := Kept(list[1..], marked);
      assert forall r <- rest :: r in list[1..];
      var k := Kept(list, marked);
      forall i, j | 0 <= i < j < |k|
        ensures k[i] != k[j]
      {
        if list[0] in marked {
          assert k[j] == rest[j - 1] && rest[j - 1] in list[1..];
          assert i > 0 ==> k[i] == rest[i - 1];
        }
      }
    }
  }

  /** A list without repetition that nothing in it, and not the root, refers out of. */
  ghost predicate Contained(list: seq<GcResource>, g: Graph, from: seq<GcResource>) {
    && Distinct(list)
    && (forall r <- list :: r in g && forall c <- g[r] :: c in list)
    && (forall c <- from :: c in list)
  }

  lemma LiveContained(list: seq<GcResource>, g: Graph, from: seq<GcResource>)
    requires Contained(list, g, from) && Closed(g)
    ensures Contained(Live(list, g, from), g, from)
  {
    var marked := set r <- list | Reachable(g, from, r);
    SurvivorsClosed(g, from);
    KeptDistinct(list, marked);
  }

  /** The list's size now and at the end of the last cycle, the cycles that the heuristic has
      started, and the resources ever listed. */
  datatype Counters = Counters(size: nat, last: nat, cycles: nat, allocations: nat)

  predicate CountersOk(c: Counters, threshold: nat) {
    c.last <= c.size && c.cycles * threshold + (c.size - c.last) <= c.allocations
  }

  function Allocated(c: Counters): Counters {
    c.(size := c.size + 1, allocations := c.allocations + 1)
  }

  /** The heuristic, when a cycle would leave `live` resources. */
  function Collected(c: Counters, threshold: nat, live: nat): Counters {
    if c.size < c.last + threshold then c else Counters(live, live, c.cycles + 1, c.allocations)
  }

  lemma CollectedOk(c: Counters, threshold: nat, live: nat)
    requires CountersOk(c, threshold) && live <= c.size
    ensures CountersOk(Collected(c, threshold, live), threshold)
    ensures CountersOk(c.(size := live, last := live), threshold)
  {
    assert (c.cycles + 1) * threshold == c.cycles * threshold + threshold;
  }

  /** A history of the collector: a resource is made, or a collection is considered that would
      leave so many resources of the listed ones. */
  datatype Event = Allocate | Consider(live: nat)

  function Counted(c: Counters, threshold: nat, e: Event): Counters {
    match e
    case Allocate => Allocated(c)
    case Consider(live) => if live <= c.size then Collected(c, threshold, live) else c
  }

  function History(c: Counters, threshold: nat, es: seq<Event>): Counters
    decreases |es|
  {
    if es == [] then c else History(Counted(c, threshold, es[0]), threshold, es[1..])
  }

  /** Over every history the cycles cost at most one per `threshold` allocations. */
  lemma {:induction false} CyclesBounded(c: Counters, threshold: nat, es: seq<Event>)
    requires CountersOk(c, threshold)
    ensures var r := History(c, threshold, es);
            CountersOk(r, threshold) && r.cycles * threshold <= r.allocations
    decreases |es|
  {
    if es == [] {
    } else {
      if es[0].Consider? && es[0].live <= c.size {
        CollectedOk(c, threshold, es[0].live);
      }
      CyclesBounded(Counted(c, threshold, es[0]), threshold, es[1..]);
    }
  }

  lemma SameReferences(list: seq<GcResource>, g: Graph, g': Graph, from: seq<GcResource>)
    requires Contained(list, g, from) && forall r <- list :: r in g' && g'[r] == g[r]
    ensures Contained(list, g', from)
  {
  }

  ghost function References(list: seq<GcResource>): Graph
    reads list
  {
    map r <- list :: r.refs
  }

  /** The collector. Resources are listed when they are made, and only the collector deletes them. */
  class GC {
    var maxNewCollectablesCount: nat
    var resList: seq<GcResource>
    var resListSize: nat
    var lastResCount: nat
    /** What the root's `markReachableResources` calls `setReachable` on. */
    var rootRefs: seq<GcResource>
    ghost var allocations: nat
    ghost var fuzzyCycles: nat

    /** Between cycles: the list knows its size, no flag is set, and neither the root nor a listed
        resource refers to anything that is not listed. The counters bound the cycles. */
    ghost predicate Valid()
      reads this, resList
    {
      && resListSize == |resList|
      && (forall r <- resList :: !r.reachable)
      && Contained(resList, References(resList), rootRefs)
      && CountersOk(Count(), maxNewCollectablesCount)
    }

    ghost function Count(): Counters
      reads this
    {
      Counters(resListSize, lastResCount, fuzzyCycles, allocations)
    }

    constructor (threshold: nat)
      ensures Valid() && resList == [] && rootRefs == [] && maxNewCollectablesCount == threshold
      ensures allocations == 0 && fuzzyCycles == 0
    {
      maxNewCollectablesCount := threshold;
      resList, resListSize, lastResCount, rootRefs := [], 0, 0, [];
      allocations, fuzzyCycles := 0, 0;
    }

    method AddCollectable(item: GcResource)
      requires Valid() && item !in resList && !item.reachable
      requires forall c <- item.refs :: c in resList || c == item
      modifies this`resList, this`resListSize, this`allocations
      ensures Valid() && resList == [item] + old(resList) && allocations == old(allocations) + 1
    {
      resList := [item] + resList;
      resListSize := resListSize + 1;
      allocations := allocations + 1;
    }

    /** Marks what the root reaches. */
    method MarkReachable(ghost g: Graph)
      requires Closed(g) && Snapshot(g) && forall c <- rootRefs :: c in g
      requires forall r <- g :: !r.reachable
      modifies g.Keys`reachable
      ensures forall r <- g :: r.reachable <==> Reachable(g, rootRefs, r)
    {
      var i := 0;
      while i < |rootRefs|
        invariant 0 <= i <= |rootRefs|
        invariant forall j :: 0 <= j < i ==> rootRefs[j].reachable
        invariant forall r <- g :: r.reachable ==> Reachable(g, rootRefs, r)
        invariant forall r <- g :: r.reachable ==> forall c <- g[r] :: c.reachable
      {
        ghost var marked := set r <- g | r.reachable;
        rootRefs[i].SetReachable(g);
        forall r <- g | r.reachable && r !in marked
          ensures Reachable(g, rootRefs, r)
        {
          FromMore(g, rootRefs, rootRefs[i], r);
        }
        i := i + 1;
      }
      ghost var marked := set r <- g | r.reachable;
      forall r <- g {
        MarkedIffReachable(g, rootRefs, marked, r);
      }
    }

    /** Deletes the unmarked resources of the list and unmarks the others. */
    method CleanUnreachable(ghost marked: set<GcResource>) returns (deleted: nat)
      requires resListSize == |resList| && Distinct(resList)
      requires marked == set r <- resList | r.reachable
      modifies this`resList, this`resListSize, resList`reachable
      ensures && resList == Kept(old(resList), marked)
              && resListSize == |resList| && deleted == |old(resList)| - |resList|
      ensures forall r <- resList :: !r.reachable
    {
      hide Kept, Distinct;
      deleted := 0;
      var list, kept := resList, [];
      ghost var rest := list;
      var i := 0;
      while i < |list|
        invariant 0 <= i <= |list| && list == old(resList) == resList && resListSize == |list|
        invariant rest == list[i..] && Distinct(rest)
        invariant Kept(list, marked) == kept + Kept(rest, marked) && |kept| + deleted == i
        invariant forall r <- kept :: !r.reachable
        invariant forall r <- rest :: r.reachable <==> r in marked
      {
        KeptStep(rest, marked);
        ConcatAssociative(kept, if rest[0] in marked then [rest[0]] else [], Kept(rest[1..], marked));
        HeadApart(rest);
        if !list[i].reachable {
          deleted := deleted + 1;
        } else {
          list[i].reachable := false;
          kept := kept + [list[i]];
        }
        rest := rest[1..];
        i := i + 1;
      }
      NothingKept(marked);
      assert rest == [];
      resList := kept;
      resListSize := resListSize - deleted;
    }

    /** A collection cycle: the list keeps exactly the resources that the root reaches. */
    method RunCycle()
      requires Valid()
      modifies this`resList, this`resListSize, this`lastResCount, resList`reachable
      ensures Valid() && lastResCount == resListSize
      ensures resList == Live(old(resList), old(References(resList)), rootRefs) && |resList| <= |old(resList)|
    {
      hide Reachable, Kept, IsPath, CountersOk;
      ghost var before := Count();
      ghost var g := References(resList);
      LiveContained(resList, g, rootRefs);
      MarkReachable(g);
      ghost var marked := set r <- resList | Reachable(g, rootRefs, r);
      var deleted := CleanUnreachable(marked);
      lastResCount := resListSize;
      SameReferences(resList, g, References(resList), rootRefs);
      CollectedOk(before, maxNewCollectablesCount, resListSize);
    }

    /** Runs a cycle once enough resources have been added since the last one. */
    method FuzzyCollect()
      requires Valid()
      modifies this`resList, this`resListSize, this`lastResCount, this`fuzzyCycles, resList`reachable
      ensures Valid()
      ensures old(resListSize < lastResCount + maxNewCollectablesCount) ==>
                resList == old(resList) && fuzzyCycles == old(fuzzyCycles)
      ensures old(resListSize >= lastResCount + maxNewCollectablesCount) ==>
                && fuzzyCycles == old(fuzzyCycles) + 1
                && resList == Live(old(resList), old(References(resList)), rootRefs)
    {
      hide CountersOk, Live, References, Contained;
      if resListSize < lastResCount + maxNewCollectablesCount {
        return;
      }
      ghost var before := Count();
      RunCycle();
      fuzzyCycles := fuzzyCycles + 1;
      CollectedOk(before, maxNewCollectablesCount, resListSize);
    }
  }
}
