/** The import graph of go list and its reverse closure. */
module ReverseClosure {
  /** Maps an import path to the packages that import it. Paths are only compared. */
  type Edges<T> = map<T, seq<T>>

  function Dependents<T(==)>(edges: Edges<T>, x: T): (r: seq<T>) {
    if x in edges then edges[x] else []
  }

  /** Each element imports the next one. */
  ghost predicate Chain<T>(edges: Edges<T>, p: seq<T>) {
    p != [] && (|p| == 1 || (p[0] in Dependents(edges, p[1]) && Chain(edges, p[1..])))
  }

  ghost predicate ChainTo<T>(edges: Edges<T>, p: seq<T>, x: T, seeds: set<T>) {
    Chain(edges, p) && p[0] == x && p[|p| - 1] in seeds
  }

  /** Some import chain leads from `x` to a seed. */
  ghost predicate Reaches<T(!new)>(edges: Edges<T>, x: T, seeds: set<T>) {
    exists p :: ChainTo(edges, p, x, seeds)
  }

  lemma SeedReaches<T(!new)>(edges: Edges<T>, x: T, seeds: set<T>)
    requires x in seeds
    ensures Reaches(edges, x, seeds)
  {
    assert ChainTo(edges, [x], x, seeds);
  }

  lemma DependentReaches<T(!new)>(edges: Edges<T>, x: T, y: T, seeds: set<T>)
    requires Reaches(edges, y, seeds) && x in Dependents(edges, y)
    ensures Reaches(edges, x, seeds)
  {
    var p :| ChainTo(edges, p, y, seeds);
    var q := [x] + p;
    assert q[1..] == p;
    assert ChainTo(edges, q, x, seeds);
  }

  /** Every package that imports `x` directly is in `s`. */
  ghost predicate HandedOn<T>(edges: Edges<T>, x: T, s: set<T>) {
    forall i | 0 <= i < |Dependents(edges, x)| :: Dependents(edges, x)[i] in s
  }

  ghost predicate ClosedUnder<T>(edges: Edges<T>, s: set<T>) {
    forall x | x in s :: HandedOn(edges, x, s)
  }

  lemma {:induction false} ChainStaysInside<T>(edges: Edges<T>, p: seq<T>, s: set<T>)
    requires Chain(edges, p) && ClosedUnder(edges, s) && p[|p| - 1] in s
    ensures p[0] in s
  {
    if |p| > 1 {
      ChainStaysInside(edges, p[1..], s);
      assert HandedOn(edges, p[1], s);
    }
  }

  lemma ClosedSetHoldsAll<T(!new)>(edges: Edges<T>, seeds: set<T>, s: set<T>)
    requires seeds <= s && ClosedUnder(edges, s)
    ensures forall x | Reaches(edges, x, seeds) :: x in s
  {
    forall x | Reaches(edges, x, seeds) ensures x in s {
      var p :| ChainTo(edges, p, x, seeds);
      ChainStaysInside(edges, p, s);
    }
  }

  /** The packages with an import chain to a seed. */
  ghost function ReachSet<T(!new)>(edges: Edges<T>, seeds: set<T>): (r: set<T>)
    ensures forall x :: x in r <==> Reaches(edges, x, seeds)
  {
    var known := seeds + set k, i | k in edges && 0 <= i < |edges[k]| :: edges[k][i];
    ClosedSetHoldsAll(edges, seeds, known);
    set x | x in known && Reaches(edges, x, seeds)
  }

  lemma ReachSetIsClosed<T(!new)>(edges: Edges<T>, seeds: set<T>)
    ensures seeds <= ReachSet(edges, seeds) && ClosedUnder(edges, ReachSet(edges, seeds))
  {
    forall x | x in seeds ensures x in ReachSet(edges, seeds) {
      SeedReaches(edges, x, seeds);
    }
    forall x | x in ReachSet(edges, seeds) ensures HandedOn(edges, x, ReachSet(edges, seeds)) {
      forall i | 0 <= i < |Dependents(edges, x)| ensures Dependents(edges, x)[i] in ReachSet(edges, seeds) {
        DependentReaches(edges, Dependents(edges, x)[i], x, seeds);
      }
    }
  }

  /** Everything reached belongs, and everything reached but neither queued nor
      `open` has handed on its dependents. */
  ghost predicate Explored<T>(edges: Edges<T>, goal: set<T>, reached: set<T>, queue: seq<T>, open: set<T>) {
    && reached <= goal
    && (forall x | x in queue :: x in reached)
    && (forall x | x in reached && x !in queue && x !in open :: HandedOn(edges, x, reached))
  }

  lemma PushKeepsExplored<T>(edges: Edges<T>, goal: set<T>, cur: T, reached: set<T>, queue: seq<T>, d: T)
    requires Explored(edges, goal, reached, queue, {cur}) && d in goal
    ensures Explored(edges, goal, reached + {d}, queue + [d], {cur})
  {
    forall x | x in reached + {d} && x !in queue + [d] && x !in {cur} ensures HandedOn(edges, x, reached + {d}) {
      assert x != d && x !in queue by { assert (queue + [d])[|queue|] == d; }
      assert HandedOn(edges, x, reached);
    }
  }

  /** Pushes the dependents of `cur` that were not reached before. */
  method Expand<T(==)>(edges: Edges<T>, ghost goal: set<T>, cur: T, reached0: set<T>, queue0: seq<T>)
    returns (reached: set<T>, queue: seq<T>)
    requires Explored(edges, goal, reached0, queue0, {cur}) && HandedOn(edges, cur, goal)
    ensures Explored(edges, goal, reached, queue, {}) && reached0 <= reached
    ensures reached == reached0 ==> queue == queue0
  {
    reached, queue := reached0, queue0;
    var deps := Dependents(edges, cur);
    for i := 0 to |deps|
      invariant Explored(edges, goal, reached, queue, {cur}) && reached0 <= reached
      invariant forall j | 0 <= j < i :: deps[j] in reached
      invariant reached == reached0 ==> queue == queue0
    {
      var dependent := deps[i];
      if dependent !in reached {
        PushKeepsExplored(edges, goal, cur, reached, queue, dependent);
        reached, queue := reached + {dependent}, queue + [dependent];
      }
    }
    assert HandedOn(edges, cur, reached);
  }

  /** The seeds, all reached and all queued, in whatever order they are taken. */
  method QueueSeeds<T(==)>(seeds: set<T>) returns (reached: set<T>, queue: seq<T>)
    ensures reached == seeds && forall x :: x in queue <==> x in seeds
  {
    reached, queue := {}, [];
    var pending := seeds;
    while pending != {}
      invariant pending <= seeds && reached == seeds - pending
      invariant forall x :: x in queue <==> x in reached
    {
      var s :| s in pending;
      reached := reached + {s};
      queue := queue + [s];
      pending := pending - {s};
    }
  }

  lemma PopOpens<T>(edges: Edges<T>, goal: set<T>, reached: set<T>, queue: seq<T>)
    requires queue != [] && Explored(edges, goal, reached, queue, {}) && ClosedUnder(edges, goal)
    ensures Explored(edges, goal, reached, queue[..|queue| - 1], {queue[|queue| - 1]})
    ensures HandedOn(edges, queue[|queue| - 1], goal)
  {
    var cur := queue[|queue| - 1];
    assert queue == queue[..|queue| - 1] + [cur];
    assert cur in reached;
  }

  lemma EmptyQueueIsClosed<T>(edges: Edges<T>, goal: set<T>, reached: set<T>)
    requires Explored(edges, goal, reached, [], {})
    ensures reached <= goal && ClosedUnder(edges, reached)
  {
  }

  /** The worklist loop: hands on the dependents of each queued node until none is left. */
  method Drain<T(==)>(edges: Edges<T>, ghost goal: set<T>, reached0: set<T>, queue0: seq<T>) returns (reached: set<T>)
    requires Explored(edges, goal, reached0, queue0, {}) && ClosedUnder(edges, goal)
    ensures reached0 <= reached <= goal && ClosedUnder(edges, reached)
  {
    var queue := queue0;
    reached := reached0;
    while |queue| > 0
      invariant reached0 <= reached && Explored(edges, goal, reached, queue, {})
      decreases goal - reached, |queue|
    {
      PopOpens(edges, goal, reached, queue);
      var cur := queue[|queue| - 1];
      reached, queue := Expand(edges, goal, cur, reached, queue[..|queue| - 1]);
    }
    EmptyQueueIsClosed(edges, goal, reached);
  }

  /** reverseClosure: a worklist search that returns exactly the packages with an
      import chain to a seed, whatever order the seeds are taken in. */
  method ReverseClosure<T(!new, ==)>(edges: Edges<T>, seeds: set<T>) returns (reached: set<T>)
    ensures forall x :: x in reached <==> Reaches(edges, x, seeds)
  {
    ReachSetIsClosed(edges, seeds);
    var start, queue := QueueSeeds(seeds);
    reached := Drain(edges, ReachSet(edges, seeds), start, queue);
    ClosedSetHoldsAll(edges, seeds, reached);
  }
}
