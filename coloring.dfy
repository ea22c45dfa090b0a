/**
  The graph-colouring engine: an undirected graph, a domain table (for every
  node, the colours it may still take), forward-checking propagation that
  fixes one node's colour in place, read-only queries over a domain table,
  and a depth-first branch and bound over an explicit stack of frames.
 */
module Coloring {
  import opened Builtins

  /** A search frame: the colours still to try for the frame's node, and the
      domain table the frame was entered with. */
  datatype Step = Step(choices: set<nat>, domain: seq<set<nat>>)

  /** The table right after `node` is fixed to `choice`, before propagation. */
  function Fix(d: seq<set<nat>>, node: nat, choice: nat): seq<set<nat>>
    requires node < |d|
  {
    d[node := {choice}]
  }

  /** Why a propagation may take colour `c` away from a neighbour of `u`:
      `u` held `c` at the start, and `u` is either the node being fixed or a
      node with at least two colours that the propagation narrowed to `c`. */
  ghost predicate Forces(start: seq<set<nat>>, node: nat, u: nat, c: nat)
  {
    u < |start| && c in start[u] && (u == node || |start[u]| >= 2)
  }

  /** The total number of colours left in a table. */
  function TotalSize(d: seq<set<nat>>): nat
  {
    if |d| == 0 then 0 else TotalSize(d[..|d| - 1]) + |d[|d| - 1]|
  }

  /** Taking one colour out of one node's domain lowers the total by one. */
  lemma {:induction false} TotalSizeRemove(d: seq<set<nat>>, v: nat, c: nat)
    requires v < |d| && c in d[v]
    ensures TotalSize(d[v := d[v] - {c}]) == TotalSize(d) - 1
    decreases |d|
  {
    var e := d[v := d[v] - {c}];
    if v < |d| - 1 {
      TotalSizeRemove(d[..|d| - 1], v, c);
      assert e[..|e| - 1] == d[..|d| - 1][v := d[v] - {c}];
    } else {
      assert e[..|e| - 1] == d[..|d| - 1];
    }
  }

  /** `c` copies of `w` added up, written without multiplication so that the
      termination argument stays within linear arithmetic. */
  function Scale(c: nat, w: nat): nat
  {
    if c == 0 then 0 else w + Scale(c - 1, w)
  }

  /** Fewer copies of a positive weight add up to less. */
  lemma {:induction false} ScaleLess(x: nat, y: nat, w: nat)
    requires x < y && w >= 1
    ensures Scale(x, w) < Scale(y, w)
    decreases y
  {
    if x < y - 1 {
      ScaleLess(x, y - 1, w);
    }
  }

  /** `b` to the power `e`. */
  function Pow(b: nat, e: nat): (r: nat)
    ensures b >= 1 ==> r >= 1
  {
    if e == 0 then 1 else Scale(b, Pow(b, e - 1))
  }

  /** The work left on a search stack of at most `n` frames, read as a number
      in base `n + 1` whose digit at depth `j` is the number of untried
      choices of frame `j`, the bottom frame being the most significant. */
  ghost function Remaining(stack: seq<Step>, n: nat): nat
    requires |stack| <= n
  {
    if stack == [] then 0
    else Remaining(stack[..|stack| - 1], n) + Scale(|stack[|stack| - 1].choices|, Pow(n + 1, n - |stack|))
  }

  /** Taking one choice from the top frame lowers the work left by one unit
      of the top frame's weight. */
  lemma ChoiceWork(stack: seq<Step>, n: nat, choice: nat, stack': seq<Step>)
    requires 1 <= |stack| <= n && choice in stack[|stack| - 1].choices
    requires stack' == stack[..|stack| - 1] + [Step(stack[|stack| - 1].choices - {choice}, stack[|stack| - 1].domain)]
    ensures |stack'| == |stack|
    ensures Remaining(stack', n) + Pow(n + 1, n - |stack'|) == Remaining(stack, n)
  {
    var top := stack[|stack| - 1];
    var w := Pow(n + 1, n - |stack|);
    assert stack'[..|stack| - 1] == stack[..|stack| - 1];
    assert |top.choices - {choice}| + 1 == |top.choices|;
    assert Remaining(stack', n) == Remaining(stack[..|stack| - 1], n) + Scale(|top.choices| - 1, w);
    assert Remaining(stack, n) == Remaining(stack[..|stack| - 1], n) + Scale(|top.choices|, w);
  }

  /** A (colours, sum) pair beats another when it uses fewer colours, or as
      many colours with a smaller sum. */
  predicate Better(a: (nat, nat), b: (nat, nat))
  {
    a.0 < b.0 || (a.0 == b.0 && a.1 < b.1)
  }

  /** Each pair recorded beats the one recorded before it. */
  ghost predicate Descending(history: seq<(nat, nat)>)
  {
    forall i :: 0 < i < |history| ==> Better(history[i], history[i - 1])
  }

  /** The state of the search between two turns of its loop: the stack of
      frames, the best solution so far and its bound pair. */
  datatype Search = Search(stack: seq<Step>, best: Option<seq<nat>>, lowerBound: nat, lowerBoundSum: nat)

  /** What one turn decides: the choice popped from the top frame, the
      frame's table after propagating that choice, and at a leaf the
      colouring read off that table. */
  datatype Move = Move(choice: nat, domain: seq<set<nat>>, solution: seq<nat>)

  /** The stack once `choice` is popped from the top frame's choices. */
  function Popped(stack: seq<Step>, choice: nat): seq<Step>
    requires stack != []
  {
    stack[..|stack| - 1] + [Step(stack[|stack| - 1].choices - {choice}, stack[|stack| - 1].domain)]
  }

  /** `s'` is what is left of `s` once the frames with no choice left are
      dropped from the top. */
  ghost predicate Backtracked(s: seq<Step>, s': seq<Step>)
  {
    && s' <= s
    && (forall j :: |s'| <= j < |s| ==> s[j].choices == {})
    && (s' != [] ==> s'[|s'| - 1].choices != {})
  }

  /** The best and its bound pair stay as they were. */
  ghost predicate Kept(s: Search, s': Search)
  {
    s'.best == s.best && s'.lowerBound == s.lowerBound && s'.lowerBoundSum == s.lowerBoundSum
  }

  /** At a leaf: the table holds exactly the colour `solution[v]` at every
      node `v`, and that colouring replaces the best, with its (colours,
      sum) pair, exactly when `Accepts` holds. */
  ghost predicate Judged(s: Search, solution: seq<nat>, d1: seq<set<nat>>, s': Search)
  {
    && |solution| == |d1|
    && (forall v :: 0 <= v < |d1| ==> d1[v] == {solution[v]})
    && if Accepts(s.best, s.lowerBound, s.lowerBoundSum, |Elems(solution)|, Sum(solution))
       then s'.best == Some(solution) && s'.lowerBound == |Elems(solution)| && s'.lowerBoundSum == Sum(solution)
       else Kept(s, s')
  }

  /** The pair recorded by a turn: the new bound pair when the best changed. */
  function Gain(s: Search, s': Search): seq<(nat, nat)>
  {
    if s'.best != s.best then [(s'.lowerBound, s'.lowerBoundSum)] else []
  }

  /** The pairs recorded along a run of states. */
  ghost function History(trace: seq<Search>): seq<(nat, nat)>
  {
    if |trace| <= 1 then []
    else History(trace[..|trace| - 1]) + Gain(trace[|trace| - 2], trace[|trace| - 1])
  }

  /** The number of turns of a run taken at a leaf, with `n` frames. */
  ghost function Leaves(trace: seq<Search>, n: nat): nat
  {
    if |trace| <= 1 then 0
    else Leaves(trace[..|trace| - 1], n) + (if |trace[|trace| - 2].stack| == n then 1 else 0)
  }

  /** Extending a run by one state adds that turn's pair and leaf. */
  lemma Extended(trace: seq<Search>, s': Search)
    requires trace != []
    ensures History(trace + [s']) == History(trace) + Gain(trace[|trace| - 1], s')
    ensures forall n: nat :: Leaves(trace + [s'], n) == Leaves(trace, n) + (if |trace[|trace| - 1].stack| == n then 1 else 0)
  {
    assert (trace + [s'])[..|trace|] == trace;
  }

  /** The test that decides whether a leaf replaces the best solution, as the
      search writes it: strictly better than the bound pair. */
  predicate AcceptsAsWritten(lowerBound: nat, lowerBoundSum: nat, lowest: nat, lowestSum: nat): (r: bool)
    ensures lowest < lowerBound ==> r
    ensures r ==> lowest <= lowerBound && (lowest, lowestSum) != (lowerBound, lowerBoundSum)
  {
    Better((lowest, lowestSum), (lowerBound, lowerBoundSum))
  }

  /** The same test with the evident intent restored: the first leaf is
      always taken, later ones when strictly better. */
  predicate Accepts(best: Option<seq<nat>>, lowerBound: nat, lowerBoundSum: nat, lowest: nat, lowestSum: nat): (r: bool)
    ensures best.None? ==> r
    ensures best.Some? ==> (r <==> AcceptsAsWritten(lowerBound, lowerBoundSum, lowest, lowestSum))
  {
    best.None? || Better((lowest, lowestSum), (lowerBound, lowerBoundSum))
  }

  /** The choices of a new frame: the colours already forced plus one fresh
      colour above all of them, kept below the bound and within the next
      node's domain. */
  function NextChoices(required: set<nat>, lowerBound: nat, next: set<nat>): (r: set<nat>)
    requires required != {}
    ensures r <= next && forall c :: c in r ==> c < lowerBound
    ensures forall c :: c in r && c !in required ==> c == SetMax(required) + 1 && forall x :: x in required ==> x < c
    ensures |r - required| <= 1
    ensures forall c :: c in next && c < lowerBound && (c in required || c == SetMax(required) + 1) ==> c in r
  {
    var r := (required + {SetMax(required) + 1}) * Range(lowerBound) * next;
    assert r - required <= {SetMax(required) + 1};
    SubsetCard(r - required, {SetMax(required) + 1});
    r
  }

  class Graph {
    /** The nodes `0 .. n-1`, in order. */
    const nodes: seq<nat>
    /** For every node, the set of its neighbours. */
    const edges: seq<set<nat>>

    /** Nodes are `0 .. n-1`, every neighbour is a node, and adjacency is symmetric. */
    ghost predicate Valid()
    {
      && |edges| == |nodes|
      && (forall i :: 0 <= i < |nodes| ==> nodes[i] == i)
      && (forall x, y :: 0 <= x < |edges| && y in edges[x] ==> y < |edges|)
      && (forall x, y :: 0 <= x < |edges| && y in edges[x] ==> x in edges[y])
    }

    /** No node is its own neighbour. */
    ghost predicate LoopFree()
    {
      forall x :: 0 <= x < |edges| ==> x !in edges[x]
    }

    /** Some input edge joins `x` and `y`, in one direction or the other. */
    static ghost predicate Joins(es: seq<(nat, nat)>, x: nat, y: nat)
    {
      exists i :: 0 <= i < |es| && (es[i] == (x, y) || es[i] == (y, x))
    }

    /** Builds the adjacency sets from an edge list whose endpoints are nodes:
        `y` is a neighbour of `x` exactly when an input edge joins them. */
    constructor (n: nat, es: seq<(nat, nat)>)
      requires forall i :: 0 <= i < |es| ==> es[i].0 < n && es[i].1 < n
      ensures Valid() && |nodes| == n
      ensures forall x, y :: 0 <= x < n && 0 <= y < n ==> (y in edges[x] <==> Joins(es, x, y))
    {
      var adj: seq<set<nat>> := seq(n, _ => {});
      for k := 0 to |es|
        invariant |adj| == n
        invariant forall x, y :: 0 <= x < n && y in adj[x] ==> y < n
        invariant forall x, y :: 0 <= x < n && 0 <= y < n ==> (y in adj[x] <==> Joins(es[..k], x, y))
      {
        var (x, y) := es[k];
        adj := adj[x := adj[x] + {y}];
        adj := adj[y := adj[y] + {x}];
        forall a, b | 0 <= a < n && 0 <= b < n
          ensures b in adj[a] <==> Joins(es[..k + 1], a, b)
        {
          JoinsSnoc(es, k, a, b);
        }
      }
      nodes := seq(n, i => i);
      edges := adj;
      new;
      forall x, y | 0 <= x < n && y in adj[x] ensures x in adj[y] {
        JoinsSymmetric(es, x, y);
      }
    }

    static lemma JoinsSnoc(es: seq<(nat, nat)>, k: nat, x: nat, y: nat)
      requires k < |es|
      ensures Joins(es[..k + 1], x, y) <==> Joins(es[..k], x, y) || es[k] == (x, y) || es[k] == (y, x)
    {
      var p := es[..k + 1];
      if Joins(p, x, y) {
        var i :| 0 <= i < |p| && (p[i] == (x, y) || p[i] == (y, x));
        if i < k {
          assert es[..k][i] == p[i];
        }
      }
      if Joins(es[..k], x, y) {
        var i :| 0 <= i < k && (es[..k][i] == (x, y) || es[..k][i] == (y, x));
        assert p[i] == es[..k][i];
      }
      if es[k] == (x, y) || es[k] == (y, x) {
        assert p[k] == es[k];
      }
    }

    static lemma JoinsSymmetric(es: seq<(nat, nat)>, x: nat, y: nat)
      ensures Joins(es, x, y) <==> Joins(es, y, x)
    {
    }

    /** Every node fixed to one colour shares no colour with its neighbours. */
    ghost predicate ForwardChecked(d: seq<set<nat>>)
    {
      && |d| == |edges|
      && forall v, u :: 0 <= v < |d| && u in edges[v] && u < |d| && |d[v]| == 1 ==> d[v] !! d[u]
    }

    /** What fixing `node` to `choice` and propagating does to a table `d0`,
        giving `d1`:
        - colours are only removed, never added, relative to `Fix(d0, node, choice)`;
        - every node fixed here, or narrowed to one colour here, has that
          colour removed from all its neighbours;
        - a colour is removed from a node only because a neighbour that held
          it at the start has been fixed or narrowed to it;
        - a forward-checked table stays forward-checked;
        - the whole change is a `Cascade`: an order of the fixed pairs in
          which each one is caused by the ones before it. */
    ghost predicate Propagated(d0: seq<set<nat>>, node: nat, choice: nat, d1: seq<set<nat>>)
      requires Valid() && |d0| == |nodes| && node < |nodes|
    {
      && Narrowing(d0, node, choice, d1)
      && Cascaded(Fix(d0, node, choice), node, choice, d1)
    }

    /** The first four facts of `Propagated`, which the search relies on. */
    ghost predicate Narrowing(d0: seq<set<nat>>, node: nat, choice: nat, d1: seq<set<nat>>)
      requires Valid() && |d0| == |nodes| && node < |nodes|
    {
      var start := Fix(d0, node, choice);
      && |d1| == |d0|
      && (forall v :: 0 <= v < |d1| ==> d1[v] <= start[v])
      && (forall v, u :: 0 <= v < |d1| && u in edges[v] && u < |d1| && |d1[v]| == 1 && |start[v]| != 1 ==>
            d1[v] !! d1[u])
      && (forall u :: u in edges[node] && u < |d1| && |d1[node]| == 1 ==> d1[node] !! d1[u])
      && (forall v, c :: 0 <= v < |d1| && c in start[v] && c !in d1[v] ==>
            exists u :: u in edges[v] && u < |d1| && Forces(start, node, u, c) && d1[u] <= {c})
      && (ForwardChecked(d0) ==> ForwardChecked(d1))
    }

    /** Some order of fixed pairs explains the change from `start` to `d1`. */
    ghost predicate Cascaded(start: seq<set<nat>>, node: nat, choice: nat, d1: seq<set<nat>>)
      requires Valid() && |start| == |edges| && |d1| == |start|
    {
      exists seen: seq<(nat, nat)> :: Cascade(start, node, choice, seen, d1)
    }

    /** `seen` lists the pairs (node, colour) fixed by a propagation from
        `start` to `d1`, in the order they were fixed: it starts with
        `(node, choice)`, each later pair was caused by the earlier ones
        (`Causal`), each fixed colour is gone from all neighbours of its
        node, every removal is the colour of a fixed neighbour, each fixed
        node holds at most its colour, and every node narrowed here to at
        most one colour was fixed (`Complete`). Nothing else is removed, so
        `d1` is `start` less the colours of the fixed pairs on the neighbours. */
    ghost predicate Cascade(start: seq<set<nat>>, node: nat, choice: nat, seen: seq<(nat, nat)>, d1: seq<set<nat>>)
      requires Valid() && |start| == |edges| && |d1| == |start|
    {
      && Causal(start, node, choice, seen)
      && (forall p :: p in seen ==> p.0 < |d1| && d1[p.0] <= {p.1})
      && (forall p, v :: p in seen && p.0 < |edges| && v in edges[p.0] ==> v < |d1| && p.1 !in d1[v])
      && (forall v, c :: 0 <= v < |d1| && c in start[v] && c !in d1[v] ==>
            exists u :: u in edges[v] && (u, c) in seen)
      && Complete(start, d1, seen)
    }

    /** The fixing order of a propagation: `(node, choice)` comes first, no
        node is fixed twice, and every later pair is `Fired` by the pairs
        before it. */
    ghost predicate Causal(start: seq<set<nat>>, node: nat, choice: nat, seen: seq<(nat, nat)>)
      requires Valid() && |start| == |edges|
    {
      && seen != [] && seen[0] == (node, choice)
      && (forall i, j :: 0 <= i < j < |seen| ==> seen[i].0 != seen[j].0)
      && (forall i :: 1 <= i < |seen| ==> Fired(start, seen[..i], seen[i]))
    }

    /** Node `p.0` had at least two colours at the start, `p.1` among them,
        and each of its other colours is the colour of a neighbour fixed in
        `earlier`: it was narrowed to `p.1` by earlier fixings alone. */
    ghost predicate Fired(start: seq<set<nat>>, earlier: seq<(nat, nat)>, p: (nat, nat))
      requires Valid() && |start| == |edges|
    {
      && p.0 < |start| && |start[p.0]| >= 2 && p.1 in start[p.0]
      && forall y :: y in start[p.0] && y != p.1 ==> exists w :: w in edges[p.0] && (w, y) in earlier
    }

    /** Every node that had two colours or more and has at most one left was
        fixed. */
    ghost predicate Complete(start: seq<set<nat>>, d: seq<set<nat>>, seen: seq<(nat, nat)>)
      requires |d| == |start|
    {
      forall u :: 0 <= u < |d| && |start[u]| >= 2 && |d[u]| <= 1 ==> exists x :: (u, x) in seen
    }

    /** Fixes `node` to `choice` in the table and propagates forward: every
        neighbour of a newly fixed node loses that colour, and a neighbour left
        with one colour is fixed in turn, through a worklist. The table is
        changed in place. */
    method UpdateDomain(node: nat, choice: nat, domain: array<set<nat>>)
      requires Valid() && domain.Length == |nodes| && node < |nodes|
      modifies domain
      ensures Propagated(old(domain[..]), node, choice, domain[..])
    {
      ghost var d0 := domain[..];
      domain[node] := {choice};
      assert domain[..] == Fix(d0, node, choice);
      var stack := [(node, choice)];
      ghost var seen: seq<(nat, nat)> := [(node, choice)];
      ghost var done: set<(nat, nat)> := {};
      WorklistStart(d0, node, choice);
      while stack != []
        invariant Worklist(d0, node, choice, domain[..], stack, seen, done)
        decreases TotalSize(domain[..]) + |stack|
      {
        var (n, c) := stack[|stack| - 1];
        ghost var before := domain[..];
        var fixed := RemoveFromNeighbours(n, c, domain);
        WorklistStep(d0, node, choice, before, stack, seen, done, domain[..], fixed);
        stack := stack[..|stack| - 1] + fixed;
        seen := seen + fixed;
        done := done + {(n, c)};
      }
      PropagationSettled(d0, node, choice, domain[..], seen, done);
    }

    /** The worklist invariant of `UpdateDomain` over the current table `d`,
        with `seen` the pairs (node, colour) ever pushed and `done` those
        already processed. */
    ghost predicate Worklist(d0: seq<set<nat>>, node: nat, choice: nat, d: seq<set<nat>>,
                             stack: seq<(nat, nat)>, seen: seq<(nat, nat)>, done: set<(nat, nat)>)
      requires Valid() && |d0| == |nodes| && node < |nodes|
    {
      && |d| == |d0|
      && Narrowed(Fix(d0, node, choice), d)
      && SeenForced(Fix(d0, node, choice), node, d, seen)
      && Pending(stack, seen, done)
      && DoneRemoved(d, done)
      && SinglesSeen(Fix(d0, node, choice), node, d, seen)
      && (node, choice) in seen
      && RemovalsExplained(Fix(d0, node, choice), d, seen)
      && Causal(Fix(d0, node, choice), node, choice, seen)
      && Complete(Fix(d0, node, choice), d, seen)
    }

    /** Colours are only removed. */
    ghost predicate Narrowed(start: seq<set<nat>>, d: seq<set<nat>>)
      requires |d| == |start|
    {
      forall v :: 0 <= v < |d| ==> d[v] <= start[v]
    }

    /** Each seen node holds at most its colour, and that colour is forced. */
    ghost predicate SeenForced(start: seq<set<nat>>, node: nat, d: seq<set<nat>>, seen: seq<(nat, nat)>)
    {
      forall p :: p in seen ==> p.0 < |d| && Forces(start, node, p.0, p.1) && d[p.0] <= {p.1}
    }

    /** Every seen pair is processed or still on the stack. */
    ghost predicate Pending(stack: seq<(nat, nat)>, seen: seq<(nat, nat)>, done: set<(nat, nat)>)
    {
      && (forall p :: p in done ==> p in seen)
      && (forall i :: 0 <= i < |stack| ==> stack[i] in seen)
      && (forall p :: p in seen ==> p in done || p in stack)
    }

    /** Each processed colour is gone from the processed node's neighbours. */
    ghost predicate DoneRemoved(d: seq<set<nat>>, done: set<(nat, nat)>)
      requires Valid()
    {
      forall p, u :: p in done && p.0 < |edges| && u in edges[p.0] ==> u < |d| && p.1 !in d[u]
    }

    /** Every singleton is seen, or was a singleton other than `node` from the start. */
    ghost predicate SinglesSeen(start: seq<set<nat>>, node: nat, d: seq<set<nat>>, seen: seq<(nat, nat)>)
      requires |d| == |start|
    {
      forall v, c :: 0 <= v < |d| && |d[v]| == 1 && c in d[v] ==>
        (v, c) in seen || (v != node && start[v] == {c})
    }

    /** Every removal is explained by a seen neighbour holding that colour. */
    ghost predicate RemovalsExplained(start: seq<set<nat>>, d: seq<set<nat>>, seen: seq<(nat, nat)>)
      requires Valid() && |d| == |start| == |edges|
    {
      forall v, c :: 0 <= v < |d| && c in start[v] && c !in d[v] ==>
        exists u :: u in edges[v] && (u, c) in seen
    }

    lemma WorklistStart(d0: seq<set<nat>>, node: nat, choice: nat)
      requires Valid() && |d0| == |nodes| && node < |nodes|
      ensures Worklist(d0, node, choice, Fix(d0, node, choice), [(node, choice)], [(node, choice)], {})
    {
      var start := Fix(d0, node, choice);
      forall v, c | 0 <= v < |start| && |start[v]| == 1 && c in start[v]
        ensures (v, c) in {(node, choice)} || (v != node && start[v] == {c})
      {
        Singleton(start[v], c);
      }
    }

    /** One round of the worklist keeps its invariant and shrinks the measure. */
    lemma WorklistStep(d0: seq<set<nat>>, node: nat, choice: nat, d: seq<set<nat>>,
                       stack: seq<(nat, nat)>, seen: seq<(nat, nat)>, done: set<(nat, nat)>,
                       d': seq<set<nat>>, fixed: seq<(nat, nat)>)
      requires Valid() && |d0| == |nodes| && node < |nodes| && stack != []
      requires Worklist(d0, node, choice, d, stack, seen, done)
      requires stack[|stack| - 1].0 < |nodes|
      requires Round(d, stack[|stack| - 1].0, stack[|stack| - 1].1, {}, d', fixed)
      ensures Worklist(d0, node, choice, d', stack[..|stack| - 1] + fixed,
                       seen + fixed, done + {stack[|stack| - 1]})
      ensures TotalSize(d') + |stack[..|stack| - 1] + fixed| < TotalSize(d) + |stack|
    {
      StepSeen(d0, node, choice, d, stack, seen, done, d', fixed);
      StepStack(stack, seen, done, fixed);
      StepSingles(d0, node, choice, d, stack, seen, done, d', fixed);
      StepExplained(d0, node, choice, d, stack, seen, done, d', fixed);
      StepDone(d0, node, choice, d, stack, seen, done, d', fixed);
      assert (stack[|stack| - 1]) in seen;
      StepCausal(Fix(d0, node, choice), node, choice, stack[|stack| - 1].0, stack[|stack| - 1].1, d, seen, d', fixed);
      StepComplete(d0, node, choice, d, stack, seen, done, d', fixed);
    }

    /** The pairs a round fixes are caused by the pairs seen before them,
        and no node is fixed twice. */
    lemma StepCausal(start: seq<set<nat>>, node: nat, choice: nat, n: nat, c: nat, d: seq<set<nat>>,
                     seen: seq<(nat, nat)>, d': seq<set<nat>>, fixed: seq<(nat, nat)>)
      requires Valid() && |start| == |d| == |nodes| && n < |nodes| && (n, c) in seen
      requires Causal(start, node, choice, seen) && SeenForced(start, node, d, seen)
      requires Narrowed(start, d) && RemovalsExplained(start, d, seen)
      requires Round(d, n, c, {}, d', fixed)
      ensures Causal(start, node, choice, seen + fixed)
    {
      var seen' := seen + fixed;
      forall i | 1 <= i < |seen'| ensures Fired(start, seen'[..i], seen'[i]) {
        if i < |seen| {
          PrefixFired(start, node, choice, seen, fixed, i);
        } else {
          AppendedFired(start, n, c, d, seen, d', fixed, i - |seen|);
        }
      }
      FixedFresh(start, node, n, c, d, seen, d', fixed);
    }

    /** Appending pairs keeps the causes of the pairs already there. */
    lemma PrefixFired(start: seq<set<nat>>, node: nat, choice: nat, seen: seq<(nat, nat)>, fixed: seq<(nat, nat)>, i: nat)
      requires Valid() && |start| == |edges| && Causal(start, node, choice, seen) && 1 <= i < |seen|
      ensures Fired(start, (seen + fixed)[..i], (seen + fixed)[i])
    {
      assert (seen + fixed)[..i] == seen[..i];
      assert (seen + fixed)[i] == seen[i];
    }

    /** `FixedFired` read at its position in `seen + fixed`. */
    lemma AppendedFired(start: seq<set<nat>>, n: nat, c: nat, d: seq<set<nat>>, seen: seq<(nat, nat)>,
                        d': seq<set<nat>>, fixed: seq<(nat, nat)>, k: nat)
      requires Valid() && |start| == |d| == |nodes| && n < |nodes| && (n, c) in seen
      requires Narrowed(start, d) && RemovalsExplained(start, d, seen)
      requires Round(d, n, c, {}, d', fixed)
      requires k < |fixed|
      ensures Fired(start, (seen + fixed)[..|seen| + k], (seen + fixed)[|seen| + k])
    {
      FixedFired(start, n, c, d, seen, d', fixed, k);
      assert (seen + fixed)[..|seen| + k] == seen + fixed[..k];
      assert (seen + fixed)[|seen| + k] == fixed[k];
    }

    /** No node a round fixes was seen before, and the round fixes each
        node at most once. */
    lemma FixedFresh(start: seq<set<nat>>, node: nat, n: nat, c: nat, d: seq<set<nat>>,
                     seen: seq<(nat, nat)>, d': seq<set<nat>>, fixed: seq<(nat, nat)>)
      requires Valid() && |start| == |d| == |nodes| && n < |nodes|
      requires (forall i, j :: 0 <= i < j < |seen| ==> seen[i].0 != seen[j].0)
      requires SeenForced(start, node, d, seen)
      requires Round(d, n, c, {}, d', fixed)
      ensures forall i, j :: 0 <= i < j < |seen + fixed| ==> (seen + fixed)[i].0 != (seen + fixed)[j].0
    {
      var seen' := seen + fixed;
      forall i, j | 0 <= i < j < |seen'| ensures seen'[i].0 != seen'[j].0 {
        if j >= |seen| && i < |seen| {
          var (u, x) := fixed[j - |seen|];
          assert fixed[j - |seen|] in fixed && seen[i] in seen;
          assert c in d[u] && d'[u] == d[u] - {c} == {x};
          assert x in d'[u] && c !in d'[u];
          assert !(d[u] <= {seen[i].1});
        } else if i >= |seen| {
          assert seen'[i] == fixed[i - |seen|] && seen'[j] == fixed[j - |seen|];
        }
      }
    }

    /** The `k`-th pair a round fixes had two colours or more before the
        round, and is `Fired` by the seen pairs and the pairs fixed before it:
        the popped colour is the colour of the popped neighbour, and every
        other colour it lost earlier was the colour of a seen neighbour. */
    lemma FixedFired(start: seq<set<nat>>, n: nat, c: nat, d: seq<set<nat>>, seen: seq<(nat, nat)>,
                     d': seq<set<nat>>, fixed: seq<(nat, nat)>, k: nat)
      requires Valid() && |start| == |d| == |nodes| && n < |nodes| && (n, c) in seen
      requires Narrowed(start, d) && RemovalsExplained(start, d, seen)
      requires Round(d, n, c, {}, d', fixed)
      requires k < |fixed|
      ensures |d[fixed[k].0]| >= 2 && Fired(start, seen + fixed[..k], fixed[k])
    {
      var (u, x) := fixed[k];
      assert fixed[k] in fixed;
      assert c in d[u] && d'[u] == d[u] - {c} == {x};
      assert {c, x} <= d[u] <= start[u];
      SubsetCard({c, x}, d[u]);
      SubsetCard(d[u], start[u]);
      forall y | y in start[u] && y != x ensures exists w :: w in edges[u] && (w, y) in seen + fixed[..k] {
        if y in d[u] {
          assert y !in d[u] - {c};
          assert y == c && n in edges[u];
          assert (n, y) in seen + fixed[..k];
        } else {
          var w :| w in edges[u] && (w, y) in seen;
          assert (w, y) in seen + fixed[..k];
        }
      }
    }

    /** A node a round narrows to at most one colour is recorded as fixed,
        or was already fixed when it held only the popped colour. */
    lemma StepComplete(d0: seq<set<nat>>, node: nat, choice: nat, d: seq<set<nat>>,
                       stack: seq<(nat, nat)>, seen: seq<(nat, nat)>, done: set<(nat, nat)>,
                       d': seq<set<nat>>, fixed: seq<(nat, nat)>)
      requires Valid() && |d0| == |nodes| && node < |nodes| && stack != []
      requires Worklist(d0, node, choice, d, stack, seen, done)
      requires stack[|stack| - 1].0 < |nodes|
      requires Round(d, stack[|stack| - 1].0, stack[|stack| - 1].1, {}, d', fixed)
      ensures Complete(Fix(d0, node, choice), d', seen + fixed)
    {
      var start := Fix(d0, node, choice);
      var (n, c) := stack[|stack| - 1];
      forall u | 0 <= u < |d'| && |start[u]| >= 2 && |d'[u]| <= 1 ensures exists x :: (u, x) in seen + fixed {
        if d'[u] != d[u] {
          assert c in d[u] && d'[u] == d[u] - {c};
          if |d'[u]| == 1 {
            var x :| x in d'[u];
            assert (u, x) in fixed;
            assert (u, x) in seen + fixed;
          } else {
            assert |d[u]| == |d'[u]| + 1;
          }
        }
        var x :| (u, x) in seen || (u, x) in fixed;
        assert (u, x) in seen + fixed;
      }
    }

    lemma StepDone(d0: seq<set<nat>>, node: nat, choice: nat, d: seq<set<nat>>,
                       stack: seq<(nat, nat)>, seen: seq<(nat, nat)>, done: set<(nat, nat)>,
                       d': seq<set<nat>>, fixed: seq<(nat, nat)>)
      requires Valid() && |d0| == |nodes| && node < |nodes| && stack != []
      requires Worklist(d0, node, choice, d, stack, seen, done)
      requires stack[|stack| - 1].0 < |nodes|
      requires Round(d, stack[|stack| - 1].0, stack[|stack| - 1].1, {}, d', fixed)
      ensures |d'| == |d| && Narrowed(Fix(d0, node, choice), d')
      ensures DoneRemoved(d', done + {stack[|stack| - 1]})
      ensures TotalSize(d') + |stack[..|stack| - 1] + fixed| < TotalSize(d) + |stack|
    {
      var (n, c) := stack[|stack| - 1];
      var start := Fix(d0, node, choice);
      assert Narrowed(start, d);
      forall v | 0 <= v < |d'| ensures d'[v] <= start[v] {
        assert d'[v] <= d[v];
      }
      forall p, u | p in done + {(n, c)} && p.0 < |edges| && u in edges[p.0] ensures u < |d'| && p.1 !in d'[u] {
        if p in done {
          assert DoneRemoved(d, done);
          assert d'[u] <= d[u];
        }
      }
      assert |stack[..|stack| - 1] + fixed| == |stack| - 1 + |fixed|;
    }

    lemma StepSeen(d0: seq<set<nat>>, node: nat, choice: nat, d: seq<set<nat>>,
                       stack: seq<(nat, nat)>, seen: seq<(nat, nat)>, done: set<(nat, nat)>,
                       d': seq<set<nat>>, fixed: seq<(nat, nat)>)
      requires Valid() && |d0| == |nodes| && node < |nodes| && stack != []
      requires Worklist(d0, node, choice, d, stack, seen, done)
      requires stack[|stack| - 1].0 < |nodes|
      requires Round(d, stack[|stack| - 1].0, stack[|stack| - 1].1, {}, d', fixed)
      ensures SeenForced(Fix(d0, node, choice), node, d', seen + fixed)
    {
      var start := Fix(d0, node, choice);
      var (n, c) := stack[|stack| - 1];
      forall p | p in seen + fixed ensures p.0 < |d'| && Forces(start, node, p.0, p.1) && d'[p.0] <= {p.1} {
        if p !in seen {
          assert {c, p.1} <= start[p.0];
          SubsetCard({c, p.1}, start[p.0]);
        }
      }
    }

    lemma StepStack(stack: seq<(nat, nat)>, seen: seq<(nat, nat)>, done: set<(nat, nat)>, fixed: seq<(nat, nat)>)
      requires stack != [] && Pending(stack, seen, done)
      ensures Pending(stack[..|stack| - 1] + fixed, seen + fixed, done + {stack[|stack| - 1]})
    {
      var stack' := stack[..|stack| - 1] + fixed;
      var seen' := seen + fixed;
      forall i | 0 <= i < |stack'| ensures stack'[i] in seen' {
        if i < |stack| - 1 {
          assert stack'[i] == stack[i];
        } else {
          assert stack'[i] == fixed[i - (|stack| - 1)];
        }
      }
      forall p | p in seen' ensures p in done + {stack[|stack| - 1]} || p in stack' {
        if p in seen && p !in done && p != stack[|stack| - 1] {
          var i :| 0 <= i < |stack| && stack[i] == p;
          assert stack'[i] == p;
        } else if p !in seen {
          var i :| 0 <= i < |fixed| && fixed[i] == p;
          assert stack'[|stack| - 1 + i] == p;
        }
      }
    }

    lemma StepSingles(d0: seq<set<nat>>, node: nat, choice: nat, d: seq<set<nat>>,
                       stack: seq<(nat, nat)>, seen: seq<(nat, nat)>, done: set<(nat, nat)>,
                       d': seq<set<nat>>, fixed: seq<(nat, nat)>)
      requires Valid() && |d0| == |nodes| && node < |nodes| && stack != []
      requires Worklist(d0, node, choice, d, stack, seen, done)
      requires stack[|stack| - 1].0 < |nodes|
      requires Round(d, stack[|stack| - 1].0, stack[|stack| - 1].1, {}, d', fixed)
      ensures SinglesSeen(Fix(d0, node, choice), node, d', seen + fixed)
    {
      forall v, c' | 0 <= v < |d'| && |d'[v]| == 1 && c' in d'[v]
        ensures (v, c') in seen + fixed || (v != node && Fix(d0, node, choice)[v] == {c'})
      {
        if d'[v] != d[v] {
          assert (v, c') in fixed;
        }
      }
    }

    lemma StepExplained(d0: seq<set<nat>>, node: nat, choice: nat, d: seq<set<nat>>,
                       stack: seq<(nat, nat)>, seen: seq<(nat, nat)>, done: set<(nat, nat)>,
                       d': seq<set<nat>>, fixed: seq<(nat, nat)>)
      requires Valid() && |d0| == |nodes| && node < |nodes| && stack != []
      requires Worklist(d0, node, choice, d, stack, seen, done)
      requires stack[|stack| - 1].0 < |nodes|
      requires Round(d, stack[|stack| - 1].0, stack[|stack| - 1].1, {}, d', fixed)
      ensures RemovalsExplained(Fix(d0, node, choice), d', seen + fixed)
    {
      var (n, c) := stack[|stack| - 1];
      forall v, c' | 0 <= v < |d'| && c' in Fix(d0, node, choice)[v] && c' !in d'[v]
        ensures exists u :: u in edges[v] && (u, c') in seen + fixed
      {
        if c' in d[v] {
          assert n in edges[v] && (n, c) in seen;
        }
      }
    }

    /** The state of one round of the worklist for node `n` and colour `c`,
        with `rest` the neighbours not yet visited: visited neighbours have
        lost `c`, every visited neighbour left with one colour `x` was
        recorded as `(u, x)` in `fixed`, and the total shrank by at least the
        number of recorded nodes. */
    ghost predicate Round(d0: seq<set<nat>>, n: nat, c: nat, rest: set<nat>, d: seq<set<nat>>, fixed: seq<(nat, nat)>)
      requires Valid() && n < |nodes|
    {
      && |d| == |d0|
      && rest <= edges[n]
      && (forall u :: 0 <= u < |d| ==> d[u] == if u in edges[n] && u !in rest then d0[u] - {c} else d0[u])
      && (forall p :: p in fixed ==> p.0 in edges[n] && p.0 !in rest && p.0 < |d| && c in d0[p.0] && d[p.0] == {p.1})
      && (forall u, x :: u in edges[n] && u !in rest && u < |d| && c in d0[u] && |d[u]| == 1 && x in d[u] ==>
            (u, x) in fixed)
      && (forall i, j :: 0 <= i < j < |fixed| ==> fixed[i].0 != fixed[j].0)
      && TotalSize(d) + |fixed| <= TotalSize(d0)
    }

    /** One round of the worklist: colour `c` leaves every neighbour of `n`
        that still has it, and the neighbours left with a single colour are
        returned, each with that colour, in the order they were met. */
    method RemoveFromNeighbours(n: nat, c: nat, domain: array<set<nat>>) returns (fixed: seq<(nat, nat)>)
      requires Valid() && domain.Length == |nodes| && n < |nodes|
      modifies domain
      ensures Round(old(domain[..]), n, c, {}, domain[..], fixed)
    {
      ghost var d0 := domain[..];
      fixed := [];
      var rest := edges[n];
      while rest != {}
        invariant domain.Length == |nodes|
        invariant Round(d0, n, c, rest, domain[..], fixed)
        decreases rest
      {
        var neighbour :| neighbour in rest;
        ghost var d := domain[..];
        ghost var f := fixed;
        var sole := 0;
        if c in domain[neighbour] {
          domain[neighbour] := domain[neighbour] - {c};
          if |domain[neighbour]| == 1 {
            sole :| sole in domain[neighbour];
            fixed := fixed + [(neighbour, sole)];
          }
        }
        assert neighbour in edges[n];
        RoundStep(d0, n, c, rest, d, f, neighbour, sole, domain[..], fixed);
        rest := rest - {neighbour};
      }
    }

    /** Visiting one more neighbour keeps the round's state. */
    lemma RoundStep(d0: seq<set<nat>>, n: nat, c: nat, rest: set<nat>, d: seq<set<nat>>, fixed: seq<(nat, nat)>,
                    u: nat, sole: nat, d': seq<set<nat>>, fixed': seq<(nat, nat)>)
      requires Valid() && n < |nodes| && Round(d0, n, c, rest, d, fixed) && u in rest && u < |d|
      requires d' == if c in d[u] then d[u := d[u] - {c}] else d
      requires c in d[u] && |d'[u]| == 1 ==> sole in d'[u] && fixed' == fixed + [(u, sole)]
      requires !(c in d[u] && |d'[u]| == 1) ==> fixed' == fixed
      ensures Round(d0, n, c, rest - {u}, d', fixed')
    {
      if c in d[u] {
        TotalSizeRemove(d, u, c);
        if |d'[u]| == 1 {
          Singleton(d'[u], sole);
          forall i, j | 0 <= i < j < |fixed'| ensures fixed'[i].0 != fixed'[j].0 {
            if j == |fixed| {
              assert fixed[i] in fixed;
            }
          }
        }
      }
    }

    /** The facts the worklist leaves behind once it is empty give the
        contract of `UpdateDomain`. */
    lemma PropagationSettled(d0: seq<set<nat>>, node: nat, choice: nat, d1: seq<set<nat>>,
                             seen: seq<(nat, nat)>, done: set<(nat, nat)>)
      requires Valid() && |d0| == |nodes| && node < |nodes|
      requires Worklist(d0, node, choice, d1, [], seen, done)
      ensures Propagated(d0, node, choice, d1)
    {
      var start := Fix(d0, node, choice);
      assert forall p :: p in seen ==> p in done;
      assert Cascade(start, node, choice, seen, d1);
      forall v, u | 0 <= v < |d1| && u in edges[v] && u < |d1| && |d1[v]| == 1 && (v == node || |start[v]| != 1)
        ensures d1[v] !! d1[u]
      {
        var c :| c in d1[v];
        Singleton(d1[v], c);
        assert (v, c) in seen;
      }
      forall v, c | 0 <= v < |d1| && c in start[v] && c !in d1[v]
        ensures exists u :: u in edges[v] && u < |d1| && Forces(start, node, u, c) && d1[u] <= {c}
      {
        var u :| u in edges[v] && (u, c) in seen;
        assert u < |d1| && Forces(start, node, u, c) && d1[u] <= {c};
      }
      if ForwardChecked(d0) {
        forall v, u | 0 <= v < |d1| && u in edges[v] && u < |d1| && |d1[v]| == 1
          ensures d1[v] !! d1[u]
        {
          var c :| c in d1[v];
          Singleton(d1[v], c);
          if (v, c) !in seen {
            assert v != node && d0[v] == {c};
            if u != node {
              assert d1[u] <= d0[u];
            }
          }
        }
      }
    }

    /** When a propagated table has no empty domain, it is the only table
        `Propagated` admits: which pairs get fixed, and so which colours
        get removed, does not depend on the order of the worklist. */
    lemma PropagatedUnique(d0: seq<set<nat>>, node: nat, choice: nat, d1: seq<set<nat>>, d2: seq<set<nat>>)
      requires Valid() && |d0| == |nodes| && node < |nodes|
      requires Propagated(d0, node, choice, d1) && Propagated(d0, node, choice, d2)
      requires forall v :: 0 <= v < |d1| ==> d1[v] != {}
      ensures d1 == d2
    {
      var start := Fix(d0, node, choice);
      var s1 :| Cascade(start, node, choice, s1, d1);
      var s2 :| Cascade(start, node, choice, s2, d2);
      SeenIncluded(start, node, choice, s2, d2, s1, d1, |s2|);
      assert forall p :: p in s2 ==> p in s1;
      SeenIncluded(start, node, choice, s1, d1, s2, d2, |s1|);
      assert forall p :: p in s1 ==> p in s2;
      SameRemovals(start, node, choice, s1, d1, s2, d2);
      SameRemovals(start, node, choice, s2, d2, s1, d1);
      forall v | 0 <= v < |d1| ensures d1[v] == d2[v] {
        assert d1[v] <= d2[v] && d2[v] <= d1[v];
      }
    }

    /** Whether some domain runs empty, which is all the search asks of a
        table that is not feasible, is the same for every table
        `Propagated` admits. */
    lemma PropagatedEmptiesAgree(d0: seq<set<nat>>, node: nat, choice: nat, d1: seq<set<nat>>, d2: seq<set<nat>>)
      requires Valid() && |d0| == |nodes| && node < |nodes|
      requires Propagated(d0, node, choice, d1) && Propagated(d0, node, choice, d2)
      ensures (forall v :: 0 <= v < |d1| ==> d1[v] != {}) <==> (forall v :: 0 <= v < |d2| ==> d2[v] != {})
    {
      if forall v :: 0 <= v < |d1| ==> d1[v] != {} {
        PropagatedUnique(d0, node, choice, d1, d2);
      } else if forall v :: 0 <= v < |d2| ==> d2[v] != {} {
        PropagatedUnique(d0, node, choice, d2, d1);
      }
    }

    /** The first `i` pairs of one cascade are fixed in another, provided the
        other table has no empty domain or fixes nothing the first does not. */
    lemma {:induction false} SeenIncluded(start: seq<set<nat>>, node: nat, choice: nat,
                                          s1: seq<(nat, nat)>, d1: seq<set<nat>>,
                                          s2: seq<(nat, nat)>, d2: seq<set<nat>>, i: nat)
      requires Valid() && |start| == |edges| && |d1| == |start| && |d2| == |start|
      requires Causal(start, node, choice, s1) && s2 != [] && s2[0] == (node, choice)
      requires forall p :: p in s2 ==> p.0 < |d2| && d2[p.0] <= {p.1}
      requires forall p, v :: p in s2 && p.0 < |edges| && v in edges[p.0] ==> v < |d2| && p.1 !in d2[v]
      requires Complete(start, d2, s2)
      requires forall v :: 0 <= v < |d2| ==> d2[v] <= start[v]
      requires (forall v :: 0 <= v < |d2| ==> d2[v] != {}) || (forall p :: p in s2 ==> p in s1)
      requires i <= |s1|
      ensures forall k :: 0 <= k < i ==> s1[k] in s2
      decreases i
    {
      if i > 0 {
        SeenIncluded(start, node, choice, s1, d1, s2, d2, i - 1);
        if i - 1 == 0 {
          assert s1[0] == s2[0];
        } else {
          assert Fired(start, s1[..i - 1], s1[i - 1]);
          FiredNarrows(start, s1, s2, d2, i - 1);
          NarrowedSeen(start, s1, s2, d2, i - 1);
        }
      }
    }

    /** A pair fired by pairs all fixed in a cascade leaves its node at most
        its colour in that cascade's table. */
    lemma FiredNarrows(start: seq<set<nat>>, s1: seq<(nat, nat)>, s2: seq<(nat, nat)>, d2: seq<set<nat>>, i: nat)
      requires Valid() && |start| == |edges| && |d2| == |start| && 1 <= i < |s1|
      requires Fired(start, s1[..i], s1[i])
      requires forall k :: 0 <= k < i ==> s1[k] in s2
      requires forall p, v :: p in s2 && p.0 < |edges| && v in edges[p.0] ==> v < |d2| && p.1 !in d2[v]
      requires forall v :: 0 <= v < |d2| ==> d2[v] <= start[v]
      ensures s1[i].0 < |d2| && d2[s1[i].0] <= {s1[i].1}
    {
      var (u, x) := s1[i];
      forall y | y in start[u] && y != x ensures y !in d2[u] {
        var w :| w in edges[u] && (w, y) in s1[..i];
        var m :| 0 <= m < i && s1[..i][m] == (w, y);
        assert s1[m] == (w, y);
        assert u in edges[w];
      }
    }

    /** A node of at least two colours that a cascade's table leaves at most
        the colour `x` is fixed to `x` there, given that table has no empty
        domain or that the pairs it fixes are among those of `s1`. */
    lemma NarrowedSeen(start: seq<set<nat>>, s1: seq<(nat, nat)>, s2: seq<(nat, nat)>, d2: seq<set<nat>>, i: nat)
      requires |d2| == |start| && i < |s1| && s1[i].0 < |d2| && d2[s1[i].0] <= {s1[i].1}
      requires |start[s1[i].0]| >= 2
      requires Complete(start, d2, s2)
      requires forall p :: p in s2 ==> p.0 < |d2| && d2[p.0] <= {p.1}
      requires forall i, j :: 0 <= i < j < |s1| ==> s1[i].0 != s1[j].0
      requires (forall v :: 0 <= v < |d2| ==> d2[v] != {}) || (forall p :: p in s2 ==> p in s1)
      ensures s1[i] in s2
    {
      var (u, x) := s1[i];
      SubsetCard(d2[u], {x});
      var x' :| (u, x') in s2;
      if forall v :: 0 <= v < |d2| ==> d2[v] != {} {
        assert d2[u] == {x} && d2[u] <= {x'};
      } else {
        var j :| 0 <= j < |s1| && s1[j] == (u, x');
        assert s1[j].0 == s1[i].0;
      }
    }

    /** With the pairs of `s1` all fixed in `s2`, the table `d2` of `s2`
        holds no colour that `d1` lost. */
    lemma SameRemovals(start: seq<set<nat>>, node: nat, choice: nat,
                       s1: seq<(nat, nat)>, d1: seq<set<nat>>, s2: seq<(nat, nat)>, d2: seq<set<nat>>)
      requires Valid() && |start| == |edges| && |d1| == |start| && |d2| == |start|
      requires Cascade(start, node, choice, s1, d1) && Cascade(start, node, choice, s2, d2)
      requires forall v :: 0 <= v < |d2| ==> d2[v] <= start[v]
      requires forall p :: p in s1 ==> p in s2
      ensures forall v :: 0 <= v < |d2| ==> d2[v] <= d1[v]
    {
      forall v, c | 0 <= v < |d2| && c in start[v] && c !in d1[v] ensures c !in d2[v] {
        var u :| u in edges[v] && (u, c) in s1;
        assert v in edges[u] && (u, c) in s2;
      }
    }

    /** The colours already forced: the sole colour of every node whose
        domain is a single colour. */
    function Required(d: seq<set<nat>>): (r: set<nat>)
      ensures forall c :: c in r <==> exists v :: 0 <= v < |d| && d[v] == {c}
    {
      if |d| == 0 then {}
      else
        var last := d[|d| - 1];
        assert forall v :: 0 <= v < |d| - 1 ==> d[..|d| - 1][v] == d[v];
        if |last| == 1 then
          SingletonAll(last);
          Required(d[..|d| - 1]) + last
        else
          Required(d[..|d| - 1])
    }

    /** There are no more forced colours than nodes. */
    lemma {:induction false} RequiredCard(d: seq<set<nat>>)
      ensures |Required(d)| <= |d|
    {
      if |d| > 0 {
        RequiredCard(d[..|d| - 1]);
      }
    }

    /** Collects the sole colour of every singleton domain, node by node. */
    method GetRequiredSet(d: seq<set<nat>>) returns (s: set<nat>)
      ensures s == Required(d)
    {
      s := {};
      for i := 0 to |d|
        invariant s == Required(d[..i])
      {
        assert d[..i + 1][..i] == d[..i];
        if |d[i]| == 1 {
          var c :| c in d[i];
          Singleton(d[i], c);
          s := s + {c};
        }
      }
      assert d[..|d|] == d;
    }

    /** A table is worth exploring when no node has run out of colours and
        the forced colours do not already exceed the bound. */
    method DomainIsFeasible(d: seq<set<nat>>, lowerBound: nat) returns (ok: bool)
      ensures ok <==> (forall v :: 0 <= v < |d| ==> d[v] != {}) && |Required(d)| <= lowerBound
    {
      for i := 0 to |d|
        invariant forall v :: 0 <= v < i ==> d[v] != {}
      {
        if |d[i]| == 0 {
          return false;
        }
      }
      var required := GetRequiredSet(d);
      if |required| > lowerBound {
        return false;
      }
      return true;
    }

    /** Reads a colouring off a table where every node has exactly one colour. */
    method GetSolution(d: seq<set<nat>>) returns (solution: seq<nat>)
      requires Valid() && |d| == |nodes|
      requires forall v :: 0 <= v < |d| ==> |d[v]| == 1
      ensures |solution| == |nodes| && forall v :: 0 <= v < |d| ==> d[v] == {solution[v]}
    {
      solution := [];
      for i := 0 to |nodes|
        invariant |solution| == i && forall v :: 0 <= v < i ==> d[v] == {solution[v]}
      {
        var c :| c in d[nodes[i]];
        Singleton(d[nodes[i]], c);
        solution := solution + [c];
      }
    }

    /** Neighbouring nodes get different colours, and every colour is below
        the number of nodes. */
    ghost predicate IsColouring(solution: seq<nat>)
    {
      && |solution| == |edges|
      && (forall v, u :: 0 <= v < |solution| && u in edges[v] && u < |solution| ==> solution[v] != solution[u])
      && (forall v :: 0 <= v < |solution| ==> solution[v] < |edges|)
    }

    /** A forward-checked table with one colour per node reads off as a colouring. */
    lemma SolutionIsColouring(d: seq<set<nat>>, solution: seq<nat>)
      requires Valid() && ForwardChecked(d)
      requires |solution| == |d| && forall v :: 0 <= v < |d| ==> d[v] == {solution[v]}
      requires forall v, c :: 0 <= v < |d| && c in d[v] ==> c < |nodes|
      ensures IsColouring(solution)
    {
      forall v, u | 0 <= v < |solution| && u in edges[v] && u < |solution|
        ensures solution[v] != solution[u]
      {
        assert d[v] !! d[u];
      }
    }

    /** Whether `a` comes before `b` in the search order: higher degree first,
        and among equal degrees the smaller node first, as a stable sort of
        `0 .. n-1` by descending degree places them. */
    predicate Precedes(a: nat, b: nat)
      requires a < |edges| && b < |edges|
    {
      |edges[a]| > |edges[b]| || (|edges[a]| == |edges[b]| && a <= b)
    }

    ghost predicate InRange(s: seq<nat>)
    {
      forall i :: 0 <= i < |s| ==> s[i] < |edges|
    }

    ghost predicate Ordered(s: seq<nat>)
    {
      InRange(s) && forall i :: 0 < i < |s| ==> Precedes(s[i - 1], s[i])
    }

    /** Places `x` into an ordered sequence. */
    function Insert(x: nat, s: seq<nat>): (r: seq<nat>)
      requires x < |edges| && InRange(s)
      ensures multiset(r) == multiset(s) + multiset{x}
      ensures |r| == |s| + 1 && (r[0] == x || (s != [] && r[0] == s[0]))
      ensures InRange(r)
      ensures Ordered(s) ==> Ordered(r)
    {
      if s == [] then [x]
      else if Precedes(x, s[0]) then [x] + s
      else
        assert s == [s[0]] + s[1..];
        var rest := Insert(x, s[1..]);
        assert Ordered(s) ==> Ordered(s[1..]) && Precedes(s[0], rest[0]);
        [s[0]] + rest
    }

    /** The nodes in search order: a permutation of the input, ordered by
        `Precedes`. */
    function Sort(s: seq<nat>): (r: seq<nat>)
      requires InRange(s)
      ensures multiset(r) == multiset(s) && Ordered(r)
    {
      if s == [] then []
      else
        assert s == [s[0]] + s[1..];
        Insert(s[0], Sort(s[1..]))
    }

    /** Along an ordered sequence, every node precedes all later ones; in
        particular degrees never increase. */
    lemma {:induction false} OrderedPairs(s: seq<nat>)
      requires Ordered(s)
      ensures forall i, j :: 0 <= i < j < |s| ==> Precedes(s[i], s[j]) && |edges[s[i]]| >= |edges[s[j]]|
    {
      if |s| > 1 {
        OrderedPairs(s[1..]);
        forall i, j | 0 <= i < j < |s| ensures Precedes(s[i], s[j]) {
          if i > 0 {
            assert s[i] == s[1..][i - 1] && s[j] == s[1..][j - 1];
          } else if j > 1 {
            assert s[1] == s[1..][0] && s[j] == s[1..][j - 1];
          }
        }
      }
    }

    /** The search order holds every node exactly once. */
    lemma SortCovers(order: seq<nat>)
      requires Valid() && multiset(order) == multiset(nodes)
      ensures |order| == |nodes|
      ensures forall v :: 0 <= v < |nodes| ==> v in order
      ensures forall i :: 0 <= i < |order| ==> order[i] < |nodes|
    {
      assert |multiset(order)| == |multiset(nodes)|;
      forall v | 0 <= v < |nodes| ensures v in order {
        assert nodes[v] == v;
        assert v in multiset(nodes);
      }
      forall i | 0 <= i < |order| ensures order[i] < |nodes| {
        assert order[i] in multiset(order);
        assert order[i] in nodes;
      }
    }

    /** A frame at depth `j`: a forward-checked table over all nodes in which
        no node has run out of colours, every colour is below the number of
        nodes, the nodes visited before depth `j` each hold one colour, and
        the frame's choices lie in the domain of the node at depth `j`. */
    ghost predicate FrameOk(order: seq<nat>, j: nat, f: Step)
      requires Valid() && |order| == |nodes|
    {
      && j < |order|
      && |f.domain| == |nodes|
      && ForwardChecked(f.domain)
      && (forall v :: 0 <= v < |f.domain| ==> f.domain[v] != {})
      && (forall v, c :: 0 <= v < |f.domain| && c in f.domain[v] ==> c < |nodes|)
      && (forall i :: 0 <= i < j ==> order[i] < |f.domain| && |f.domain[order[i]]| == 1)
      && order[j] < |nodes|
      && f.choices <= f.domain[order[j]]
    }

    /** The search stack: at most one frame per node, each well formed for
        its depth, and a top frame with a choice left to try. */
    ghost predicate SearchStack(order: seq<nat>, stack: seq<Step>)
      requires Valid() && |order| == |nodes|
    {
      && Frames(order, stack)
      && (stack != [] ==> stack[|stack| - 1].choices != {})
    }

    /** At most one frame per node, each well formed for its depth. */
    ghost predicate Frames(order: seq<nat>, stack: seq<Step>)
      requires Valid() && |order| == |nodes|
    {
      && |stack| <= |nodes|
      && (forall j :: 0 <= j < |stack| ==> FrameOk(order, j, stack[j]))
    }

    /** Taking one choice from the top frame keeps the frames well formed. */
    lemma ChoiceTaken(order: seq<nat>, stack: seq<Step>, choice: nat, stack': seq<Step>)
      requires Valid() && |order| == |nodes| && SearchStack(order, stack) && stack != []
      requires choice in stack[|stack| - 1].choices
      requires stack' == stack[..|stack| - 1] + [Step(stack[|stack| - 1].choices - {choice}, stack[|stack| - 1].domain)]
      ensures |stack'| == |stack| && Frames(order, stack')
    {
      assert stack'[..|stack| - 1] == stack[..|stack| - 1];
      forall j | 0 <= j < |stack'| ensures FrameOk(order, j, stack'[j]) {
        if j < |stack| - 1 {
          assert stack'[j] == stack[j];
        } else {
          assert FrameOk(order, j, stack[j]);
        }
      }
    }

    /** Pushing a well-formed frame with at most `n` choices on top of a
        stack with one fewer unit of work keeps less work than before. */
    lemma FramePushed(order: seq<nat>, stack: seq<Step>, f: Step, bound: nat)
      requires Valid() && |order| == |nodes| && Frames(order, stack) && |stack| < |nodes|
      requires FrameOk(order, |stack|, f) && stack != []
      requires Remaining(stack, |nodes|) + Pow(|nodes| + 1, |nodes| - |stack|) == bound
      ensures Frames(order, stack + [f]) && Remaining(stack + [f], |nodes|) < bound
    {
      var n := |nodes|;
      var w := Pow(n + 1, n - |stack| - 1);
      assert Pow(n + 1, n - |stack|) == Scale(n + 1, w);
      forall c | c in f.choices ensures c < n {
        assert c in f.domain[order[|stack|]];
      }
      BelowCard(f.choices, n);
      ScaleLess(|f.choices|, n + 1, w);
      assert (stack + [f])[..|stack|] == stack;
      forall j | 0 <= j < |stack| + 1 ensures FrameOk(order, j, (stack + [f])[j]) {
        if j < |stack| {
          assert (stack + [f])[j] == stack[j];
        }
      }
    }

    /** Dropping an exhausted top frame changes neither the work left nor the
        well-formedness of the rest. */
    lemma FramePopped(order: seq<nat>, stack: seq<Step>)
      requires Valid() && |order| == |nodes| && Frames(order, stack) && stack != []
      requires stack[|stack| - 1].choices == {}
      ensures Frames(order, stack[..|stack| - 1])
      ensures Remaining(stack[..|stack| - 1], |nodes|) == Remaining(stack, |nodes|)
    {
      var rest := stack[..|stack| - 1];
      forall j | 0 <= j < |rest| ensures FrameOk(order, j, rest[j]) {
        assert rest[j] == stack[j];
      }
    }

    /** Accepting a leaf keeps the record of the best solution. */
    lemma Recorded(best: Option<seq<nat>>, lowerBound: nat, lowerBoundSum: nat, history: seq<(nat, nat)>,
                   solution: seq<nat>)
      requires BestSoFar(best, lowerBound, lowerBoundSum, history) && IsColouring(solution)
      requires Accepts(best, lowerBound, lowerBoundSum, |Elems(solution)|, Sum(solution))
      ensures BestSoFar(Some(solution), |Elems(solution)|, Sum(solution), history + [(|Elems(solution)|, Sum(solution))])
    {
    }

    /** The best solution so far, its bound pair and the pairs recorded. */
    ghost predicate BestSoFar(best: Option<seq<nat>>, lowerBound: nat, lowerBoundSum: nat, history: seq<(nat, nat)>)
    {
      && Descending(history)
      && (best.None? <==> history == [])
      && (best.None? ==> lowerBound == |nodes|)
      && (best.Some? ==>
            && IsColouring(best.value)
            && lowerBound == |Elems(best.value)|
            && lowerBoundSum == Sum(best.value)
            && history[|history| - 1] == (lowerBound, lowerBoundSum))
    }

    /** At the last depth every other node already holds one colour, so
        propagation removes nothing and leaves one colour per node. */
    lemma LeafSolved(order: seq<nat>, d0: seq<set<nat>>, choices: set<nat>, choice: nat, d1: seq<set<nat>>)
      requires Valid() && LoopFree() && |order| == |nodes| >= 1
      requires forall v :: 0 <= v < |nodes| ==> v in order
      requires FrameOk(order, |nodes| - 1, Step(choices, d0)) && choice in choices
      requires Narrowing(d0, order[|nodes| - 1], choice, d1)
      ensures |d1| == |nodes|
      ensures forall v :: 0 <= v < |d1| ==> |d1[v]| == 1
      ensures ForwardChecked(d1)
      ensures forall v, c :: 0 <= v < |d1| && c in d1[v] ==> c < |nodes|
    {
      var node := order[|nodes| - 1];
      var start := Fix(d0, node, choice);
      forall u | 0 <= u < |nodes| && u != node ensures |start[u]| == 1 {
        assert u in order;
        var i :| 0 <= i < |order| && order[i] == u;
      }
      forall v | 0 <= v < |d1| ensures |d1[v]| == 1 {
        var a :| a in start[v];
        Singleton(start[v], a);
        forall u | u in edges[v] ensures !Forces(start, node, u, a) {
          if u == node {
            assert d0[v] !! d0[node];
          }
        }
        assert a in d1[v];
        assert d1[v] == {a};
      }
    }

    /** A frame pushed after a feasible propagation is well formed one level
        deeper. */
    lemma PushOk(order: seq<nat>, j: nat, d0: seq<set<nat>>, choices: set<nat>, choice: nat,
                 d1: seq<set<nat>>, next: set<nat>)
      requires Valid() && |order| == |nodes| && j + 1 < |nodes|
      requires FrameOk(order, j, Step(choices, d0)) && choice in choices
      requires Narrowing(d0, order[j], choice, d1)
      requires forall v :: 0 <= v < |d1| ==> d1[v] != {}
      requires order[j + 1] < |nodes| && next <= d1[order[j + 1]]
      ensures FrameOk(order, j + 1, Step(next, d1))
    {
      var start := Fix(d0, order[j], choice);
      forall v | 0 <= v < |d1| && |start[v]| == 1 ensures |d1[v]| == 1 {
        var a :| a in d1[v];
        Singleton(start[v], a);
        assert d1[v] == {a};
      }
    }

    /** The node fixed by a propagation keeps exactly its colour unless its
        domain ran empty. */
    lemma FixedKept(d0: seq<set<nat>>, node: nat, choice: nat, d1: seq<set<nat>>)
      requires Valid() && |d0| == |nodes| && node < |nodes|
      requires Narrowing(d0, node, choice, d1) && d1[node] != {}
      ensures d1[node] == {choice}
    {
    }

    /** Copies a frame's table and propagates fixing `node` to `choice` on
        the copy, so the frame's own table stays as it was. */
    method PropagateCopy(d: seq<set<nat>>, node: nat, choice: nat) returns (d1: seq<set<nat>>)
      requires Valid() && |d| == |nodes| && node < |nodes|
      ensures Propagated(d, node, choice, d1)
    {
      var domain := new set<nat>[|d|](v => if 0 <= v < |d| then d[v] else {});
      assert domain[..] == d;
      UpdateDomain(node, choice, domain);
      d1 := domain[..];
    }

    /** At a leaf, after the choice `m0` was taken: reads off the colouring
        and judges it as `Judged` says, keeping it as the best with its
        (colours, sum) pair when `Accepts` holds. The best-so-far record
        gains that pair, and the bound never goes up. */
    method ConsiderLeaf(order: seq<nat>, s: Search, m0: Move, ghost history: seq<(nat, nat)>)
      returns (judged: Search, m: Move)
      requires SearchOrder(order) && SearchStack(order, s.stack) && |s.stack| == |nodes|
      requires Chosen(order, s, m0)
      requires BestSoFar(s.best, s.lowerBound, s.lowerBoundSum, history)
      ensures m.choice == m0.choice && m.domain == m0.domain
      ensures IsColouring(m.solution) && Decided(s, m, judged)
      ensures BestSoFar(judged.best, judged.lowerBound, judged.lowerBoundSum, history + Gain(s, judged))
      ensures judged.best.Some? && judged.lowerBound <= s.lowerBound
    {
      var top := s.stack[|nodes| - 1];
      assert FrameOk(order, |nodes| - 1, top);
      LeafSolved(order, top.domain, top.choices, m0.choice, m0.domain);
      var solution := GetSolution(m0.domain);
      SolutionIsColouring(m0.domain, solution);
      m := m0.(solution := solution);
      judged := Judge(s, solution, history);
    }

    /** Compares a leaf's colouring with the best so far: it replaces the
        best, with its (colours, sum) pair, exactly when `Accepts` holds, and
        the record gains that pair. */
    method Judge(s: Search, solution: seq<nat>, ghost history: seq<(nat, nat)>) returns (judged: Search)
      requires Valid() && IsColouring(solution)
      requires BestSoFar(s.best, s.lowerBound, s.lowerBoundSum, history)
      ensures judged.stack == s.stack
      ensures if Accepts(s.best, s.lowerBound, s.lowerBoundSum, |Elems(solution)|, Sum(solution))
              then judged.best == Some(solution) && judged.lowerBound == |Elems(solution)| && judged.lowerBoundSum == Sum(solution)
              else Kept(s, judged)
      ensures BestSoFar(judged.best, judged.lowerBound, judged.lowerBoundSum, history + Gain(s, judged))
      ensures judged.best.Some? && judged.lowerBound <= s.lowerBound
    {
      var lowest := |Elems(solution)|;
      var lowestSum := Sum(solution);
      forall c | c in Elems(solution) ensures c < |nodes| {
        var v :| 0 <= v < |solution| && solution[v] == c;
      }
      BelowCard(Elems(solution), |nodes|);
      if Accepts(s.best, s.lowerBound, s.lowerBoundSum, lowest, lowestSum) {
        Recorded(s.best, s.lowerBound, s.lowerBoundSum, history, solution);
        judged := Search(s.stack, Some(solution), lowest, lowestSum);
        assert judged.best != s.best;
      } else {
        judged := s;
      }
    }

    /** Below a leaf: when the propagated table is feasible, builds the frame
        for the next node, whose choices are `NextChoices` of the forced
        colours. */
    method ChildFrame(order: seq<nat>, depth: nat, top: Step, choice: nat, d1: seq<set<nat>>, lowerBound: nat)
      returns (push: bool, child: Step)
      requires Valid() && |order| == |nodes| && depth + 1 < |nodes|
      requires forall i :: 0 <= i < |order| ==> order[i] < |nodes|
      requires FrameOk(order, depth, top) && choice in top.choices
      requires Narrowing(top.domain, order[depth], choice, d1)
      ensures push <==> (forall v :: 0 <= v < |d1| ==> d1[v] != {}) && |Required(d1)| <= lowerBound
      ensures push ==> Required(d1) != {} && child == Step(NextChoices(Required(d1), lowerBound, d1[order[depth + 1]]), d1)
      ensures push ==> FrameOk(order, depth + 1, child)
    {
      push := DomainIsFeasible(d1, lowerBound);
      child := Step({}, d1);
      if push {
        var next := order[depth + 1];
        FixedKept(top.domain, order[depth], choice, d1);
        var required := GetRequiredSet(d1);
        assert d1[order[depth]] == {choice};
        var choices := NextChoices(required, lowerBound, d1[next]);
        PushOk(order, depth, top.domain, top.choices, choice, d1, choices);
        child := Step(choices, d1);
      }
    }

    /** The search starts with one frame: every node may take any colour
        below the number of nodes, and the first node tries colour 0. */
    lemma InitialFrame(order: seq<nat>, stack: seq<Step>)
      requires Valid() && LoopFree() && |order| == |nodes| >= 1
      requires forall i :: 0 <= i < |order| ==> order[i] < |nodes|
      requires stack == [Step({0}, seq(|nodes|, _ => Range(|nodes|)))]
      ensures SearchStack(order, stack)
    {
      RangeCard(|nodes|);
      assert FrameOk(order, 0, stack[0]);
    }

    /** The search visits every node once, in `order`, on a valid loop-free
        graph with at least one node. */
    ghost predicate SearchOrder(order: seq<nat>)
    {
      && Valid() && LoopFree() && |order| == |nodes| >= 1
      && (forall v :: 0 <= v < |nodes| ==> v in order)
      && (forall i :: 0 <= i < |order| ==> order[i] < |nodes|)
    }

    /** One turn of the search loop: take a choice from the top frame, fix
        the frame's node to it on a copy of the frame's table, then either
        judge the leaf or push a child frame when the table stays feasible,
        and finally drop the frames that have no choice left. The new state
        is the one `Turn` gives under the decisions `m`; the stack stays well
        formed, the best-so-far record gains the pair of a new best, the
        bound never goes up, and the work left strictly decreases. */
    method SearchStep(order: seq<nat>, s: Search, ghost history: seq<(nat, nat)>) returns (s': Search, m: Move)
      requires SearchOrder(order)
      requires SearchStack(order, s.stack) && s.stack != []
      requires BestSoFar(s.best, s.lowerBound, s.lowerBoundSum, history)
      ensures Turn(order, s, m, s')
      ensures SearchStack(order, s'.stack)
      ensures BestSoFar(s'.best, s'.lowerBound, s'.lowerBoundSum, history + Gain(s, s'))
      ensures (s'.best.Some? <==> s.best.Some? || |s.stack| == |nodes|) && s'.lowerBound <= s.lowerBound
      ensures Remaining(s'.stack, |nodes|) < Remaining(s.stack, |nodes|)
    {
      var judged, pushed;
      judged, pushed, m := Advance(order, s, history);
      var stack' := Backtrack(order, pushed);
      s' := judged.(stack := stack');
      assert Gain(s, s') == Gain(s, judged);
      assert Decided(s, m, s') by {
        assert Decided(s, m, judged);
      }
    }

    /** The part of a turn before backtracking: takes a choice, then
        judges the leaf or pushes the child frame as `Grown` says. */
    method Advance(order: seq<nat>, s: Search, ghost history: seq<(nat, nat)>)
      returns (judged: Search, pushed: seq<Step>, m: Move)
      requires SearchOrder(order)
      requires SearchStack(order, s.stack) && s.stack != []
      requires BestSoFar(s.best, s.lowerBound, s.lowerBoundSum, history)
      ensures Chosen(order, s, m) && Decided(s, m, judged)
      ensures pushed == Grown(order, Popped(s.stack, m.choice), m.domain, s.lowerBound)
      ensures Frames(order, pushed) && Remaining(pushed, |nodes|) < Remaining(s.stack, |nodes|)
      ensures BestSoFar(judged.best, judged.lowerBound, judged.lowerBoundSum, history + Gain(s, judged))
      ensures (judged.best.Some? <==> s.best.Some? || |s.stack| == |nodes|) && judged.lowerBound <= s.lowerBound
    {
      var popped;
      m, popped := Pick(order, s);
      if |s.stack| == |nodes| {
        judged, m := ConsiderLeaf(order, s, m, history);
        LeafTurn(order, s, m);
        pushed := popped;
      } else {
        pushed := Descend(order, s, m, popped);
        judged := s;
        assert history + Gain(s, judged) == history;
      }
    }

    /** Pops a choice from the top frame and propagates it on a copy of the
        frame's table: the choice is `Chosen`, the popped stack keeps its
        frames well formed, and the work left drops by one unit of the top
        frame's weight. */
    method Pick(order: seq<nat>, s: Search) returns (m: Move, popped: seq<Step>)
      requires SearchOrder(order)
      requires SearchStack(order, s.stack) && s.stack != []
      ensures Chosen(order, s, m) && m.solution == []
      ensures popped == Popped(s.stack, m.choice) && Frames(order, popped)
      ensures Remaining(popped, |nodes|) + Pow(|nodes| + 1, |nodes| - |popped|) == Remaining(s.stack, |nodes|)
    {
      var choice;
      choice, popped := PopChoice(order, s.stack);
      var depth := |s.stack| - 1;
      var top := s.stack[depth];
      assert FrameOk(order, depth, top);
      var newDomain := PropagateCopy(top.domain, order[depth], choice);
      m := Move(choice, newDomain, []);
    }

    /** Takes one of the top frame's choices out of it: the frames stay well
        formed, and the work left drops by one unit of the top frame's
        weight. */
    method PopChoice(order: seq<nat>, stack: seq<Step>) returns (choice: nat, popped: seq<Step>)
      requires Valid() && |order| == |nodes| && SearchStack(order, stack) && stack != []
      ensures choice in stack[|stack| - 1].choices
      ensures popped == Popped(stack, choice) && Frames(order, popped)
      ensures Remaining(popped, |nodes|) + Pow(|nodes| + 1, |nodes| - |popped|) == Remaining(stack, |nodes|)
    {
      choice :| choice in stack[|stack| - 1].choices;
      popped := Popped(stack, choice);
      ChoiceTaken(order, stack, choice, popped);
      ChoiceWork(stack, |nodes|, choice, popped);
    }

    /** At a leaf the stack is full, so nothing is pushed. */
    lemma LeafTurn(order: seq<nat>, s: Search, m: Move)
      requires SearchOrder(order) && |s.stack| == |nodes| && Chosen(order, s, m)
      ensures Grown(order, Popped(s.stack, m.choice), m.domain, s.lowerBound) == Popped(s.stack, m.choice)
    {
    }

    /** Below the last depth, after the choice `m` was popped from the top
        frame: pushes the child frame for the next node when the propagated
        table is feasible, and otherwise leaves the popped stack as it is,
        which is `Grown`. Either way the frames stay well formed and the work
        left drops below what it was before the choice was popped. */
    method Descend(order: seq<nat>, s: Search, m: Move, popped: seq<Step>) returns (pushed: seq<Step>)
      requires SearchOrder(order) && SearchStack(order, s.stack) && 1 <= |s.stack| < |nodes|
      requires Chosen(order, s, m) && popped == Popped(s.stack, m.choice) && Frames(order, popped)
      requires Remaining(popped, |nodes|) + Pow(|nodes| + 1, |nodes| - |popped|) == Remaining(s.stack, |nodes|)
      ensures pushed == Grown(order, popped, m.domain, s.lowerBound)
      ensures Frames(order, pushed) && Remaining(pushed, |nodes|) < Remaining(s.stack, |nodes|)
    {
      var depth := |s.stack| - 1;
      var top := s.stack[depth];
      assert FrameOk(order, depth, top);
      assert |popped| == depth + 1;
      var push, child := ChildFrame(order, depth, top, m.choice, m.domain, s.lowerBound);
      assert push <==> Feasible(m.domain, s.lowerBound);
      if push {
        FramePushed(order, popped, child, Remaining(s.stack, |nodes|));
        pushed := popped + [child];
      } else {
        pushed := popped;
      }
    }

    /** Drops the frames that have no choice left, from the top down: the
        result is `Backtracked` from the stack, well formed, and leaves the
        work unchanged. */
    method Backtrack(order: seq<nat>, stack: seq<Step>) returns (stack': seq<Step>)
      requires Valid() && |order| == |nodes| && Frames(order, stack)
      ensures Backtracked(stack, stack') && SearchStack(order, stack')
      ensures Remaining(stack', |nodes|) == Remaining(stack, |nodes|)
    {
      stack' := stack;
      while stack' != [] && stack'[|stack'| - 1].choices == {}
        invariant Frames(order, stack') && stack' <= stack
        invariant forall j :: |stack'| <= j < |stack| ==> stack[j].choices == {}
        invariant Remaining(stack', |nodes|) == Remaining(stack, |nodes|)
        decreases |stack'|
      {
        FramePopped(order, stack');
        stack' := stack'[..|stack'| - 1];
      }
    }

    /** The stack after a turn below the last depth, before backtracking:
        the child frame for the next node is pushed when the propagated table
        `d1` is feasible. (A feasible table after a propagation always has a
        forced colour, the fixed node's, so `NextChoices` applies.) */
    ghost function Grown(order: seq<nat>, stack: seq<Step>, d1: seq<set<nat>>, lowerBound: nat): seq<Step>
      requires SearchOrder(order) && |d1| == |nodes|
    {
      if |stack| < |nodes| && Feasible(d1, lowerBound) && Required(d1) != {} then
        stack + [Step(NextChoices(Required(d1), lowerBound, d1[order[|stack|]]), d1)]
      else stack
    }

    /** No node has run out of colours and there are at most `lowerBound`
        forced colours. */
    ghost predicate Feasible(d: seq<set<nat>>, lowerBound: nat)
    {
      (forall v :: 0 <= v < |d| ==> d[v] != {}) && |Required(d)| <= lowerBound
    }

    /** One turn of the search loop from `s` to `s'` under the decisions
        `m`: the choice is `Chosen`, the best is `Decided`, and the stack is
        what `Grown` pushes, `Backtracked`. */
    ghost predicate Turn(order: seq<nat>, s: Search, m: Move, s': Search)
      requires SearchOrder(order)
    {
      && Chosen(order, s, m)
      && Decided(s, m, s')
      && Backtracked(Grown(order, Popped(s.stack, m.choice), m.domain, s.lowerBound), s'.stack)
    }

    /** `m.choice` is one of the top frame's choices and `m.domain` is the
        frame's table after fixing the frame's node to it and propagating. */
    ghost predicate Chosen(order: seq<nat>, s: Search, m: Move)
      requires SearchOrder(order)
      ensures Chosen(order, s, m) ==> |m.domain| == |nodes|
    {
      && 1 <= |s.stack| <= |nodes|
      && m.choice in s.stack[|s.stack| - 1].choices
      && |s.stack[|s.stack| - 1].domain| == |nodes|
      && Propagated(s.stack[|s.stack| - 1].domain, order[|s.stack| - 1], m.choice, m.domain)
    }

    /** A leaf (a stack with one frame per node) is judged on the colouring
        `m.solution` read off the propagated table; a turn below a leaf
        keeps the best. */
    ghost predicate Decided(s: Search, m: Move, s': Search)
    {
      if |s.stack| == |nodes| then Judged(s, m.solution, m.domain, s') else Kept(s, s')
    }

    /** A run of the search: `trace` holds the state before every turn and
        after the last, `moves` the decisions of each turn, each step is a
        `Turn`, and the bound never goes up. */
    ghost predicate Run(order: seq<nat>, trace: seq<Search>, moves: seq<Move>)
      requires SearchOrder(order)
    {
      && |trace| == |moves| + 1
      && (forall i :: 0 <= i < |moves| ==> Turn(order, trace[i], moves[i], trace[i + 1]))
      && (forall i :: 0 <= i < |moves| ==> trace[i + 1].lowerBound <= trace[i].lowerBound)
    }

    /** A run followed by one more turn is a run. */
    lemma RunExtended(order: seq<nat>, trace: seq<Search>, moves: seq<Move>, m: Move, s': Search)
      requires SearchOrder(order) && Run(order, trace, moves)
      requires Turn(order, trace[|trace| - 1], m, s') && s'.lowerBound <= trace[|trace| - 1].lowerBound
      ensures Run(order, trace + [s'], moves + [m])
    {
      var t := trace + [s'];
      var ms := moves + [m];
      forall i | 0 <= i < |ms| ensures Turn(order, t[i], ms[i], t[i + 1]) && t[i + 1].lowerBound <= t[i].lowerBound {
        if i < |moves| {
          assert t[i] == trace[i] && ms[i] == moves[i] && t[i + 1] == trace[i + 1];
        }
      }
    }

    /** A run extended by one turn keeps what the search loop maintains:
        it is a run from the same start, the record of pairs gains the turn's
        pair, and a best exists exactly when some turn reached a leaf. */
    lemma TurnRecorded(order: seq<nat>, trace: seq<Search>, moves: seq<Move>, m: Move, s': Search)
      requires SearchOrder(order) && Run(order, trace, moves) && Started(trace[0])
      requires var s := trace[|trace| - 1];
        && (s.best.Some? <==> Leaves(trace, |nodes|) > 0)
        && Turn(order, s, m, s') && s'.lowerBound <= s.lowerBound
        && BestSoFar(s'.best, s'.lowerBound, s'.lowerBoundSum, History(trace) + Gain(s, s'))
        && (s'.best.Some? <==> s.best.Some? || |s.stack| == |nodes|)
      ensures Run(order, trace + [s'], moves + [m]) && Started((trace + [s'])[0])
      ensures BestSoFar(s'.best, s'.lowerBound, s'.lowerBoundSum, History(trace + [s']))
      ensures s'.best.Some? <==> Leaves(trace + [s'], |nodes|) > 0
    {
      RunExtended(order, trace, moves, m, s');
      Extended(trace, s');
    }

    /** The state the search starts from: one frame whose node tries colour
        0, every node may take any colour below `n`, no best yet, and the
        bound pair `(n, sum of the nodes)`. */
    ghost predicate Started(s: Search)
    {
      && |s.stack| == 1
      && s.stack[0].choices == {0}
      && |s.stack[0].domain| == |nodes|
      && (forall v :: 0 <= v < |nodes| ==> s.stack[0].domain[v] == Range(|nodes|))
      && s.best == None && s.lowerBound == |nodes| && s.lowerBoundSum == Sum(nodes)
    }

    /** Depth-first branch and bound over an explicit stack of frames. Nodes
        are fixed in `Sort(nodes)` order. Returns the best of a `Run` of the
        search from the `Started` state to an empty stack, given as the
        states `trace` and the decisions `moves`. The returned solution is a proper colouring; the bound never goes
        up; the pairs (colours, sum) recorded each time the best changes
        strictly improve; and a solution is returned exactly when some turn
        reached a leaf. */
    method Solve() returns (r: Option<seq<nat>>, ghost trace: seq<Search>, ghost moves: seq<Move>)
      requires Valid() && LoopFree() && |nodes| >= 1
      ensures SearchOrder(Sort(nodes))
      ensures Run(Sort(nodes), trace, moves) && Started(trace[0])
      ensures trace[|trace| - 1].stack == [] && r == trace[|trace| - 1].best
      ensures r.Some? ==> IsColouring(r.value)
      ensures Descending(History(trace)) && (r.Some? <==> History(trace) != [])
      ensures r.Some? ==> History(trace)[|History(trace)| - 1] == (|Elems(r.value)|, Sum(r.value))
      ensures r.Some? <==> Leaves(trace, |nodes|) > 0
    {
      var order := Sort(nodes);
      SortCovers(order);
      var s0 := Start(order);
      var s;
      s, trace, moves := Explore(order, s0);
      r := s.best;
    }

    /** The state the search starts from, a well-formed stack of one frame. */
    method Start(order: seq<nat>) returns (s0: Search)
      requires SearchOrder(order)
      ensures Started(s0) && SearchStack(order, s0.stack)
    {
      var n: nat := |nodes|;
      var initial := seq(n, _ => Range(n));
      s0 := Search([Step({0}, initial)], None, n, Sum(nodes));
      InitialFrame(order, s0.stack);
    }

    /** The search loop: runs turns from `s0` until the stack is empty. The
        states form a `Run` from `s0`, the record of pairs describes the
        final best, and a best exists exactly when some turn reached a leaf. */
    method Explore(order: seq<nat>, s0: Search) returns (s: Search, ghost trace: seq<Search>, ghost moves: seq<Move>)
      requires SearchOrder(order) && Started(s0) && SearchStack(order, s0.stack)
      ensures Run(order, trace, moves) && trace[0] == s0 && trace[|trace| - 1] == s && s.stack == []
      ensures BestSoFar(s.best, s.lowerBound, s.lowerBoundSum, History(trace))
      ensures s.best.Some? <==> Leaves(trace, |nodes|) > 0
    {
      s := s0;
      trace := [s];
      moves := [];
      while s.stack != []
        invariant Run(order, trace, moves) && Started(trace[0]) && trace[0] == s0 && trace[|trace| - 1] == s
        invariant SearchStack(order, s.stack)
        invariant BestSoFar(s.best, s.lowerBound, s.lowerBoundSum, History(trace))
        invariant s.best.Some? <==> Leaves(trace, |nodes|) > 0
        decreases Remaining(s.stack, |nodes|)
      {
        var s', m := SearchStep(order, s, History(trace));
        TurnRecorded(order, trace, moves, m, s');
        trace := trace + [s'];
        moves := moves + [m];
        s := s';
      }
    }

    /** As written, the search starts from the pair (n, sum of the nodes) and
        takes a leaf only when it is strictly better. A leaf that colours the
        n nodes with the n colours 0 .. n-1, one each, ties with that start
        pair and is never taken; on a single node, or a complete graph, every
        leaf is such a leaf and the search returns None. */
    lemma AsWrittenRejectsAllColours(solution: seq<nat>)
      requires Valid() && multiset(solution) == multiset(nodes)
      ensures !AcceptsAsWritten(|nodes|, Sum(nodes), |Elems(solution)|, Sum(solution))
    {
      SumPermutation(solution, nodes);
      forall x: nat ensures x in Elems(solution) <==> x in Range(|nodes|) {
        if x in Elems(solution) {
          var i :| 0 <= i < |solution| && solution[i] == x;
          assert x in multiset(solution);
          assert x in nodes;
        }
        if x < |nodes| {
          assert nodes[x] == x && x in multiset(nodes);
          assert x in solution;
        }
      }
      assert Elems(solution) == Range(|nodes|);
      RangeCard(|nodes|);
    }
  }
}
