/**
 * The state graph of CharFA<TAccept>, held as an arena: a state is an integer
 * handle into a sequence of state records, and every edge names a handle.
 * `A` is the accept-symbol type TAccept, `T` the type of the opaque Tag.
 */
module CharFAGraph {
  import opened CharRanges

  /** One entry of a state's InputTransitions dictionary: on `range`, go to `dest`. */
  datatype Transition = Transition(range: CharRange, dest: nat)

  /**
   * A CharFA state. InputTransitions is an insertion-ordered dictionary keyed
   * by CharRange, so it is a sequence of transitions with pairwise distinct
   * ranges; EpsilonTransitions is an ordered list of handles.
   */
  datatype State<A, T> = State(isAccepting: bool, acceptSymbol: A, tag: T,
                               inputs: seq<Transition>, epsilons: seq<nat>)

  predicate Distinct<X(==)>(s: seq<X>) {
    forall i, j :: 0 <= i < j < |s| ==> s[i] != s[j]
  }

  predicate DistinctRanges(ts: seq<Transition>) {
    forall i, j :: 0 <= i < j < |ts| ==> ts[i].range != ts[j].range
  }

  /** The destinations of a transition list, in order. */
  function Targets(ts: seq<Transition>): (ds: seq<nat>)
    ensures |ds| == |ts| && forall k :: 0 <= k < |ts| ==> ds[k] == ts[k].dest
  {
    seq(|ts|, k requires 0 <= k < |ts| => ts[k].dest)
  }

  /** Every state reachable in one step: input destinations, then epsilon destinations. */
  function Successors<A, T>(s: State<A, T>): (succ: seq<nat>)
    ensures forall d :: d in succ <==> d in Targets(s.inputs) || d in s.epsilons
  {
    Targets(s.inputs) + s.epsilons
  }

  /** Every edge of the state stays inside an arena of `n` states. */
  predicate ValidState<A, T>(n: nat, s: State<A, T>) {
    (forall d :: d in Successors(s) ==> d < n) && DistinctRanges(s.inputs)
  }

  predicate ValidGraph<A, T>(g: seq<State<A, T>>) {
    forall h :: 0 <= h < |g| ==> ValidState(|g|, g[h])
  }

  /** List.IndexOf: the first position of `x` in `s`, or -1 when it is absent. */
  function IndexOf<X(==)>(s: seq<X>, x: X): (k: int)
    ensures -1 <= k < |s|
    ensures k == -1 <==> x !in s
    ensures 0 <= k ==> k < |s| && s[k] == x && forall j :: 0 <= j < k ==> s[j] != x
  {
    if |s| == 0 then -1
    else if s[0] == x then 0
    else
      var k := IndexOf(s[1..], x);
      if k == -1 then -1
      else
        assert s[k + 1] == s[1..][k];
        k + 1
  }

  /** In a list without duplicates, IndexOf inverts indexing. */
  lemma IndexOfDistinct<X>(s: seq<X>, i: nat)
    requires Distinct(s) && i < |s|
    ensures IndexOf(s, s[i]) == i
  {
    assert s[i] in s;
    var k := IndexOf(s, s[i]);
    assert s[k] == s[i];
  }

  /** A set of handles is closed when every successor of a member is a member. */
  ghost predicate Closed<A, T>(g: seq<State<A, T>>, c: seq<nat>) {
    forall v, d :: v in c && v < |g| && d in Successors(g[v]) ==> d in c
  }

  ghost predicate IsPath<A, T>(g: seq<State<A, T>>, p: seq<nat>) {
    |p| > 0 &&
    (forall i :: 0 <= i < |p| ==> p[i] < |g|) &&
    (forall i :: 0 <= i < |p| - 1 ==> p[i + 1] in Successors(g[p[i]]))
  }

  /** `to` can be reached from `from` over input and epsilon edges. */
  ghost predicate Reachable<A, T>(g: seq<State<A, T>>, from: nat, to: nat) {
    exists p :: IsPath(g, p) && p[0] == from && p[|p| - 1] == to
  }

  /** A list of distinct handles below `n` has at most `n` elements. */
  lemma {:induction false} DistinctBound(s: seq<nat>, n: nat)
    requires Distinct(s) && forall i :: 0 <= i < |s| ==> s[i] < n
    ensures |s| <= n
    decreases n
  {
    if s != [] {
      assert s[0] < n;
      if n - 1 in s {
        var k :| 0 <= k < |s| && s[k] == n - 1;
        var t := s[..k] + s[k + 1..];
        assert forall i :: 0 <= i < |t| ==> t[i] == if i < k then s[i] else s[i + 1];
        DistinctBound(t, n - 1);
      } else {
        DistinctBound(s, n - 1);
      }
    }
  }

  lemma SuccessorsBelow<A, T>(g: seq<State<A, T>>, h: nat)
    requires ValidGraph(g) && h < |g|
    ensures forall i :: 0 <= i < |Successors(g[h])| ==> Successors(g[h])[i] < |g|
  {
    var succ := Successors(g[h]);
    forall i | 0 <= i < |succ| ensures succ[i] < |g| {
      assert succ[i] in succ;
    }
  }

  /**
   * Depth-first traversal: `visited` holds the states already listed, in
   * discovery order, and `stack` those still to look at.
   */
  function Explore<A, T>(g: seq<State<A, T>>, stack: seq<nat>, visited: seq<nat>): (r: seq<nat>)
    requires ValidGraph(g)
    requires forall i :: 0 <= i < |stack| ==> stack[i] < |g|
    requires Distinct(visited) && forall i :: 0 <= i < |visited| ==> visited[i] < |g|
    decreases |g| - |visited|, |stack|
    ensures |visited| <= |r| && r[..|visited|] == visited
    ensures Distinct(r) && forall i :: 0 <= i < |r| ==> r[i] < |g|
    ensures forall i :: 0 <= i < |stack| ==> stack[i] in r
  {
    if stack == [] then visited
    else if stack[0] in visited then Explore(g, stack[1..], visited)
    else
      var h := stack[0];
      DistinctBound(visited + [h], |g|);
      SuccessorsBelow(g, h);
      var next := Successors(g[h]) + stack[1..];
      assert forall i :: 1 <= i < |stack| ==> stack[i] == next[|Successors(g[h])| + i - 1];
      var r := Explore(g, next, visited + [h]);
      assert r[|visited|] == (visited + [h])[|visited|];
      r
  }

  /**
   * FillClosure: the states reachable from `start`, each exactly once,
   * `start` first, in one deterministic order.
   */
  /** One step of the walk that meets a state not yet visited. */
  lemma UnfoldExplore<A, T>(g: seq<State<A, T>>, stack: seq<nat>, visited: seq<nat>)
    requires ValidGraph(g)
    requires forall i :: 0 <= i < |stack| ==> stack[i] < |g|
    requires Distinct(visited) && forall i :: 0 <= i < |visited| ==> visited[i] < |g|
    requires stack != [] && stack[0] !in visited
    ensures forall i :: 0 <= i < |Successors(g[stack[0]]) + stack[1..]| ==> (Successors(g[stack[0]]) + stack[1..])[i] < |g|
    ensures Distinct(visited + [stack[0]]) && forall i :: 0 <= i < |visited| + 1 ==> (visited + [stack[0]])[i] < |g|
    ensures Explore(g, stack, visited) == Explore(g, Successors(g[stack[0]]) + stack[1..], visited + [stack[0]])
  {
    SuccessorsBelow(g, stack[0]);
  }

  /** Every state listed by Explore has all its successors listed too. */
  lemma {:induction false} ExploreClosed<A, T>(g: seq<State<A, T>>, stack: seq<nat>, visited: seq<nat>)
    requires ValidGraph(g)
    requires forall i :: 0 <= i < |stack| ==> stack[i] < |g|
    requires Distinct(visited) && forall i :: 0 <= i < |visited| ==> visited[i] < |g|
    requires forall v, d :: v in visited && v < |g| && d in Successors(g[v]) ==> d in visited || d in stack
    ensures Closed(g, Explore(g, stack, visited))
    decreases |g| - |visited|, |stack|
  {
    if stack == [] {
    } else if stack[0] in visited {
      ExploreClosed(g, stack[1..], visited);
    } else {
      var h := stack[0];
      DistinctBound(visited + [h], |g|);
      SuccessorsBelow(g, h);
      ExploreClosed(g, Successors(g[h]) + stack[1..], visited + [h]);
    }
  }

  function FillClosure<A, T>(g: seq<State<A, T>>, start: nat): (c: seq<nat>)
    requires ValidGraph(g) && start < |g|
    ensures |c| > 0 && c[0] == start
    ensures Distinct(c) && forall i :: 0 <= i < |c| ==> c[i] < |g|
    ensures Closed(g, c)
  {
    ExploreClosed(g, [start], []);
    Explore(g, [start], [])
  }

  lemma ReachableStep<A, T>(g: seq<State<A, T>>, start: nat, h: nat, d: nat)
    requires ValidGraph(g) && h < |g| && Reachable(g, start, h) && d in Successors(g[h])
    ensures Reachable(g, start, d)
  {
    var p :| IsPath(g, p) && p[0] == start && p[|p| - 1] == h;
    var q := p + [d];
    assert IsPath(g, q);
  }

  lemma {:induction false} ExploreReachable<A, T>(g: seq<State<A, T>>, start: nat, stack: seq<nat>, visited: seq<nat>)
    requires ValidGraph(g)
    requires forall i :: 0 <= i < |stack| ==> stack[i] < |g|
    requires Distinct(visited) && forall i :: 0 <= i < |visited| ==> visited[i] < |g|
    requires forall h :: h in stack ==> Reachable(g, start, h)
    requires forall h :: h in visited ==> Reachable(g, start, h)
    ensures forall h :: h in Explore(g, stack, visited) ==> Reachable(g, start, h)
    decreases |g| - |visited|, |stack|
  {
    if stack == [] {
    } else if stack[0] in visited {
      ExploreReachable(g, start, stack[1..], visited);
    } else {
      var h := stack[0];
      forall d | d in Successors(g[h]) ensures Reachable(g, start, d) {
        ReachableStep(g, start, h, d);
      }
      DistinctBound(visited + [h], |g|);
      SuccessorsBelow(g, h);
      ExploreReachable(g, start, Successors(g[h]) + stack[1..], visited + [h]);
    }
  }

  lemma {:induction false} PathStaysInside<A, T>(g: seq<State<A, T>>, c: seq<nat>, p: seq<nat>)
    requires Closed(g, c) && IsPath(g, p) && p[0] in c
    ensures p[|p| - 1] in c
    decreases |p|
  {
    if |p| > 1 {
      var q := p[..|p| - 1];
      assert IsPath(g, q);
      PathStaysInside(g, c, q);
      assert p[|p| - 1] in Successors(g[p[|p| - 2]]);
    }
  }

  /** The closure is exactly the set of states reachable from `start`. */
  lemma ClosureIsReachable<A, T>(g: seq<State<A, T>>, start: nat, x: nat)
    requires ValidGraph(g) && start < |g|
    ensures x in FillClosure(g, start) <==> Reachable(g, start, x)
  {
    assert IsPath(g, [start]);
    ExploreReachable(g, start, [start], []);
    if Reachable(g, start, x) {
      var p :| IsPath(g, p) && p[0] == start && p[|p| - 1] == x;
      PathStaysInside(g, FillClosure(g, start), p);
    }
  }

  /** The arena that owns every state; a state is created by appending to it. */
  class Arena<A, T> {
    var states: seq<State<A, T>>

    ghost predicate Valid()
      reads this
    {
      ValidGraph(states)
    }

    /** `new CharFA<TAccept>(isAccepting, acceptSymbol)` followed by setting its Tag. */
    method AddState(isAccepting: bool, acceptSymbol: A, tag: T) returns (h: nat)
      requires Valid()
      modifies this
      ensures Valid()
      ensures h == |old(states)|
      ensures states == old(states) + [State(isAccepting, acceptSymbol, tag, [], [])]
    {
      h := |states|;
      states := states + [State(isAccepting, acceptSymbol, tag, [], [])];
    }

    /** Replaces the InputTransitions and EpsilonTransitions of state `h`. */
    method SetTransitions(h: nat, inputs: seq<Transition>, epsilons: seq<nat>)
      requires h < |states|
      modifies this
      ensures states == old(states)[h := old(states)[h].(inputs := inputs, epsilons := epsilons)]
    {
      states := states[h := states[h].(inputs := inputs, epsilons := epsilons)];
    }
  }
}
