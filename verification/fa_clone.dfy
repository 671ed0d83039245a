/**
 * CharFA.Clone: a deep copy of the states reachable from a start state.
 * The copy of closure element `i` is the fresh state `base + i`, where `base`
 * is the arena size before the copy; every edge of a copy is redirected to
 * the copy of its target.
 */
module CharFAClone {
  import opened CharFAGraph

  /** The state an original edge to `d` points to in the copy: the copy of `d`'s closure slot. */
  function Redirect(closure: seq<nat>, base: nat, d: nat): (r: nat)
    requires d in closure
    ensures base <= r < base + |closure| && closure[r - base] == d
  {
    base + IndexOf(closure, d)
  }

  /** Every edge of `s` leads into `closure`. */
  predicate EdgesInside<A, T>(s: State<A, T>, closure: seq<nat>) {
    forall d :: d in Successors(s) ==> d in closure
  }

  /** Input transitions with the same ranges, in the same order, each destination redirected. */
  function RedirectInputs(ts: seq<Transition>, closure: seq<nat>, base: nat): (r: seq<Transition>)
    requires forall k :: 0 <= k < |ts| ==> ts[k].dest in closure
  {
    seq(|ts|, k requires 0 <= k < |ts| => Transition(ts[k].range, Redirect(closure, base, ts[k].dest)))
  }

  /** A list of closure members, each replaced by its copy, in the same order. */
  function RedirectAll(es: seq<nat>, closure: seq<nat>, base: nat): (r: seq<nat>)
    requires forall k :: 0 <= k < |es| ==> es[k] in closure
  {
    seq(|es|, k requires 0 <= k < |es| => Redirect(closure, base, es[k]))
  }

  lemma EdgesInsideIndexed<A, T>(s: State<A, T>, closure: seq<nat>)
    requires EdgesInside(s, closure)
    ensures forall k :: 0 <= k < |s.inputs| ==> s.inputs[k].dest in closure
    ensures forall k :: 0 <= k < |s.epsilons| ==> s.epsilons[k] in closure
  {
    forall k | 0 <= k < |s.inputs| ensures s.inputs[k].dest in closure {
      assert s.inputs[k].dest == Targets(s.inputs)[k];
    }
  }

  /** The copy of original state `s`: same acceptance and tag, edges redirected in their order. */
  function CopyState<A, T>(s: State<A, T>, closure: seq<nat>, base: nat): State<A, T>
    requires EdgesInside(s, closure)
  {
    EdgesInsideIndexed(s, closure);
    State(s.isAccepting, s.acceptSymbol, s.tag,
          RedirectInputs(s.inputs, closure, base), RedirectAll(s.epsilons, closure, base))
  }

  lemma ClosureEdgesInside<A, T>(g: seq<State<A, T>>, closure: seq<nat>, i: nat)
    requires Closed(g, closure) && i < |closure| && closure[i] < |g|
    ensures EdgesInside(g[closure[i]], closure)
  {
    assert closure[i] in closure;
  }

  /**
   * `g2` is `g` followed by a copy of the closure of `start`, the copy of
   * closure element `i` sitting at `copy + i`.
   */
  ghost predicate IsCloneOf<A, T>(g: seq<State<A, T>>, start: nat, g2: seq<State<A, T>>, copy: nat)
    requires ValidGraph(g) && start < |g|
  {
    var closure := FillClosure(g, start);
    copy == |g| && |g2| == |g| + |closure| && g2[..|g|] == g &&
    forall i :: 0 <= i < |closure| ==>
      EdgesInside(g[closure[i]], closure) &&
      g2[copy + i] == CopyState(g[closure[i]], closure, copy)
  }

  /** A new state with the acceptance, symbol and tag of `s` and no transitions yet. */
  function Blank<A, T>(s: State<A, T>): State<A, T> {
    State(s.isAccepting, s.acceptSymbol, s.tag, [], [])
  }

  /**
   * Clone: allocate one new state per closure element with the original's
   * acceptance, symbol and tag, then give each copy the original's edges
   * redirected by closure index. Returns the copy of the start state.
   */
  method Clone<A, T>(fa: Arena<A, T>, start: nat) returns (copy: nat)
    requires fa.Valid() && start < |fa.states|
    modifies fa
    ensures fa.Valid()
    ensures IsCloneOf(old(fa.states), start, fa.states, copy)
  {
    var g := fa.states;
    var closure := FillClosure(g, start);
    var nclosure := AllocateCopies(fa, closure);
    LinkCopies(fa, g, closure, nclosure);
    copy := nclosure[0];
    CloneValid(g, start, fa.states, copy);
  }

  /** The first loop of Clone: `nclosure[i]` is a new state carrying closure state `i`'s acceptance, symbol and tag. */
  method AllocateCopies<A, T>(fa: Arena<A, T>, closure: seq<nat>) returns (nclosure: array<nat>)
    requires fa.Valid() && forall k :: 0 <= k < |closure| ==> closure[k] < |fa.states|
    modifies fa
    ensures fa.Valid()
    ensures fresh(nclosure) && nclosure.Length == |closure|
    ensures |fa.states| == |old(fa.states)| + |closure| && fa.states[..|old(fa.states)|] == old(fa.states)
    ensures forall k :: 0 <= k < |closure| ==>
      nclosure[k] == |old(fa.states)| + k && fa.states[|old(fa.states)| + k] == Blank(old(fa.states)[closure[k]])
  {
    ghost var g := fa.states;
    nclosure := new nat[|closure|];
    for i := 0 to nclosure.Length
      invariant fa.Valid() && |fa.states| == |g| + i && fa.states[..|g|] == g
      invariant forall k :: 0 <= k < i ==> nclosure[k] == |g| + k && fa.states[|g| + k] == Blank(g[closure[k]])
    {
      var src := fa.states[closure[i]];
      assert src == g[closure[i]];
      nclosure[i] := fa.AddState(src.isAccepting, src.acceptSymbol, src.tag);
    }
  }

  /** The second loop of Clone: each new state receives its original's edges, redirected to the copies. */
  method LinkCopies<A, T>(fa: Arena<A, T>, g: seq<State<A, T>>, closure: seq<nat>, nclosure: array<nat>)
    requires Closed(g, closure) && forall k :: 0 <= k < |closure| ==> closure[k] < |g|
    requires |fa.states| == |g| + |closure| && fa.states[..|g|] == g
    requires nclosure.Length == |closure|
    requires forall k :: 0 <= k < |closure| ==>
      nclosure[k] == |g| + k && fa.states[|g| + k] == Blank(g[closure[k]])
    modifies fa
    ensures |fa.states| == |g| + |closure| && fa.states[..|g|] == g
    ensures forall k :: 0 <= k < |closure| ==>
      EdgesInside(g[closure[k]], closure) && fa.states[|g| + k] == CopyState(g[closure[k]], closure, |g|)
  {
    var base := |g|;
    for i := 0 to nclosure.Length
      invariant |fa.states| == base + |closure| && fa.states[..base] == g
      invariant forall k :: 0 <= k < i ==>
        EdgesInside(g[closure[k]], closure) && fa.states[base + k] == CopyState(g[closure[k]], closure, base)
      invariant forall k :: i <= k < |closure| ==> fa.states[base + k] == Blank(g[closure[k]])
    {
      var src := g[closure[i]];
      ClosureEdgesInside(g, closure, i);
      EdgesInsideIndexed(src, closure);
      var t := CopyInputs(src.inputs, closure, nclosure, base);
      var e := CopyEpsilons(src.epsilons, closure, nclosure, base);
      ghost var prev := fa.states;
      fa.SetTransitions(nclosure[i], t, e);
      assert fa.states == prev[base + i := CopyState(src, closure, base)];
    }
  }

  /** The `foreach` over InputTransitions: add (range, copy of target) for each entry, in order. */
  method CopyInputs(ts: seq<Transition>, closure: seq<nat>, nclosure: array<nat>, base: nat)
    returns (t: seq<Transition>)
    requires forall k :: 0 <= k < |ts| ==> ts[k].dest in closure
    requires nclosure.Length == |closure| && forall k :: 0 <= k < |closure| ==> nclosure[k] == base + k
    ensures t == RedirectInputs(ts, closure, base)
  {
    t := [];
    for j := 0 to |ts|
      invariant t == RedirectInputs(ts[..j], closure, base)
    {
      var id := IndexOf(closure, ts[j].dest);
      t := t + [Transition(ts[j].range, nclosure[id])];
    }
    assert ts[..|ts|] == ts;
  }

  /** The `foreach` over EpsilonTransitions: add the copy of each target, in order. */
  method CopyEpsilons(es: seq<nat>, closure: seq<nat>, nclosure: array<nat>, base: nat)
    returns (e: seq<nat>)
    requires forall k :: 0 <= k < |es| ==> es[k] in closure
    requires nclosure.Length == |closure| && forall k :: 0 <= k < |closure| ==> nclosure[k] == base + k
    ensures e == RedirectAll(es, closure, base)
  {
    e := [];
    for j := 0 to |es|
      invariant e == RedirectAll(es[..j], closure, base)
    {
      var id := IndexOf(closure, es[j]);
      e := e + [nclosure[id]];
    }
    assert es[..|es|] == es;
  }

  /** The arena with its copy is still well formed: every edge stays inside it. */
  lemma CloneValid<A, T>(g: seq<State<A, T>>, start: nat, g2: seq<State<A, T>>, copy: nat)
    requires ValidGraph(g) && start < |g| && IsCloneOf(g, start, g2, copy)
    ensures ValidGraph(g2)
  {
    var closure := FillClosure(g, start);
    forall h | 0 <= h < |g2| ensures ValidState(|g2|, g2[h]) {
      if h < |g| {
        assert g2[h] == g2[..|g|][h];
        assert ValidState(|g|, g[h]);
      } else {
        var i := h - copy;
        CopyStateEdges(g[closure[i]], closure, copy);
        assert ValidState(|g|, g[closure[i]]);
      }
    }
  }

  /** The edges of a copy lead only to copies, in the original's order and with its ranges. */
  lemma CopyStateEdges<A, T>(s: State<A, T>, closure: seq<nat>, base: nat)
    requires EdgesInside(s, closure)
    ensures var c := CopyState(s, closure, base);
      |c.inputs| == |s.inputs| && |c.epsilons| == |s.epsilons| &&
      (forall d :: d in Successors(c) ==> base <= d < base + |closure|) &&
      (DistinctRanges(s.inputs) ==> DistinctRanges(c.inputs))
  {
    var c := CopyState(s, closure, base);
    forall d | d in Successors(c) ensures base <= d < base + |closure| {
      if d in Targets(c.inputs) {
        var k :| 0 <= k < |c.inputs| && Targets(c.inputs)[k] == d;
        assert s.inputs[k].dest == Targets(s.inputs)[k];
      }
    }
  }

  /**
   * Structure is preserved index by index: copy `i` has the acceptance,
   * symbol and tag of closure state `i`, the same number of edges, and each
   * edge leads to the copy of the original edge's target.
   */
  lemma CloneStructure<A, T>(g: seq<State<A, T>>, start: nat, g2: seq<State<A, T>>, copy: nat, i: nat)
    requires ValidGraph(g) && start < |g| && IsCloneOf(g, start, g2, copy)
    requires i < |FillClosure(g, start)|
    ensures var closure := FillClosure(g, start);
      var orig, dup := g[closure[i]], g2[copy + i];
      dup.isAccepting == orig.isAccepting && dup.acceptSymbol == orig.acceptSymbol && dup.tag == orig.tag &&
      |dup.inputs| == |orig.inputs| && |dup.epsilons| == |orig.epsilons| &&
      (forall k :: 0 <= k < |dup.inputs| ==>
        dup.inputs[k].range == orig.inputs[k].range &&
        copy <= dup.inputs[k].dest < copy + |closure| &&
        closure[dup.inputs[k].dest - copy] == orig.inputs[k].dest) &&
      (forall k :: 0 <= k < |dup.epsilons| ==>
        copy <= dup.epsilons[k] < copy + |closure| &&
        closure[dup.epsilons[k] - copy] == orig.epsilons[k])
  {
    var closure := FillClosure(g, start);
    var orig := g[closure[i]];
    EdgesInsideIndexed(orig, closure);
    assert g2[copy + i] == CopyState(orig, closure, copy);
  }

  /**
   * No aliasing: the states before `copy` are the original ones, unchanged
   * and with edges only among themselves, and every edge of a copy leads to a copy.
   */
  lemma CloneSharesNothing<A, T>(g: seq<State<A, T>>, start: nat, g2: seq<State<A, T>>, copy: nat)
    requires ValidGraph(g) && start < |g| && IsCloneOf(g, start, g2, copy)
    ensures forall h :: 0 <= h < copy ==> g2[h] == g[h] && forall d :: d in Successors(g2[h]) ==> d < copy
    ensures forall h :: copy <= h < |g2| ==> forall d :: d in Successors(g2[h]) ==> copy <= d < |g2|
  {
    var closure := FillClosure(g, start);
    forall h | 0 <= h < copy ensures g2[h] == g[h] {
      assert g2[h] == g2[..|g|][h];
    }
    forall h | copy <= h < |g2| ensures forall d :: d in Successors(g2[h]) ==> copy <= d < |g2| {
      CopyStateEdges(g[closure[h - copy]], closure, copy);
    }
  }

  lemma RedirectAllConcat(a: seq<nat>, b: seq<nat>, closure: seq<nat>, base: nat)
    requires forall k :: 0 <= k < |a| ==> a[k] in closure
    requires forall k :: 0 <= k < |b| ==> b[k] in closure
    ensures RedirectAll(a + b, closure, base) == RedirectAll(a, closure, base) + RedirectAll(b, closure, base)
  {
  }

  /** Redirecting is injective on the closure, so membership is preserved both ways. */
  lemma RedirectMember(hs: seq<nat>, closure: seq<nat>, base: nat, x: nat)
    requires forall k :: 0 <= k < |hs| ==> hs[k] in closure
    requires x in closure
    ensures Redirect(closure, base, x) in RedirectAll(hs, closure, base) <==> x in hs
  {
    var r := RedirectAll(hs, closure, base);
    if x in hs {
      var k :| 0 <= k < |hs| && hs[k] == x;
      assert r[k] == Redirect(closure, base, x);
    }
    if Redirect(closure, base, x) in r {
      var k :| 0 <= k < |r| && r[k] == Redirect(closure, base, x);
      assert hs[k] == closure[r[k] - base];
    }
  }

  /** The successors of a copy are the copies of the original's successors, in order. */
  lemma CopySuccessors<A, T>(s: State<A, T>, closure: seq<nat>, base: nat)
    requires EdgesInside(s, closure)
    ensures forall k :: 0 <= k < |Successors(s)| ==> Successors(s)[k] in closure
    ensures Successors(CopyState(s, closure, base)) == RedirectAll(Successors(s), closure, base)
  {
    EdgesInsideIndexed(s, closure);
    var c := CopyState(s, closure, base);
    forall k | 0 <= k < |Successors(s)| ensures Successors(s)[k] in closure {
      assert Successors(s)[k] in Successors(s);
    }
    assert Targets(c.inputs) == RedirectAll(Targets(s.inputs), closure, base);
    RedirectAllConcat(Targets(s.inputs), s.epsilons, closure, base);
  }

  lemma ClosureMembersBelow<A, T>(g: seq<State<A, T>>, start: nat, x: nat)
    requires ValidGraph(g) && start < |g| && x in FillClosure(g, start)
    ensures x < |g|
  {
    var closure := FillClosure(g, start);
    var k :| 0 <= k < |closure| && closure[k] == x;
  }

  /** Redirected handles are copies, and distinct handles stay distinct. */
  lemma RedirectAllFacts(hs: seq<nat>, closure: seq<nat>, base: nat)
    requires forall k :: 0 <= k < |hs| ==> hs[k] in closure
    ensures forall k :: 0 <= k < |hs| ==> base <= RedirectAll(hs, closure, base)[k] < base + |closure|
    ensures Distinct(hs) ==> Distinct(RedirectAll(hs, closure, base))
  {
    var r := RedirectAll(hs, closure, base);
    if Distinct(hs) {
      forall i, j | 0 <= i < j < |r| ensures r[i] != r[j] {
        assert closure[r[i] - base] == hs[i];
        assert closure[r[j] - base] == hs[j];
      }
    }
  }

  /** A walk that starts inside a closed list of states stays inside it. */
  lemma {:induction false} ExploreStaysInside<A, T>(g: seq<State<A, T>>, c: seq<nat>, stack: seq<nat>, visited: seq<nat>)
    requires ValidGraph(g) && Closed(g, c)
    requires forall i :: 0 <= i < |stack| ==> stack[i] < |g| && stack[i] in c
    requires Distinct(visited) && forall i :: 0 <= i < |visited| ==> visited[i] < |g| && visited[i] in c
    ensures forall i :: 0 <= i < |Explore(g, stack, visited)| ==> Explore(g, stack, visited)[i] in c
    decreases |g| - |visited|, |stack|
  {
    if stack == [] {
    } else if stack[0] in visited {
      ExploreStaysInside(g, c, stack[1..], visited);
    } else {
      var h := stack[0];
      DistinctBound(visited + [h], |g|);
      SuccessorsBelow(g, h);
      var next := Successors(g[h]) + stack[1..];
      forall i | 0 <= i < |next| ensures next[i] in c {
        if i < |Successors(g[h])| {
          assert h in c && next[i] in Successors(g[h]);
        } else {
          assert next[i] == stack[i - |Successors(g[h])| + 1];
        }
      }
      ExploreStaysInside(g, c, next, visited + [h]);
    }
  }

  /** What the walk needs of the clone: the successors of copy `i` are the copies of closure state `i`'s successors. */
  ghost predicate SuccessorsCommute<A, T>(g: seq<State<A, T>>, closure: seq<nat>, g2: seq<State<A, T>>, copy: nat) {
    forall i :: 0 <= i < |closure| ==>
      closure[i] < |g| && copy + i < |g2| &&
      (forall k :: 0 <= k < |Successors(g[closure[i]])| ==> Successors(g[closure[i]])[k] in closure) &&
      Successors(g2[copy + i]) == RedirectAll(Successors(g[closure[i]]), closure, copy)
  }

  lemma RedirectCons(hs: seq<nat>, closure: seq<nat>, base: nat)
    requires forall k :: 0 <= k < |hs| ==> hs[k] in closure
    requires hs != []
    ensures RedirectAll(hs, closure, base)[0] == Redirect(closure, base, hs[0])
    ensures RedirectAll(hs, closure, base)[1..] == RedirectAll(hs[1..], closure, base)
  {
  }

  lemma RedirectSnoc(hs: seq<nat>, h: nat, closure: seq<nat>, base: nat)
    requires forall k :: 0 <= k < |hs| ==> hs[k] in closure
    requires h in closure
    ensures RedirectAll(hs + [h], closure, base) == RedirectAll(hs, closure, base) + [Redirect(closure, base, h)]
  {
  }

  /**
   * The depth-first walk over the copy visits the copies of the states the
   * walk over the original visits, in the same order.
   */
  lemma {:induction false} ExploreCommutes<A, T>(g: seq<State<A, T>>, closure: seq<nat>, g2: seq<State<A, T>>, copy: nat,
                                                 stack: seq<nat>, visited: seq<nat>)
    requires ValidGraph(g) && ValidGraph(g2) && Closed(g, closure) && Distinct(closure)
    requires SuccessorsCommute(g, closure, g2, copy)
    requires forall k :: 0 <= k < |stack| ==> stack[k] < |g| && stack[k] in closure
    requires Distinct(visited) && forall k :: 0 <= k < |visited| ==> visited[k] < |g| && visited[k] in closure
    requires forall k :: 0 <= k < |stack| ==> RedirectAll(stack, closure, copy)[k] < |g2|
    requires forall k :: 0 <= k < |visited| ==> RedirectAll(visited, closure, copy)[k] < |g2|
    requires Distinct(RedirectAll(visited, closure, copy))
    ensures forall k :: 0 <= k < |Explore(g, stack, visited)| ==> Explore(g, stack, visited)[k] in closure
    ensures Explore(g2, RedirectAll(stack, closure, copy), RedirectAll(visited, closure, copy))
         == RedirectAll(Explore(g, stack, visited), closure, copy)
    decreases |g| - |visited|, |stack|
  {
    ExploreStaysInside(g, closure, stack, visited);
    if stack != [] {
      var h := stack[0];
      RedirectMember(visited, closure, copy, h);
      RedirectCons(stack, closure, copy);
      if h in visited {
        ExploreCommutes(g, closure, g2, copy, stack[1..], visited);
      } else {
        CommuteStep(g, closure, g2, copy, stack, visited);
      }
    }
  }

  /** The bookkeeping of CommuteStep: pushing successors and marking visited commute with redirection. */
  lemma StepCommutes<A, T>(g: seq<State<A, T>>, closure: seq<nat>, g2: seq<State<A, T>>, copy: nat,
                           stack: seq<nat>, visited: seq<nat>)
    requires ValidGraph(g) && Closed(g, closure) && Distinct(closure)
    requires SuccessorsCommute(g, closure, g2, copy)
    requires forall k :: 0 <= k < |stack| ==> stack[k] < |g| && stack[k] in closure
    requires forall k :: 0 <= k < |visited| ==> visited[k] in closure
    requires stack != [] && stack[0] !in visited
    ensures var next := Successors(g[stack[0]]) + stack[1..];
      var stack2 := RedirectAll(stack, closure, copy);
      (forall k :: 0 <= k < |next| ==> next[k] in closure) &&
      stack2[0] < |g2| && stack2[0] !in RedirectAll(visited, closure, copy) &&
      RedirectAll(next, closure, copy) == Successors(g2[stack2[0]]) + stack2[1..] &&
      RedirectAll(visited + [stack[0]], closure, copy) == RedirectAll(visited, closure, copy) + [stack2[0]]
  {
    var h := stack[0];
    var i := IndexOf(closure, h);
    var stack2 := RedirectAll(stack, closure, copy);
    var succ := Successors(g[h]);
    RedirectMember(visited, closure, copy, h);
    RedirectCons(stack, closure, copy);
    var next := succ + stack[1..];
    forall k | 0 <= k < |next| ensures next[k] in closure {
      if k >= |succ| {
        assert next[k] == stack[k - |succ| + 1];
      }
    }
    RedirectAllConcat(succ, stack[1..], closure, copy);
    RedirectSnoc(visited, h, closure, copy);
  }

  /** One step of ExploreCommutes: the walk meets a new state `stack[0]` and pushes its successors. */
  lemma {:induction false} CommuteStep<A, T>(g: seq<State<A, T>>, closure: seq<nat>, g2: seq<State<A, T>>, copy: nat,
                                             stack: seq<nat>, visited: seq<nat>)
    requires ValidGraph(g) && ValidGraph(g2) && Closed(g, closure) && Distinct(closure)
    requires SuccessorsCommute(g, closure, g2, copy)
    requires forall k :: 0 <= k < |stack| ==> stack[k] < |g| && stack[k] in closure
    requires Distinct(visited) && forall k :: 0 <= k < |visited| ==> visited[k] < |g| && visited[k] in closure
    requires forall k :: 0 <= k < |stack| ==> RedirectAll(stack, closure, copy)[k] < |g2|
    requires forall k :: 0 <= k < |visited| ==> RedirectAll(visited, closure, copy)[k] < |g2|
    requires Distinct(RedirectAll(visited, closure, copy))
    requires forall k :: 0 <= k < |Explore(g, stack, visited)| ==> Explore(g, stack, visited)[k] in closure
    requires stack != [] && stack[0] !in visited
    ensures Explore(g2, RedirectAll(stack, closure, copy), RedirectAll(visited, closure, copy))
         == RedirectAll(Explore(g, stack, visited), closure, copy)
    decreases |g| - |visited|, 0
  {
    var h := stack[0];
    var stack2, visited2 := RedirectAll(stack, closure, copy), RedirectAll(visited, closure, copy);
    var next := Successors(g[h]) + stack[1..];
    StepCommutes(g, closure, g2, copy, stack, visited);
    UnfoldExplore(g, stack, visited);
    UnfoldExplore(g2, stack2, visited2);
    DistinctBound(visited + [h], |g|);
    calc {
      Explore(g2, stack2, visited2);
      Explore(g2, RedirectAll(next, closure, copy), RedirectAll(visited + [h], closure, copy));
      { ExploreCommutes(g, closure, g2, copy, next, visited + [h]); }
      RedirectAll(Explore(g, next, visited + [h]), closure, copy);
      RedirectAll(Explore(g, stack, visited), closure, copy);
    }
  }

  /**
   * The clone, taken as an automaton of its own, has the copy block as its
   * closure in the original's order: closure index `i` of the clone is the
   * copy of closure index `i` of the original.
   */
  lemma CloneClosureAligned<A, T>(g: seq<State<A, T>>, start: nat, g2: seq<State<A, T>>, copy: nat)
    requires ValidGraph(g) && start < |g| && IsCloneOf(g, start, g2, copy) && ValidGraph(g2)
    ensures copy < |g2|
    ensures var closure := FillClosure(g, start);
      var closure2 := FillClosure(g2, copy);
      |closure2| == |closure| && forall i :: 0 <= i < |closure| ==> closure2[i] == copy + i
  {
    var closure := FillClosure(g, start);
    assert closure[0] in closure;
    IndexOfDistinct(closure, 0);
    assert RedirectAll([start], closure, copy) == [copy];
    assert RedirectAll([], closure, copy) == [];
    forall i | 0 <= i < |closure|
      ensures closure[i] < |g| && copy + i < |g2|
      ensures forall k :: 0 <= k < |Successors(g[closure[i]])| ==> Successors(g[closure[i]])[k] in closure
      ensures Successors(g2[copy + i]) == RedirectAll(Successors(g[closure[i]]), closure, copy)
    {
      ClosureEdgesInside(g, closure, i);
      CopySuccessors(g[closure[i]], closure, copy);
    }
    ExploreCommutes(g, closure, g2, copy, [start], []);
    forall i | 0 <= i < |closure| ensures RedirectAll(closure, closure, copy)[i] == copy + i {
      IndexOfDistinct(closure, i);
    }
  }
}
