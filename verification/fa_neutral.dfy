/**
 * CharFA.IsNeutral and FillNeutralStates: the states with no input
 * transitions and a single epsilon transition, which Reduce can splice out.
 */
module CharFANeutral {
  import opened CharFAGraph

  /** IsNeutral: no input transitions and exactly one epsilon transition. */
  predicate IsNeutral<A, T>(s: State<A, T>) {
    |s.inputs| == 0 && |s.epsilons| == 1
  }

  /** An IList<CharFA<TAccept>> of state handles that its owner passes around and appends to. */
  class StateList {
    var items: seq<nat>

    constructor ()
      ensures items == []
    {
      items := [];
    }

    function Contains(h: nat): bool
      reads this
    {
      h in items
    }

    method Add(h: nat)
      modifies this
      ensures items == old(items) + [h]
    {
      items := items + [h];
    }
  }

  /**
   * What the loop of FillNeutralStates leaves in a list that held `prior`:
   * each state of `closure`, in order, appended when it is neutral and not
   * already in the list.
   */
  function AppendNeutral<A, T>(g: seq<State<A, T>>, closure: seq<nat>, prior: seq<nat>): seq<nat>
    requires forall k :: 0 <= k < |closure| ==> closure[k] < |g|
    decreases |closure|
  {
    if closure == [] then prior
    else
      var acc := AppendNeutral(g, closure[..|closure| - 1], prior);
      var fa := closure[|closure| - 1];
      if IsNeutral(g[fa]) && fa !in acc then acc + [fa] else acc
  }

  /**
   * The static FillNeutralStates(closure, result): uses the caller's list
   * when there is one, otherwise a new one, and appends the neutral states.
   */
  method FillNeutralStatesIn<A, T>(fa: Arena<A, T>, closure: seq<nat>, result: StateList?) returns (r: StateList)
    requires forall k :: 0 <= k < |closure| ==> closure[k] < |fa.states|
    modifies result
    ensures result != null ==> r == result
    ensures result == null ==> fresh(r)
    ensures r.items == AppendNeutral(fa.states, closure, if result == null then [] else old(result.items))
  {
    if result == null {
      r := new StateList();
    } else {
      r := result;
    }
    ghost var prior := r.items;
    for i := 0 to |closure|
      invariant r.items == AppendNeutral(fa.states, closure[..i], prior)
    {
      var h := closure[i];
      if IsNeutral(fa.states[h]) {
        if !r.Contains(h) {
          r.Add(h);
        }
      }
      assert closure[..i + 1][..i] == closure[..i];
    }
    assert closure[..|closure|] == closure;
  }

  /** The instance FillNeutralStates(result): the static overload over this state's closure. */
  method FillNeutralStates<A, T>(fa: Arena<A, T>, start: nat, result: StateList?) returns (r: StateList)
    requires fa.Valid() && start < |fa.states|
    modifies result
    ensures result != null ==> r == result
    ensures result == null ==> fresh(r)
    ensures r.items == AppendNeutral(fa.states, FillClosure(fa.states, start),
                                     if result == null then [] else old(result.items))
  {
    r := FillNeutralStatesIn(fa, FillClosure(fa.states, start), result);
  }

  /** The earlier contents of the list are kept as a prefix, and a duplicate-free list stays duplicate-free. */
  lemma {:induction false} AppendNeutralKeepsPrefix<A, T>(g: seq<State<A, T>>, closure: seq<nat>, prior: seq<nat>)
    requires forall k :: 0 <= k < |closure| ==> closure[k] < |g|
    ensures var r := AppendNeutral(g, closure, prior);
      |prior| <= |r| && r[..|prior|] == prior && (Distinct(prior) ==> Distinct(r))
    decreases |closure|
  {
    if closure != [] {
      AppendNeutralKeepsPrefix(g, closure[..|closure| - 1], prior);
    }
  }

  /**
   * Exactly the neutral states of the closure are added: a state is in the
   * result iff it was already in the list or it is a neutral closure state.
   */
  lemma {:induction false} AppendNeutralContents<A, T>(g: seq<State<A, T>>, closure: seq<nat>, prior: seq<nat>, x: nat)
    requires forall k :: 0 <= k < |closure| ==> closure[k] < |g|
    ensures x in AppendNeutral(g, closure, prior) <==> x in prior || (x in closure && x < |g| && IsNeutral(g[x]))
    decreases |closure|
  {
    if closure != [] {
      var init := closure[..|closure| - 1];
      AppendNeutralContents(g, init, prior, x);
      assert x in closure <==> x in init || x == closure[|closure| - 1];
    }
  }

  /** The neutral closure states not already in `prior`, in closure order. */
  function NewNeutrals<A, T>(g: seq<State<A, T>>, closure: seq<nat>, prior: seq<nat>): (r: seq<nat>)
    requires forall k :: 0 <= k < |closure| ==> closure[k] < |g|
    decreases |closure|
  {
    if closure == [] then []
    else
      var fa := closure[|closure| - 1];
      NewNeutrals(g, closure[..|closure| - 1], prior) + (if IsNeutral(g[fa]) && fa !in prior then [fa] else [])
  }

  /**
   * On a closure without duplicates, the states appended are the neutral
   * ones not already present, each once, in closure order.
   */
  lemma {:induction false} AppendNeutralInClosureOrder<A, T>(g: seq<State<A, T>>, closure: seq<nat>, prior: seq<nat>)
    requires forall k :: 0 <= k < |closure| ==> closure[k] < |g|
    requires Distinct(closure)
    ensures AppendNeutral(g, closure, prior) == prior + NewNeutrals(g, closure, prior)
    decreases |closure|
  {
    if closure != [] {
      var init := closure[..|closure| - 1];
      var fa := closure[|closure| - 1];
      AppendNeutralInClosureOrder(g, init, prior);
      AppendNeutralContents(g, init, prior, fa);
      assert fa !in init;
    }
  }
}
