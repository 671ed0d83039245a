/**
 * Clone and ToDfaStateTable together: a clone is encoded into exactly the
 * same DFA table as its original, so copying a machine before working on
 * it changes nothing a table-driven lexer can observe.
 */
module CloneTable {
  import opened Wrappers
  import opened CharFAGraph
  import opened CharFAClone
  import opened CharFADfaStateTable

  /** Redirecting by closure index commutes with keeping first occurrences, since it is injective on the closure. */
  lemma {:induction false} DedupRedirect(xs: seq<nat>, closure: seq<nat>, base: nat)
    requires forall k :: 0 <= k < |xs| ==> xs[k] in closure
    ensures forall k :: 0 <= k < |Dedup(xs)| ==> Dedup(xs)[k] in closure
    ensures Dedup(RedirectAll(xs, closure, base)) == RedirectAll(Dedup(xs), closure, base)
    decreases |xs|
  {
    DedupMembers(xs);
    if xs != [] {
      var n := |xs| - 1;
      var init, x := xs[..n], xs[n];
      DedupRedirect(init, closure, base);
      DedupMembers(init);
      assert xs == init + [x];
      RedirectSnoc(init, x, closure, base);
      assert RedirectAll(xs, closure, base)[..n] == RedirectAll(init, closure, base);
      RedirectMember(Dedup(init), closure, base, x);
      if x !in Dedup(init) {
        RedirectSnoc(Dedup(init), x, closure, base);
      }
    }
  }

  /** The destinations of copied input transitions are the copies of the original destinations. */
  lemma TargetsRedirect(ts: seq<Transition>, closure: seq<nat>, base: nat)
    requires forall k :: 0 <= k < |ts| ==> ts[k].dest in closure
    ensures forall k :: 0 <= k < |Targets(ts)| ==> Targets(ts)[k] in closure
    ensures Targets(RedirectInputs(ts, closure, base)) == RedirectAll(Targets(ts), closure, base)
  {
  }

  /** The ranges leading to the copy of `d` in the copy are the ranges leading to `d` in the original. */
  lemma {:induction false} RangesToRedirect(ts: seq<Transition>, closure: seq<nat>, base: nat, d: nat)
    requires forall k :: 0 <= k < |ts| ==> ts[k].dest in closure
    requires d in closure
    ensures RangesTo(RedirectInputs(ts, closure, base), Redirect(closure, base, d)) == RangesTo(ts, d)
    decreases |ts|
  {
    if ts != [] {
      var n := |ts| - 1;
      RangesToRedirect(ts[..n], closure, base, d);
      assert RedirectInputs(ts, closure, base)[..n] == RedirectInputs(ts[..n], closure, base);
      assert closure[Redirect(closure, base, ts[n].dest) - base] == ts[n].dest;
      assert closure[Redirect(closure, base, d) - base] == d;
    }
  }

  /** In the copy block, the copy of `d` sits at the closure index of `d`. */
  lemma IndexOfCopy(closure: seq<nat>, closure2: seq<nat>, base: nat, d: nat)
    requires |closure2| == |closure| && forall i :: 0 <= i < |closure| ==> closure2[i] == base + i
    requires d in closure
    ensures IndexOf(closure2, Redirect(closure, base, d)) == IndexOf(closure, d)
  {
    var k := IndexOf(closure, d);
    assert closure2[k] == Redirect(closure, base, d);
    IndexOfDistinct(closure2, k);
  }

  /** The row of a copied state equals the row of its original, for any symbol lookup. */
  lemma RowOfCopy<A, T>(g: seq<State<A, T>>, closure: seq<nat>, g2: seq<State<A, T>>, closure2: seq<nat>,
                        base: nat, lookup: map<A, int>, i: nat)
    requires forall k :: 0 <= k < |closure| ==> closure[k] < |g|
    requires |closure2| == |closure| && forall k :: 0 <= k < |closure| ==> closure2[k] == base + k && closure2[k] < |g2|
    requires i < |closure| && EdgesInside(g[closure[i]], closure)
    requires g2[closure2[i]] == CopyState(g[closure[i]], closure, base)
    ensures Row(g2, closure2, lookup, i) == Row(g, closure, lookup, i)
  {
    var s := g[closure[i]];
    var c := CopyState(s, closure, base);
    EdgesInsideIndexed(s, closure);
    TargetsRedirect(s.inputs, closure, base);
    DedupRedirect(Targets(s.inputs), closure, base);
    assert c.inputs == RedirectInputs(s.inputs, closure, base);
    assert DistinctTargets(c.inputs) == RedirectAll(DistinctTargets(s.inputs), closure, base);
    var gs, gc := GroupedByState(s.inputs), GroupedByState(c.inputs);
    assert |gc| == |gs|;
    forall k | 0 <= k < |gs|
      ensures EncodeTransitions(closure2, gc)[k] == EncodeTransitions(closure, gs)[k]
    {
      var d := DistinctTargets(s.inputs)[k];
      assert gc[k].dest == Redirect(closure, base, d);
      RangesToRedirect(s.inputs, closure, base, d);
      IndexOfCopy(closure, closure2, base, d);
    }
    assert EncodeTransitions(closure2, gc) == EncodeTransitions(closure, gs);
  }

  /** Index-wise equal acceptance and symbols give the same accepting-symbol list. */
  lemma {:induction false} AcceptingSymbolsOfCopy<A, T>(g: seq<State<A, T>>, closure: seq<nat>,
                                                        g2: seq<State<A, T>>, closure2: seq<nat>)
    requires forall k :: 0 <= k < |closure| ==> closure[k] < |g|
    requires |closure2| == |closure| && forall k :: 0 <= k < |closure2| ==> closure2[k] < |g2|
    requires forall k :: 0 <= k < |closure| ==>
      g2[closure2[k]].isAccepting == g[closure[k]].isAccepting &&
      g2[closure2[k]].acceptSymbol == g[closure[k]].acceptSymbol
    ensures AcceptingSymbols(g2, closure2) == AcceptingSymbols(g, closure)
    decreases |closure|
  {
    if closure != [] {
      var n := |closure| - 1;
      AcceptingSymbolsOfCopy(g, closure[..n], g2, closure2[..n]);
    }
  }

  /** Row-wise equal tables are equal, failures included. */
  lemma {:induction false} RowsOfCopy<A, T>(g: seq<State<A, T>>, closure: seq<nat>, g2: seq<State<A, T>>,
                                            closure2: seq<nat>, lookup: map<A, int>, n: nat)
    requires forall k :: 0 <= k < |closure| ==> closure[k] < |g|
    requires |closure2| == |closure| && forall k :: 0 <= k < |closure2| ==> closure2[k] < |g2|
    requires n <= |closure|
    requires forall i :: 0 <= i < n ==> Row(g2, closure2, lookup, i) == Row(g, closure, lookup, i)
    ensures Rows(g2, closure2, lookup, n) == Rows(g, closure, lookup, n)
    decreases n
  {
    if n > 0 {
      RowsOfCopy(g, closure, g2, closure2, lookup, n - 1);
    }
  }

  /** Two closures aligned copy by copy give the same symbol lookup and the same rows. */
  lemma SameTableWhenAligned<A, T>(g: seq<State<A, T>>, closure: seq<nat>, g2: seq<State<A, T>>, closure2: seq<nat>,
                                   base: nat, symbolTable: Option<seq<Option<A>>>)
    requires forall k :: 0 <= k < |closure| ==> closure[k] < |g|
    requires |closure2| == |closure| && forall k :: 0 <= k < |closure| ==> closure2[k] == base + k && closure2[k] < |g2|
    requires forall k :: 0 <= k < |closure| ==>
      EdgesInside(g[closure[k]], closure) && g2[closure2[k]] == CopyState(g[closure[k]], closure, base)
    ensures SymbolLookup(g2, closure2, symbolTable) == SymbolLookup(g, closure, symbolTable)
    ensures SymbolLookup(g, closure, symbolTable).Success? ==>
      var lookup := SymbolLookup(g, closure, symbolTable).value;
      Rows(g2, closure2, lookup, |closure|) == Rows(g, closure, lookup, |closure|)
  {
    AcceptingSymbolsOfCopy(g, closure, g2, closure2);
    if SymbolLookup(g, closure, symbolTable).Success? {
      var lookup := SymbolLookup(g, closure, symbolTable).value;
      forall i | 0 <= i < |closure|
        ensures Row(g2, closure2, lookup, i) == Row(g, closure, lookup, i)
      {
        RowOfCopy(g, closure, g2, closure2, base, lookup, i);
      }
      RowsOfCopy(g, closure, g2, closure2, lookup, |closure|);
    }
  }

  /**
   * A clone is indistinguishable from its original by its DFA table: the
   * table built from the returned copy equals the table built from the
   * start state, with or without a symbol table, errors included.
   */
  lemma CloneTableUnchanged<A, T>(g: seq<State<A, T>>, start: nat, g2: seq<State<A, T>>, copy: nat,
                                  symbolTable: Option<seq<Option<A>>>)
    requires ValidGraph(g) && start < |g| && IsCloneOf(g, start, g2, copy)
    ensures ValidGraph(g2) && copy < |g2|
    ensures DfaStateTable(g2, copy, symbolTable) == DfaStateTable(g, start, symbolTable)
  {
    CloneValid(g, start, g2, copy);
    CloneClosureAligned(g, start, g2, copy);
    var closure, closure2 := FillClosure(g, start), FillClosure(g2, copy);
    SameTableWhenAligned(g, closure, g2, closure2, copy, symbolTable);
  }
}
