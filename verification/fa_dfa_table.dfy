/**
 * CharFA.ToDfaStateTable: a DFA serialised as a flat array of entries. Row
 * `i` describes state `i` of the DFA's closure; accept symbols become integer
 * ids, and each transition names its destination by closure index.
 */
module CharFADfaStateTable {
  import opened Wrappers
  import opened CharRanges
  import opened CharFAGraph

  /** CharDfaTransitionEntry: packed ranges and the row they lead to. */
  datatype DfaTransitionEntry = DfaTransitionEntry(packedRanges: seq<CodeUnit>, destination: int)

  /** CharDfaEntry: the accept symbol id (-1 when not accepting) and the transitions. */
  datatype DfaEntry = DfaEntry(acceptSymbolId: int, transitions: seq<DfaTransitionEntry>)

  /**
   * The exceptions the encoding can raise: a symbol table naming the same
   * symbol twice (ListDictionary.Add on a present key), or an accepting state
   * whose symbol the table does not name (the ListDictionary indexer on a missing key).
   */
  datatype TableError = DuplicateSymbol(index: nat) | MissingSymbol(row: nat)

  // ---------------------------------------------------------------------
  // First-seen order

  /** The elements of `xs` without repeats, each where it first appears. */
  function Dedup<X(==)>(xs: seq<X>): seq<X>
    decreases |xs|
  {
    if xs == [] then []
    else
      var d := Dedup(xs[..|xs| - 1]);
      if xs[|xs| - 1] in d then d else d + [xs[|xs| - 1]]
  }

  lemma {:induction false} DedupMembers<X>(xs: seq<X>)
    ensures Distinct(Dedup(xs))
    ensures forall x :: x in Dedup(xs) <==> x in xs
    decreases |xs|
  {
    if xs != [] {
      var init := xs[..|xs| - 1];
      DedupMembers(init);
      assert forall x :: x in xs <==> x in init || x == xs[|xs| - 1];
    }
  }

  /** Deduplicating a prefix gives a prefix of the deduplicated whole. */
  lemma {:induction false} DedupPrefix<X>(xs: seq<X>, n: nat)
    requires n <= |xs|
    ensures |Dedup(xs[..n])| <= |Dedup(xs)| && Dedup(xs)[..|Dedup(xs[..n])|] == Dedup(xs[..n])
    decreases |xs|
  {
    if n < |xs| {
      var init := xs[..|xs| - 1];
      assert init[..n] == xs[..n];
      DedupPrefix(init, n);
    } else {
      assert xs[..n] == xs;
    }
  }

  // ---------------------------------------------------------------------
  // FillInputTransitionRangesGroupedByState

  /** The ranges on which `ts` leads to `d`, in order. */
  function RangesTo(ts: seq<Transition>, d: nat): seq<CharRange>
    decreases |ts|
  {
    if ts == [] then []
    else RangesTo(ts[..|ts| - 1], d) + (if ts[|ts| - 1].dest == d then [ts[|ts| - 1].range] else [])
  }

  lemma {:induction false} RangesToMember(ts: seq<Transition>, d: nat, r: CharRange)
    ensures r in RangesTo(ts, d) <==> Transition(r, d) in ts
    decreases |ts|
  {
    if ts != [] {
      var init := ts[..|ts| - 1];
      RangesToMember(init, d, r);
      assert Transition(r, d) in ts <==> Transition(r, d) in init || Transition(r, d) == ts[|ts| - 1];
    }
  }

  lemma RangesToMembers(ts: seq<Transition>)
    ensures forall d, r :: r in RangesTo(ts, d) <==> Transition(r, d) in ts
  {
    forall d, r ensures r in RangesTo(ts, d) <==> Transition(r, d) in ts {
      RangesToMember(ts, d, r);
    }
  }

  /**
   * Where range `p` of `RangesTo(ts, d)` comes from: the index in `ts` of
   * the transition that contributed it.
   */
  function RangeSource(ts: seq<Transition>, d: nat, p: nat): (j: nat)
    requires p < |RangesTo(ts, d)|
    ensures j < |ts| && ts[j] == Transition(RangesTo(ts, d)[p], d)
    decreases |ts|
  {
    var n := |ts| - 1;
    if p < |RangesTo(ts[..n], d)| then RangeSource(ts[..n], d, p) else n
  }

  /** Ranges listed later in a group come from later transitions, so distinct positions have distinct sources. */
  lemma {:induction false} RangeSourceOrdered(ts: seq<Transition>, d: nat, p: nat, q: nat)
    requires p < q < |RangesTo(ts, d)|
    ensures RangeSource(ts, d, p) < RangeSource(ts, d, q)
    decreases |ts|
  {
    var n := |ts| - 1;
    if q < |RangesTo(ts[..n], d)| {
      RangeSourceOrdered(ts[..n], d, p, q);
    }
  }

  /** The distinct destination states of a state's input transitions, in first-seen order. */
  function DistinctTargets(ts: seq<Transition>): seq<nat> {
    Dedup(Targets(ts))
  }

  /** One destination state and the ranges leading to it. */
  datatype RangeGroup = RangeGroup(dest: nat, ranges: seq<CharRange>)

  /**
   * FillInputTransitionRangesGroupedByState: one group per destination of
   * `ts`, none repeated, each holding exactly the ranges that lead there.
   * Groups come in first-seen destination order, ranges in transition order.
   */
  function GroupedByState(ts: seq<Transition>): (groups: seq<RangeGroup>)
    ensures forall k1, k2 :: 0 <= k1 < k2 < |groups| ==> groups[k1].dest != groups[k2].dest
    ensures forall d :: d in Targets(ts) <==> exists k :: 0 <= k < |groups| && groups[k].dest == d
    ensures forall k, r :: 0 <= k < |groups| ==> (r in groups[k].ranges <==> Transition(r, groups[k].dest) in ts)
  {
    DedupMembers(Targets(ts));
    RangesToMembers(ts);
    var ds := DistinctTargets(ts);
    var groups := seq(|ds|, k requires 0 <= k < |ds| => RangeGroup(ds[k], RangesTo(ts, ds[k])));
    assert forall d :: d in ds ==> groups[IndexOf(ds, d)].dest == d;
    groups
  }

  // ---------------------------------------------------------------------
  // Accept-symbol ids

  /** The accept symbols of the accepting states of `closure`, in closure order. */
  function AcceptingSymbols<A, T>(g: seq<State<A, T>>, closure: seq<nat>): seq<A>
    requires forall k :: 0 <= k < |closure| ==> closure[k] < |g|
    decreases |closure|
  {
    if closure == [] then []
    else
      var fa := g[closure[|closure| - 1]];
      AcceptingSymbols(g, closure[..|closure| - 1]) + (if fa.isAccepting then [fa.acceptSymbol] else [])
  }

  /** Each listed symbol mapped to its position. */
  function IdsOf<A(==)>(syms: seq<A>): map<A, int> {
    map s | s in syms :: IndexOf(syms, s)
  }

  /** The ids assigned without a symbol table: 0, 1, 2, ... in order of first appearance. */
  function AutoSymbolIds<A(==), T>(g: seq<State<A, T>>, closure: seq<nat>): map<A, int>
    requires forall k :: 0 <= k < |closure| ==> closure[k] < |g|
  {
    IdsOf(Dedup(AcceptingSymbols(g, closure)))
  }

  /** The ids given by a symbol table: entry `i` gets id `i`; null entries are skipped. */
  function TableSymbolIds<A(==)>(symbolTable: seq<Option<A>>): Result<map<A, int>, TableError>
    decreases |symbolTable|
  {
    if symbolTable == [] then Success(map[])
    else
      var i := |symbolTable| - 1;
      match TableSymbolIds(symbolTable[..i])
      case Failure(e) => Failure(e)
      case Success(m) =>
        match symbolTable[i]
        case None => Success(m)
        case Some(s) => if s in m then Failure(DuplicateSymbol(i)) else Success(m[s := i])
  }

  function SymbolLookup<A(==), T>(g: seq<State<A, T>>, closure: seq<nat>, symbolTable: Option<seq<Option<A>>>)
    : Result<map<A, int>, TableError>
    requires forall k :: 0 <= k < |closure| ==> closure[k] < |g|
  {
    match symbolTable
    case None => Success(AutoSymbolIds(g, closure))
    case Some(t) => TableSymbolIds(t)
  }

  // ---------------------------------------------------------------------
  // Rows

  /** The transition entries of one state: packed ranges and destination row, group by group. */
  function EncodeTransitions(closure: seq<nat>, groups: seq<RangeGroup>): seq<DfaTransitionEntry> {
    seq(|groups|, k requires 0 <= k < |groups| =>
      DfaTransitionEntry(ToPackedChars(groups[k].ranges), IndexOf(closure, groups[k].dest)))
  }

  /** Row `i`, or None when the state accepts a symbol the lookup lacks. */
  function Row<A(==), T>(g: seq<State<A, T>>, closure: seq<nat>, lookup: map<A, int>, i: nat): Option<DfaEntry>
    requires i < |closure| && closure[i] < |g|
  {
    var fa := g[closure[i]];
    if fa.isAccepting && fa.acceptSymbol !in lookup then None
    else
      Some(DfaEntry(if fa.isAccepting then lookup[fa.acceptSymbol] else -1,
                    EncodeTransitions(closure, GroupedByState(fa.inputs))))
  }

  /** The first `n` rows, or the error raised by the first row that fails. */
  function Rows<A(==), T>(g: seq<State<A, T>>, closure: seq<nat>, lookup: map<A, int>, n: nat)
    : Result<seq<DfaEntry>, TableError>
    requires n <= |closure| && forall k :: 0 <= k < |closure| ==> closure[k] < |g|
  {
    if n == 0 then Success([])
    else
      match Rows(g, closure, lookup, n - 1)
      case Failure(e) => Failure(e)
      case Success(rows) =>
        match Row(g, closure, lookup, n - 1)
        case None => Failure(MissingSymbol(n - 1))
        case Some(entry) => Success(rows + [entry])
  }

  /** The table ToDfaStateTable returns for the DFA `start` in `g`, or the exception it throws. */
  function DfaStateTable<A(==), T>(g: seq<State<A, T>>, start: nat, symbolTable: Option<seq<Option<A>>>)
    : Result<seq<DfaEntry>, TableError>
    requires ValidGraph(g) && start < |g|
  {
    var closure := FillClosure(g, start);
    match SymbolLookup(g, closure, symbolTable)
    case Failure(e) => Failure(e)
    case Success(lookup) => Rows(g, closure, lookup, |closure|)
  }

  // ---------------------------------------------------------------------
  // The encoder

  lemma {:induction false} IndexOfAppend<X>(d: seq<X>, x: X, y: X)
    requires y in d
    ensures IndexOf(d + [x], y) == IndexOf(d, y)
    decreases |d|
  {
    if d[0] != y {
      assert (d + [x])[1..] == d[1..] + [x];
      IndexOfAppend(d[1..], x, y);
    }
  }

  lemma IdsOfSnoc<A>(d: seq<A>, x: A)
    requires x !in d
    ensures IdsOf(d + [x]) == IdsOf(d)[x := |d|]
  {
    forall y | y in d ensures IndexOf(d + [x], y) == IndexOf(d, y) {
      IndexOfAppend(d, x, y);
    }
    assert forall j :: 0 <= j < |d| ==> (d + [x])[j] == d[j] && d[j] != x;
    assert (d + [x])[|d|] == x;
  }

  /** One turn of the counting loop: the next state adds its symbol when it is new. */
  lemma AutoIdsStep<A, T>(g: seq<State<A, T>>, closure: seq<nat>, j: nat)
    requires j < |closure| && forall k :: 0 <= k < |closure| ==> closure[k] < |g|
    ensures var prev := Dedup(AcceptingSymbols(g, closure[..j]));
      var next := Dedup(AcceptingSymbols(g, closure[..j + 1]));
      var fa := g[closure[j]];
      (fa.acceptSymbol in IdsOf(prev) <==> fa.acceptSymbol in prev) &&
      if fa.isAccepting && fa.acceptSymbol !in prev
      then next == prev + [fa.acceptSymbol] && IdsOf(next) == IdsOf(prev)[fa.acceptSymbol := |prev|]
      else next == prev
  {
    var fa := g[closure[j]];
    assert closure[..j + 1][..j] == closure[..j];
    var syms := AcceptingSymbols(g, closure[..j]);
    if !fa.isAccepting {
      assert AcceptingSymbols(g, closure[..j + 1]) == syms;
    } else {
      assert AcceptingSymbols(g, closure[..j + 1]) == syms + [fa.acceptSymbol];
      assert (syms + [fa.acceptSymbol])[..|syms|] == syms;
      if fa.acceptSymbol !in Dedup(syms) {
        IdsOfSnoc(Dedup(syms), fa.acceptSymbol);
      }
    }
  }

  /** Once a prefix of the symbol table fails, the whole table fails the same way. */
  lemma {:induction false} TableIdsFailureSticks<A>(symbolTable: seq<Option<A>>, n: nat)
    requires n <= |symbolTable| && TableSymbolIds(symbolTable[..n]).Failure?
    ensures TableSymbolIds(symbolTable) == TableSymbolIds(symbolTable[..n])
    decreases |symbolTable|
  {
    if n < |symbolTable| {
      var init := symbolTable[..|symbolTable| - 1];
      assert init[..n] == symbolTable[..n];
      TableIdsFailureSticks(init, n);
    } else {
      assert symbolTable[..n] == symbolTable;
    }
  }

  /** Once a row fails, the table fails with that row's error. */
  lemma {:induction false} RowsFailureSticks<A, T>(g: seq<State<A, T>>, closure: seq<nat>, lookup: map<A, int>, n: nat, m: nat)
    requires n <= m <= |closure| && forall k :: 0 <= k < |closure| ==> closure[k] < |g|
    requires Rows(g, closure, lookup, n).Failure?
    ensures Rows(g, closure, lookup, m) == Rows(g, closure, lookup, n)
    decreases m
  {
    if n < m {
      RowsFailureSticks(g, closure, lookup, n, m - 1);
    }
  }

  /** The first half of ToDfaStateTable: the accept-symbol lookup, counted or read from the table. */
  method BuildSymbolLookup<A(==), T>(g: seq<State<A, T>>, closure: seq<nat>, symbolTable: Option<seq<Option<A>>>)
    returns (r: Result<map<A, int>, TableError>)
    requires forall k :: 0 <= k < |closure| ==> closure[k] < |g|
    ensures r == SymbolLookup(g, closure, symbolTable)
  {
    var symbolLookup: map<A, int> := map[];
    if symbolTable.None? {
      var i := 0;
      for j := 0 to |closure|
        invariant symbolLookup == IdsOf(Dedup(AcceptingSymbols(g, closure[..j])))
        invariant i == |Dedup(AcceptingSymbols(g, closure[..j]))|
      {
        var fa := g[closure[j]];
        AutoIdsStep(g, closure, j);
        if fa.isAccepting && fa.acceptSymbol !in symbolLookup {
          symbolLookup := symbolLookup[fa.acceptSymbol := i];
          i := i + 1;
        }
      }
      assert closure[..|closure|] == closure;
    } else {
      var table := symbolTable.value;
      for i := 0 to |table|
        invariant TableSymbolIds(table[..i]) == Success(symbolLookup)
      {
        assert table[..i + 1][..i] == table[..i];
        if table[i].Some? {
          if table[i].value in symbolLookup {
            TableIdsFailureSticks(table, i + 1);
            return Failure(DuplicateSymbol(i));
          }
          symbolLookup := symbolLookup[table[i].value := i];
        }
      }
      assert table[..|table|] == table;
    }
    r := Success(symbolLookup);
  }

  /**
   * ToDfaStateTable on a DFA (the result of ToDfa): build the symbol lookup,
   * then fill one row per closure state, in closure order.
   */
  method ToDfaStateTable<A(==), T>(dfa: Arena<A, T>, start: nat, symbolTable: Option<seq<Option<A>>>)
    returns (r: Result<array<DfaEntry>, TableError>)
    requires dfa.Valid() && start < |dfa.states|
    ensures r.Failure? <==> DfaStateTable(dfa.states, start, symbolTable).Failure?
    ensures r.Failure? ==> r.error == DfaStateTable(dfa.states, start, symbolTable).error
    ensures r.Success? ==> fresh(r.value) && r.value[..] == DfaStateTable(dfa.states, start, symbolTable).value
  {
    var g := dfa.states;
    var closure := FillClosure(g, start);
    var lookup := BuildSymbolLookup(g, closure, symbolTable);
    if lookup.Failure? {
      return Failure(lookup.error);
    }
    var symbolLookup := lookup.value;
    var result := new DfaEntry[|closure|];
    for i := 0 to result.Length
      invariant Rows(g, closure, symbolLookup, i) == Success(result[..i])
    {
      var fa := g[closure[i]];
      var trgs := GroupedByState(fa.inputs);
      var trns := EncodeRow(closure, trgs);
      if fa.isAccepting && fa.acceptSymbol !in symbolLookup {
        RowsFailureSticks(g, closure, symbolLookup, i + 1, |closure|);
        return Failure(MissingSymbol(i));
      }
      var entry := DfaEntry(if fa.isAccepting then symbolLookup[fa.acceptSymbol] else -1, trns[..]);
      assert Row(g, closure, symbolLookup, i) == Some(entry);
      result[i] := entry;
      assert result[..i + 1] == result[..i] + [entry];
    }
    assert result[..] == result[..|closure|];
    r := Success(result);
  }

  /** The inner loop of ToDfaStateTable: one transition entry per destination group. */
  method EncodeRow(closure: seq<nat>, trgs: seq<RangeGroup>) returns (trns: array<DfaTransitionEntry>)
    ensures fresh(trns) && trns[..] == EncodeTransitions(closure, trgs)
  {
    trns := new DfaTransitionEntry[|trgs|];
    var j := 0;
    while j < |trgs|
      invariant 0 <= j <= |trgs|
      invariant trns[..j] == EncodeTransitions(closure, trgs)[..j]
    {
      trns[j] := DfaTransitionEntry(ToPackedChars(trgs[j].ranges), IndexOf(closure, trgs[j].dest));
      j := j + 1;
    }
  }

  // ---------------------------------------------------------------------
  // What the table promises

  /**
   * The rows succeed iff no row lacks its accept symbol; then there is one
   * entry per row, and otherwise the error names the first failing row.
   */
  lemma {:induction false} RowsSpec<A, T>(g: seq<State<A, T>>, closure: seq<nat>, lookup: map<A, int>, n: nat)
    requires n <= |closure| && forall k :: 0 <= k < |closure| ==> closure[k] < |g|
    ensures Rows(g, closure, lookup, n).Success? <==> forall i :: 0 <= i < n ==> Row(g, closure, lookup, i).Some?
    ensures Rows(g, closure, lookup, n).Success? ==>
      |Rows(g, closure, lookup, n).value| == n &&
      forall i :: 0 <= i < n ==> Rows(g, closure, lookup, n).value[i] == Row(g, closure, lookup, i).value
    ensures Rows(g, closure, lookup, n).Failure? ==>
      var e := Rows(g, closure, lookup, n).error;
      e.MissingSymbol? && e.row < n && Row(g, closure, lookup, e.row).None? &&
      forall i :: 0 <= i < e.row ==> Row(g, closure, lookup, i).Some?
    decreases n
  {
    if n > 0 {
      RowsSpec(g, closure, lookup, n - 1);
    }
  }

  /** No symbol is named twice in the table (null entries aside). */
  predicate NoDuplicateSymbols<A(==)>(symbolTable: seq<Option<A>>) {
    forall i, j :: 0 <= i < j < |symbolTable| && symbolTable[i].Some? ==> symbolTable[j] != symbolTable[i]
  }

  /**
   * With a symbol table, entry `i` gets id `i`, null entries get nothing,
   * and the lookup fails exactly when a symbol is named twice, at the first repeat.
   */
  lemma {:induction false} TableSymbolIdsSpec<A>(symbolTable: seq<Option<A>>)
    ensures TableSymbolIds(symbolTable).Success? <==> NoDuplicateSymbols(symbolTable)
    ensures TableSymbolIds(symbolTable).Success? ==>
      var m := TableSymbolIds(symbolTable).value;
      (forall i :: 0 <= i < |symbolTable| && symbolTable[i].Some? ==>
        symbolTable[i].value in m && m[symbolTable[i].value] == i) &&
      (forall s :: s in m ==> 0 <= m[s] < |symbolTable| && symbolTable[m[s]] == Some(s))
    ensures TableSymbolIds(symbolTable).Failure? ==>
      var e := TableSymbolIds(symbolTable).error;
      e.DuplicateSymbol? && e.index < |symbolTable| && NoDuplicateSymbols(symbolTable[..e.index]) &&
      exists i :: 0 <= i < e.index && symbolTable[i].Some? && symbolTable[i] == symbolTable[e.index]
    decreases |symbolTable|
  {
    if symbolTable != [] {
      var n := |symbolTable| - 1;
      var init := symbolTable[..n];
      TableSymbolIdsSpec(init);
      assert forall i :: 0 <= i < n ==> symbolTable[i] == init[i];
      match TableSymbolIds(init)
      case Failure(e) =>
        assert symbolTable[..e.index] == init[..e.index];
      case Success(m) =>
        assert init == symbolTable[..n];
        match symbolTable[n]
        case None =>
        case Some(x) =>
          if x in m {
            var i := m[x];
            assert symbolTable[i] == Some(x);
          }
    }
  }

  /** Without a symbol table, ids are positions in the first-seen list of distinct accept symbols. */
  lemma AutoSymbolIdsSpec<A, T>(g: seq<State<A, T>>, closure: seq<nat>)
    requires forall k :: 0 <= k < |closure| ==> closure[k] < |g|
    ensures var syms := AcceptingSymbols(g, closure);
      var m := AutoSymbolIds(g, closure);
      var count := |Dedup(syms)|;
      (forall s :: s in m <==> s in syms) &&
      (forall s :: s in m ==> 0 <= m[s] < count) &&
      (forall s1, s2 :: s1 in m && s2 in m && s1 != s2 ==> m[s1] != m[s2]) &&
      (forall n :: 0 <= n < count ==> Dedup(syms)[n] in m && m[Dedup(syms)[n]] == n)
  {
    var syms := AcceptingSymbols(g, closure);
    var d := Dedup(syms);
    DedupMembers(syms);
    var m := AutoSymbolIds(g, closure);
    forall n | 0 <= n < |d| ensures d[n] in m && m[d[n]] == n {
      IndexOfDistinct(d, n);
    }
  }

  lemma {:induction false} AcceptingSymbolsPrefix<A, T>(g: seq<State<A, T>>, closure: seq<nat>, n: nat)
    requires n <= |closure| && forall k :: 0 <= k < |closure| ==> closure[k] < |g|
    ensures var pre := AcceptingSymbols(g, closure[..n]);
      |pre| <= |AcceptingSymbols(g, closure)| && AcceptingSymbols(g, closure)[..|pre|] == pre
    decreases |closure|
  {
    if n < |closure| {
      var init := closure[..|closure| - 1];
      assert init[..n] == closure[..n];
      AcceptingSymbolsPrefix(g, init, n);
    } else {
      assert closure[..n] == closure;
    }
  }

  /**
   * Ids follow first appearance: the accepting state `j` that is the first
   * to carry its symbol gives that symbol the id equal to the number of
   * distinct symbols met before it.
   */
  lemma AutoSymbolIdsFirstSeen<A, T>(g: seq<State<A, T>>, closure: seq<nat>, j: nat)
    requires j < |closure| && forall k :: 0 <= k < |closure| ==> closure[k] < |g|
    requires g[closure[j]].isAccepting && g[closure[j]].acceptSymbol !in AcceptingSymbols(g, closure[..j])
    ensures g[closure[j]].acceptSymbol in AutoSymbolIds(g, closure)
    ensures AutoSymbolIds(g, closure)[g[closure[j]].acceptSymbol] == |Dedup(AcceptingSymbols(g, closure[..j]))|
  {
    var x := g[closure[j]].acceptSymbol;
    var prev := Dedup(AcceptingSymbols(g, closure[..j]));
    DedupMembers(AcceptingSymbols(g, closure[..j]));
    AutoIdsStep(g, closure, j);
    var syms := AcceptingSymbols(g, closure);
    AcceptingSymbolsPrefix(g, closure, j + 1);
    var pre := AcceptingSymbols(g, closure[..j + 1]);
    DedupPrefix(syms, |pre|);
    var d := Dedup(syms);
    assert Dedup(syms[..|pre|]) == prev + [x];
    IndexOfAfterPrefix(d, prev, x);
  }

  /** An element that first appears right after `prev` sits at index `|prev|`. */
  lemma IndexOfAfterPrefix<X>(d: seq<X>, prev: seq<X>, x: X)
    requires |prev| < |d| && d[..|prev| + 1] == prev + [x] && x !in prev
    ensures x in d && IndexOf(d, x) == |prev|
  {
    assert d[|prev|] == (prev + [x])[|prev|];
    assert forall i :: 0 <= i < |prev| ==> d[i] == d[..|prev| + 1][i] == prev[i];
  }

  /** The lookup holds only non-negative ids, so -1 can only mean "not accepting". */
  lemma SymbolLookupNonNegative<A, T>(g: seq<State<A, T>>, closure: seq<nat>, symbolTable: Option<seq<Option<A>>>)
    requires forall k :: 0 <= k < |closure| ==> closure[k] < |g|
    requires SymbolLookup(g, closure, symbolTable).Success?
    ensures forall s :: s in SymbolLookup(g, closure, symbolTable).value ==> SymbolLookup(g, closure, symbolTable).value[s] >= 0
  {
    match symbolTable
    case None => AutoSymbolIdsSpec(g, closure);
    case Some(t) => TableSymbolIdsSpec(t);
  }

  /** Every accepting closure state's symbol receives an id when none is given. */
  lemma AutoSymbolIdsCover<A, T>(g: seq<State<A, T>>, closure: seq<nat>, i: nat)
    requires i < |closure| && forall k :: 0 <= k < |closure| ==> closure[k] < |g|
    requires g[closure[i]].isAccepting
    ensures g[closure[i]].acceptSymbol in AutoSymbolIds(g, closure)
  {
    AutoSymbolIdsSpec(g, closure);
    AcceptingSymbolsPrefix(g, closure, i + 1);
    assert closure[..i + 1][..i] == closure[..i];
    var pre := AcceptingSymbols(g, closure[..i + 1]);
    assert pre[|pre| - 1] == g[closure[i]].acceptSymbol;
    assert AcceptingSymbols(g, closure)[|pre| - 1] == pre[|pre| - 1];
  }

  /**
   * When the encoding succeeds: without a symbol table it always does; with
   * one, iff no symbol is named twice and every accepting state's symbol is named.
   */
  lemma TableSucceeds<A, T>(g: seq<State<A, T>>, start: nat, symbolTable: Option<seq<Option<A>>>)
    requires ValidGraph(g) && start < |g|
    ensures var closure := FillClosure(g, start);
      DfaStateTable(g, start, symbolTable).Success? <==>
        match symbolTable
        case None => true
        case Some(t) =>
          NoDuplicateSymbols(t) &&
          forall i :: 0 <= i < |closure| && g[closure[i]].isAccepting ==> Some(g[closure[i]].acceptSymbol) in t
  {
    var closure := FillClosure(g, start);
    match symbolTable
    case None =>
      forall i | 0 <= i < |closure| && g[closure[i]].isAccepting
        ensures Row(g, closure, AutoSymbolIds(g, closure), i).Some?
      {
        AutoSymbolIdsCover(g, closure, i);
      }
      RowsSpec(g, closure, AutoSymbolIds(g, closure), |closure|);
    case Some(t) =>
      TableSymbolIdsSpec(t);
      if TableSymbolIds(t).Success? {
        var m := TableSymbolIds(t).value;
        RowsSpec(g, closure, m, |closure|);
        forall i | 0 <= i < |closure| && g[closure[i]].isAccepting
          ensures Row(g, closure, m, i).Some? <==> Some(g[closure[i]].acceptSymbol) in t
        {
          var x := g[closure[i]].acceptSymbol;
          if Some(x) in t {
            var k :| 0 <= k < |t| && t[k] == Some(x);
          }
        }
      }
  }

  /** One row on its own: the accept id and the encoded transitions of closure state `i`. */
  lemma RowEntry<A, T>(g: seq<State<A, T>>, closure: seq<nat>, lookup: map<A, int>, i: nat)
    requires i < |closure| && forall k :: 0 <= k < |closure| ==> closure[k] < |g|
    requires forall d :: d in Successors(g[closure[i]]) ==> d in closure
    requires forall s :: s in lookup ==> lookup[s] >= 0
    requires Row(g, closure, lookup, i).Some?
    ensures var e := Row(g, closure, lookup, i).value;
      var s := g[closure[i]];
      var targets := DistinctTargets(s.inputs);
      (e.acceptSymbolId == -1 <==> !s.isAccepting) &&
      |e.transitions| == |targets| &&
      (forall k :: 0 <= k < |targets| ==>
        0 <= e.transitions[k].destination < |closure| &&
        closure[e.transitions[k].destination] == targets[k] &&
        |e.transitions[k].packedRanges| % 2 == 0 &&
        FromPackedChars(e.transitions[k].packedRanges) == RangesTo(s.inputs, targets[k])) &&
      (forall k1, k2 :: 0 <= k1 < k2 < |targets| ==>
        e.transitions[k1].destination != e.transitions[k2].destination)
  {
    var s := g[closure[i]];
    var targets := DistinctTargets(s.inputs);
    DedupMembers(Targets(s.inputs));
    var groups := GroupedByState(s.inputs);
    forall k | 0 <= k < |targets|
      ensures targets[k] in closure
      ensures FromPackedChars(ToPackedChars(groups[k].ranges)) == RangesTo(s.inputs, targets[k])
    {
      assert targets[k] in Targets(s.inputs);
      assert targets[k] in Successors(s);
      PackedRoundTrip(groups[k].ranges);
    }
  }

  /**
   * Row `i` of a table describes closure state `i` (row 0 the start state):
   * -1 exactly when it is not accepting, and one transition per distinct
   * destination, naming that destination's row and packing its ranges.
   */
  lemma TableEntry<A, T>(g: seq<State<A, T>>, start: nat, symbolTable: Option<seq<Option<A>>>, i: nat)
    requires ValidGraph(g) && start < |g|
    requires DfaStateTable(g, start, symbolTable).Success?
    requires i < |FillClosure(g, start)|
    ensures var t := DfaStateTable(g, start, symbolTable).value;
      var closure := FillClosure(g, start);
      var s := g[closure[i]];
      var targets := DistinctTargets(s.inputs);
      |t| == |closure| && closure[0] == start &&
      (t[i].acceptSymbolId == -1 <==> !s.isAccepting) &&
      |t[i].transitions| == |targets| &&
      (forall k :: 0 <= k < |targets| ==>
        0 <= t[i].transitions[k].destination < |t| &&
        closure[t[i].transitions[k].destination] == targets[k] &&
        |t[i].transitions[k].packedRanges| % 2 == 0 &&
        FromPackedChars(t[i].transitions[k].packedRanges) == RangesTo(s.inputs, targets[k])) &&
      (forall k1, k2 :: 0 <= k1 < k2 < |targets| ==>
        t[i].transitions[k1].destination != t[i].transitions[k2].destination)
  {
    var closure := FillClosure(g, start);
    var lookup := SymbolLookup(g, closure, symbolTable).value;
    RowsSpec(g, closure, lookup, |closure|);
    SymbolLookupNonNegative(g, closure, symbolTable);
    assert closure[i] in closure;
    RowEntry(g, closure, lookup, i);
  }

  /** No two input transitions of the state share a code unit: the invariant of a DFA built by ToDfa. */
  predicate InputRangesDisjoint(ts: seq<Transition>) {
    forall j1, j2 :: 0 <= j1 < j2 < |ts| ==> !Overlap(ts[j1].range, ts[j2].range)
  }

  /**
   * The packed ranges of a row never overlap: when closure state `i` has
   * disjoint input ranges, any two ranges read back from row `i`, from the
   * same transition or from two, share no code unit.
   */
  lemma TableRangesDisjoint<A, T>(g: seq<State<A, T>>, start: nat, symbolTable: Option<seq<Option<A>>>,
                                  i: nat, k1: nat, p: nat, k2: nat, q: nat)
    requires ValidGraph(g) && start < |g|
    requires DfaStateTable(g, start, symbolTable).Success?
    requires i < |FillClosure(g, start)| && InputRangesDisjoint(g[FillClosure(g, start)[i]].inputs)
    ensures var t := DfaStateTable(g, start, symbolTable).value;
      i < |t| &&
      (k1 < |t[i].transitions| && k2 < |t[i].transitions| &&
       p < |FromPackedChars(t[i].transitions[k1].packedRanges)| &&
       q < |FromPackedChars(t[i].transitions[k2].packedRanges)| &&
       (k1 != k2 || p != q) ==>
         !Overlap(FromPackedChars(t[i].transitions[k1].packedRanges)[p],
                  FromPackedChars(t[i].transitions[k2].packedRanges)[q]))
  {
    var t := DfaStateTable(g, start, symbolTable).value;
    var closure := FillClosure(g, start);
    var s := g[closure[i]];
    TableEntry(g, start, symbolTable, i);
    if k1 < |t[i].transitions| && k2 < |t[i].transitions| &&
       p < |FromPackedChars(t[i].transitions[k1].packedRanges)| &&
       q < |FromPackedChars(t[i].transitions[k2].packedRanges)| &&
       (k1 != k2 || p != q)
    {
      var targets := DistinctTargets(s.inputs);
      var d1, d2 := targets[k1], targets[k2];
      var j1, j2 := RangeSource(s.inputs, d1, p), RangeSource(s.inputs, d2, q);
      if k1 != k2 {
        DedupMembers(Targets(s.inputs));
        assert d1 != d2;
      } else if p < q {
        RangeSourceOrdered(s.inputs, d1, p, q);
      } else {
        RangeSourceOrdered(s.inputs, d1, q, p);
      }
      assert j1 != j2;
    }
  }

  /**
   * Nothing is lost or invented: closure state `i` has an input transition
   * on `r` to `d` iff some transition of row `i` leads to `d`'s row and its
   * packed ranges include `r`.
   */
  lemma TableTransitionsExact<A, T>(g: seq<State<A, T>>, start: nat, symbolTable: Option<seq<Option<A>>>,
                                    i: nat, r: CharRange, d: nat)
    requires ValidGraph(g) && start < |g|
    requires DfaStateTable(g, start, symbolTable).Success?
    requires i < |FillClosure(g, start)|
    ensures var t := DfaStateTable(g, start, symbolTable).value;
      var closure := FillClosure(g, start);
      |t| == |closure| &&
      (Transition(r, d) in g[closure[i]].inputs <==>
        exists k :: 0 <= k < |t[i].transitions| && 0 <= t[i].transitions[k].destination < |closure| &&
          closure[t[i].transitions[k].destination] == d &&
          |t[i].transitions[k].packedRanges| % 2 == 0 &&
          r in FromPackedChars(t[i].transitions[k].packedRanges))
  {
    var t := DfaStateTable(g, start, symbolTable).value;
    var closure := FillClosure(g, start);
    var s := g[closure[i]];
    var targets := DistinctTargets(s.inputs);
    TableEntry(g, start, symbolTable, i);
    RangesToMember(s.inputs, d, r);
    DedupMembers(Targets(s.inputs));
    if Transition(r, d) in s.inputs {
      var j :| 0 <= j < |s.inputs| && s.inputs[j] == Transition(r, d);
      assert d == Targets(s.inputs)[j];
      var k := IndexOf(targets, d);
      assert closure[t[i].transitions[k].destination] == d;
    }
  }
}
