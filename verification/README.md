# CharFA core in Dafny

This project is a verified model of the core of a small C# regular-expression engine. The engine is built around `CharFA<TAccept>`, a finite-automaton state. Each state has:

- an accepting flag;
- an accept symbol;
- a tag;
- an ordered dictionary of input transitions, each from a character range to a destination state;
- a list of epsilon transitions.

The model covers four parts of that engine:

- **Clone** (`Regex/FA/CharFA.Clone.cs`) copies the closure of a state, which is every state reachable from it. Each copy's edges are redirected to the copies.
- **IsNeutral and FillNeutralStates** (`Regex/FA/CharFA.Neutral.cs`). `IsNeutral` recognises states that have no input transitions and exactly one epsilon transition. `FillNeutralStates` appends the neutral states of a closure to a list.
- **ToDfaStateTable** (`Regex/FA/CharFA.DfaStateTable.cs`) encodes a DFA as an array of rows, one per closure state. Each row holds:
  - an accept-symbol id, or -1 for a non-accepting state;
  - one transition per destination, holding its packed character ranges and its row index.
- **The compiled lexer** `Lex` in `RegexDemo/Program.cs` is a goto-coded DFA over a parse cursor. It reads longest runs of digits (id 0), of ASCII letters (id 1) and of whitespace (id 2). Any other character becomes a one-character error token (id 3). The model also covers the demo's driver loop, which calls `Lex` until the input ends.

## Modules

- **`CharFAGraph`** (`fa_graph.dfy`) is the state graph as an arena. `Arena.states` is a sequence of `State` values, and a state's identity is its index in that sequence. The class `Arena` is the heap that `Clone` allocates into.
  - `FillClosure` is the closure in depth-first preorder. Its contract says the start state comes first, there are no duplicates, the closure is closed under successors, and it is exactly the reachable set.
  - `IndexOf` is `IList.IndexOf`.
- **`CharRanges`** (`char_range.dfy`) holds `CodeUnit`, the 16-bit value of a C# `char` (lone surrogates included), character ranges over it, and their packed pair form. The lexer's input is a sequence of code units too, so a character outside the Basic Multilingual Plane is two of them, as in a C# string.
- **`CharFAClone`** (`fa_clone.dfy`) holds the `Clone` method and the lemmas about what a clone is.
- **`CharFANeutral`** (`fa_neutral.dfy`) holds `IsNeutral`, a mutable `StateList` standing for the caller's `IList`, and both `FillNeutralStates` overloads.
- **`CharFADfaStateTable`** (`fa_dfa_table.dfy`) holds two things:
  - the table as a specification function `DfaStateTable`, which returns `Failure` where the C# code throws;
  - the imperative `ToDfaStateTable`, proved equal to that function.
- **`CloneTable`** (`clone_table.dfy`) proves that a clone and its original encode to the same DFA table.
- **`CompiledLexer`** (`lexer.dfy`) holds the `ParseContext` cursor as a class, `Lex`, and the driver `LexAll`. Both are proved against the token function `NextToken` and the token stream `Tokens`.
- **`Wrappers`** (`wrappers.dfy`) holds `Option` and `Result`.

## Model

| member | source | states |
|---|---|---|
| CharFAGraph.IndexOf | Regex/FA/CharFA.Clone.cs:24 | the result is the first index holding the element, or -1 exactly when it is absent |
| CharFAGraph.IndexOfDistinct | Regex/FA/CharFA.DfaStateTable.cs:49 | in a duplicate-free list, the index of element `k` is `k` |
| CharFAGraph.FillClosure | Regex/FA/CharFA.Clone.cs:11 | the closure starts with the state itself, has no duplicates, holds valid indices, and is closed under input and epsilon successors |
| CharFAGraph.ClosureIsReachable | Regex/FA/CharFA.DfaStateTable.cs:17 | a state is in the closure iff it is reachable from the start state through input and epsilon transitions |
| CharFAGraph.Arena.AddState | Regex/FA/CharFA.Clone.cs:15-16 | appends a new state with the given acceptance, symbol and tag and no transitions, returns its handle, leaves the other states unchanged, and keeps the arena well formed |
| CharFAGraph.Arena.SetTransitions | Regex/FA/CharFA.Clone.cs:20-31 | gives one state its input and epsilon transitions, and leaves every other state unchanged |
| CharRanges.ToPackedChars | Regex/FA/CharFA.DfaStateTable.cs:48 | range `k` becomes the chars at `2k` and `2k+1`, with nothing else in between |
| CharRanges.PackedRoundTrip | Regex/FA/CharFA.DfaStateTable.cs:48 | reading the packed pairs back gives the original ranges in order |
| CharFAClone.Redirect | Regex/FA/CharFA.Clone.cs:24-25 | a target inside the closure maps to the copy block, and that copy corresponds to the target again through the closure |
| CharFAClone.Clone | Regex/FA/CharFA.Clone.cs:9-33 | the arena becomes the old arena followed by one copy per closure state, in closure order. Copy `i` carries the original's acceptance, symbol, tag, and edges redirected by closure index. The result is the copy of the start state, and the arena stays well formed |
| CharFAClone.AllocateCopies | Regex/FA/CharFA.Clone.cs:12-17 | `nclosure[i]` is a new state appended after the old arena, with closure state `i`'s acceptance, symbol and tag and no edges; the old states are untouched |
| CharFAClone.LinkCopies | Regex/FA/CharFA.Clone.cs:18-32 | each new state receives its original's edges redirected to the copies, and the old states are untouched |
| CharFAClone.CopyInputs | Regex/FA/CharFA.Clone.cs:22-26 | the copy's input transitions keep each range and order and send each target to `nclosure[closure.IndexOf(target)]` |
| CharFAClone.CopyEpsilons | Regex/FA/CharFA.Clone.cs:27-31 | the copy's epsilon transitions are the original ones, index for index, sent to their copies |
| CharFAClone.CloneValid | Regex/FA/CharFA.Clone.cs:18-32 | after cloning, every edge in the arena still leads to an existing state |
| CharFAClone.CopyStateEdges | Regex/FA/CharFA.Clone.cs:20-31 | a copied state has as many input and epsilon edges as the original; all of them lead into the copy block, and its ranges stay distinct |
| CharFAClone.CloneStructure | Regex/FA/CharFA.Clone.cs:15-31 | copy `i` has the same acceptance, symbol, tag and edge counts as closure state `i`. Each input edge keeps its range, and every edge leads to the copy of the original edge's target |
| CharFAClone.CloneSharesNothing | Regex/FA/CharFA.Clone.cs:11-17 | the original states are unchanged and only point among themselves, while the copies only point to copies, so nothing is shared |
| CharFAClone.CloneClosureAligned | Regex/FA/CharFA.Clone.cs:33 | the closure of the returned copy is exactly the copy block, in the original closure's order, so element `i` is the copy of original element `i` |
| CharFANeutral.IsNeutral | Regex/FA/CharFA.Neutral.cs:9-11 | holds iff the state has no input transitions and exactly one epsilon transition |
| CharFANeutral.FillNeutralStatesIn | Regex/FA/CharFA.Neutral.cs:26-38 | returns the caller's list when given one, otherwise a fresh list. Its contents become the prior contents with the closure's neutral states appended in order, skipping those already present |
| CharFANeutral.FillNeutralStates | Regex/FA/CharFA.Neutral.cs:18-19 | the instance overload is the static overload applied to this state's closure |
| CharFANeutral.AppendNeutralKeepsPrefix | Regex/FA/CharFA.Neutral.cs:30-35 | the prior contents stay as a prefix, and a duplicate-free list stays duplicate-free |
| CharFANeutral.AppendNeutralContents | Regex/FA/CharFA.Neutral.cs:31-35 | a state is in the result iff it was already there or it is a neutral state of the closure |
| CharFANeutral.AppendNeutralInClosureOrder | Regex/FA/CharFA.Neutral.cs:30-35 | on a duplicate-free closure, the result is the prior list followed by the new neutral states, once each, in closure order |
| CharFADfaStateTable.DedupMembers | Regex/FA/CharFA.DfaStateTable.cs:25 | the first-seen list keeps exactly the elements of its input, without duplicates |
| CharFADfaStateTable.DedupPrefix | Regex/FA/CharFA.DfaStateTable.cs:21-30 | the first-seen list of a prefix is a prefix of the first-seen list of the whole |
| CharFADfaStateTable.RangesToMember | Regex/FA/CharFA.DfaStateTable.cs:41 | a range is in a destination's group iff the state has that input transition |
| CharFADfaStateTable.GroupedByState | Regex/FA/CharFA.DfaStateTable.cs:41 | no destination has two groups; a state is some group's destination iff some input transition leads to it; and a range is in a group iff the state has an input transition on that range to the group's destination |
| CharFADfaStateTable.RangeSource | Regex/FA/CharFA.DfaStateTable.cs:41 | every range of a destination's group comes from an input transition on that range to that destination |
| CharFADfaStateTable.RangeSourceOrdered | Regex/FA/CharFA.DfaStateTable.cs:41 | the ranges of a group keep the order of the transitions they come from, so two positions of a group never come from the same transition |
| CharFADfaStateTable.BuildSymbolLookup | Regex/FA/CharFA.DfaStateTable.cs:18-35 | the two lookup loops compute the symbol-id map of the specification, or the duplicate-key failure of the table loop |
| CharFADfaStateTable.ToDfaStateTable | Regex/FA/CharFA.DfaStateTable.cs:14-57 | the method fails exactly when the specification table fails, with the same error. Otherwise it returns a fresh array holding the specification table |
| CharFADfaStateTable.EncodeRow | Regex/FA/CharFA.DfaStateTable.cs:42-52 | fills a fresh transition array: entry `j` is group `j`'s packed ranges and its destination's closure index |
| CharFADfaStateTable.RowsSpec | Regex/FA/CharFA.DfaStateTable.cs:37-57 | the rows succeed iff every row's accepting symbol is in the lookup. Success gives one entry per closure state; failure names the first row that misses its symbol |
| CharFADfaStateTable.TableSymbolIdsSpec | Regex/FA/CharFA.DfaStateTable.cs:32-35 | with a symbol table, entry `i` gets id `i` and null entries are skipped. The lookup succeeds iff no symbol appears twice, and otherwise fails at the first repeat |
| CharFADfaStateTable.AutoSymbolIdsSpec | Regex/FA/CharFA.DfaStateTable.cs:19-30 | without a table, exactly the accepting symbols get ids. The ids are `0..n-1` for `n` distinct symbols, and they are injective and onto |
| CharFADfaStateTable.AutoSymbolIdsFirstSeen | Regex/FA/CharFA.DfaStateTable.cs:21-29 | the first accepting state with a symbol gives it the id equal to the number of distinct symbols seen before it, in closure order |
| CharFADfaStateTable.AutoSymbolIdsCover | Regex/FA/CharFA.DfaStateTable.cs:23-28 | every accepting closure state's symbol receives an automatic id |
| CharFADfaStateTable.AcceptingSymbolsPrefix | Regex/FA/CharFA.DfaStateTable.cs:22-24 | the symbols collected from a prefix of the closure are a prefix of those from the whole closure |
| CharFADfaStateTable.SymbolLookupNonNegative | Regex/FA/CharFA.DfaStateTable.cs:19-35 | every id in the lookup is non-negative, on both paths |
| CharFADfaStateTable.TableSucceeds | Regex/FA/CharFA.DfaStateTable.cs:32-35 | without a symbol table the encoding always succeeds. With one, it succeeds iff no symbol is listed twice and every accepting state's symbol is listed |
| CharFADfaStateTable.RowEntry | Regex/FA/CharFA.DfaStateTable.cs:41-55 | a single row has id -1 iff its state is not accepting. It has one transition per distinct destination, whose index points back to the destination and whose packed ranges read back to that destination's ranges. Destinations within the row are distinct |
| CharFADfaStateTable.TableEntry | Regex/FA/CharFA.DfaStateTable.cs:16-55 | the table has one row per closure state, and row 0 is the start state. A row's id is -1 iff its state is not accepting. Each distinct destination gets one transition, with its row index in bounds and pointing back to it, and packed ranges that read back to that destination's ranges. Destinations within a row are distinct |
| CharFADfaStateTable.TableTransitionsExact | Regex/FA/CharFA.DfaStateTable.cs:41-52 | closure state `i` has a transition on `r` to `d` iff some transition of row `i` names `d`'s row and its packed ranges contain `r` |
| CharFADfaStateTable.TableRangesDisjoint | Regex/FA/CharFA.DfaStateTable.cs:41-52 | when closure state `i`'s input ranges are pairwise disjoint, as in a DFA, any two ranges read back from row `i`, in one transition or in two, share no code unit |
| CloneTable.RowOfCopy | Regex/FA/CharFA.DfaStateTable.cs:41-55 | the row encoded for a copied state equals the row of its original, for any symbol lookup |
| CloneTable.CloneTableUnchanged | Regex/FA/CharFA.Clone.cs:9-33 | the DFA table built from a clone equals the table built from the original, with or without a symbol table, and the same holds for failures |
| CompiledLexer.ClassOf | RegexDemo/Program.cs:236-262 | the start state's dispatch: a character belongs to a class iff it is dispatched to it, and the three classes are disjoint |
| CompiledLexer.RunEnd | RegexDemo/Program.cs:263-294 | the loop states stop at the first character outside the class, so every character before is inside it |
| CompiledLexer.RunEndUnique | RegexDemo/Program.cs:263-294 | the longest run is unique: any end with the run properties is `RunEnd` |
| CompiledLexer.NextToken | RegexDemo/Program.cs:232-298 | a token always consumes at least one character and has an id in `0..3`. An error token is exactly one character in no class. A class token is the maximal run of its class |
| CompiledLexer.Tokens | RegexDemo/Program.cs:167-177 | the driver produces at most one token per input character, each non-empty and with an id in `0..3` |
| CompiledLexer.TokensCoverInput | RegexDemo/Program.cs:167-177 | the captured texts of the tokens, put together, are exactly the input |
| CompiledLexer.TokensWellFormed | RegexDemo/Program.cs:262-298 | every error token is one character in no class, and every other token consists only of its class's characters |
| CompiledLexer.TokensMaximal | RegexDemo/Program.cs:263-294 | two neighbouring tokens never share a class id (longest match) |
| CompiledLexer.SurrogatePairTwoErrors | RegexDemo/Program.cs:295-298 | the surrogate pair of U+1F600 is read as two code units, each an error token of its own |
| CompiledLexer.EnterRun | RegexDemo/Program.cs:236-261 | a start-state transition captures the first character and then the rest of its run, ending at `RunEnd` |
| CompiledLexer.MunchRun | RegexDemo/Program.cs:263-294 | a loop state captures and advances up to the end of the run and no further |
| CompiledLexer.Lex | RegexDemo/Program.cs:232-299 | returns the id of `NextToken` at the cursor, moves the cursor to its end, and appends exactly the consumed characters to the capture |
| CompiledLexer.LexAll | RegexDemo/Program.cs:167-177 | the driver loop terminates at the end of the input and reports exactly the token stream `Tokens` |

## Left out

- `ToDfa` and its progress reporting are not part of this model. `ToDfaStateTable` is modelled on the DFA it would produce, which is given as an arena and a start state. The `IProgress` side channel is dropped.
- `FillClosure` is not part of this model; its body here is a depth-first preorder. Its contract covers what the code relies on: start first, no duplicates, closed, and equal to the reachable set. The source's enumeration order may differ. `CloneClosureAligned` and `CloneTableUnchanged` need more than that contract: they rely on the closure order being determined by the edge lists alone, as the depth-first order is, so that a clone's closure lists the copies in the original's order. A traversal that meets the contract but orders states by handle would break them.
- `FillInputTransitionRangesGroupedByState` and `CharRange.ToPackedChars` are not part of this model. They are given simple definitions: groups in first-seen destination order, and ranges packed as consecutive (first, last) pairs. `GroupedByState`'s contract states only what any grouping must give. The transition order stated by `RowEntry` and `TableEntry` follows the chosen order; `TableTransitionsExact` and `TableRangesDisjoint` hold for any order.
- `ListDictionary` is not part of this model. It is taken to follow the `IDictionary` contract: `Add` on a present key throws, and reading a missing key throws. Both throws are the `Failure` results `DuplicateSymbol` and `MissingSymbol`.
- A null `AcceptSymbol` on an accepting state, and null states, are not modelled.
- `ParseContext` is not part of this model. Its cursor is modelled as the input, a position, and a capture buffer. `Current` reports -1 at the end of the input.
- `EnsureStarted`, line and column tracking, and reading from a stream are left out.
- CompiledLexer.Lex: requires a character at the cursor. The demo's driver calls it only when `Current` is not -1, and what `CaptureCurrent` does at the end of the input depends on `ParseContext`, which is not shown.
- CharFAClone.Clone: its two loops are the methods `AllocateCopies` and `LinkCopies`. Each copy's edge lists are built first and then set in one step, where the source adds edges one at a time to the new state's collections. The result is the same. Object identity is modelled by arena handles.
- Console output in the driver loop is replaced by the returned token list. The rest of `RegexDemo/Program.cs` is demo I/O and rendering.
- `Regex/FA/CharFA.CodeGeneration.cs`, `Regex/FA/CharFAMatch.cs` and `Regex/Ast/RegexBinaryExpression.cs` are outside the modelled core.
- Characters are UTF-16 code units, as a C# `char` is. Neither the engine nor the lexer combines surrogate pairs, and neither does the model.
