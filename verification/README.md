# Kythe verification

A model of seven parts of Kythe in Dafny, with proofs of what they promise.
`dafny verify dfyconfig.toml` checks the whole project. Every lemma is proved without
automatic induction.

**The verifier** (`Terms`, `Facts`, `FactIndex`, `Solver`, `SolverMeaning`, `SolverIndex`,
`SearchTree`, `GroundTerms`, `GoalGroups`, `DecidedGroups`, `GoalForms`, `SolverMachine`,
`SymbolTable`, `Sorting`, `FactDatabase`, `EntryTexts`, `Verifier`, `Arena`). Goals with EVars are solved against a database of facts by unification with an
occurs check, backtracking by undoing bindings, and cuts. Continuations are lists of pending
equations and goals; the search is given once as functions on a store of bindings
(`Solver`), and once as methods that assign to EVar objects and undo their assignments
(`SolverMachine`), which are proved to agree. The meaning of a goal is independent of the
search: a goal holds under a valuation of the EVars if its two sides have the same value, or
if it has the value of a fact or an anchor of the database. A result is one of the cut,
`kNoException`, `kImpossible` and `kInvalidProgram`, and the theorems treat them apart. The
search is also compared with the tree of all its branches, without any order among them
(`SearchTree`), whose ends explain each of these results.

**The storage codec** (`Wire`, `Messages`, `SourceMessage`, `WireMachine`,
`RequestMachine`, `SourceMachine`, `WireBytes`). The generated byte loops for varints, length prefixes,
nested messages, map fields and unknown fields, following the sections "Base 128 Varints"
and "Message Structure" of the Protocol Buffers encoding specification. A message is a
sequence of fields; unknown fields of any wire type may stand between its own, and between
those of the messages inside it.

**Documentation markup** (`Spans`, `Comments`, `CommentEnds`, `CommentSpans`,
`CommentStarts`, `Javadoxygen`, `HtmlTokens`, `HtmlPages`, `PagePositions`, `PageLiterals`,
`HtmlRenderer`). Comments are parsed into spans, the spans merged and sorted, and the text
rendered with a stack of open spans and a buffer per tag block. The grammar of comments is
given as functions (`Comments`), the parser as the index-driven loops and recursion of the
original. What a page is (`HtmlPages`) is said without a stack, from the spans around each
position; what a reader of it sees is said of the string (`HtmlTokens`).

**Static claims** (`VNames`, `Sets`, `StaticClaim`), **dynamic claims** (`DynamicClaim`,
`ClaimClient`), **Kythe URIs** (`KytheUri`, `UriLiterals`) and **UTF-16 to UTF-8 offsets**
(`Utf8Offsets`). The dynamic claim protocol is a state machine whose events are the single
steps of any number of clients in any interleaving. URIs are texts over bytes and follow
sections 2.1 and 2.3 of RFC 3986. Offsets follow section 3 of RFC 3629 and section 2 of
RFC 2781.

Where the code and its documentation disagree, the model follows the code:

- `URI::FromString` is documented to return the empty URI on failure
  (kythe/cxx/common/kythe_uri.h:53-60). It returns what had been read;
  `KytheUri.RefusedIsEmptyIff` says exactly when that is empty.
- The order of spans compares the tag block of a span with itself
  (kythe/cxx/doc/markup_handler.h:57-58), so spans that differ in their tag block only are
  not ordered. The order is still a strict weak one.
- A satisfiable group can be answered with `kInvalidProgram`, when two unbound EVars that
  are already aliased are unified again (`GoalGroups.AliasedVariablesAreInvalid`).
  `Terms.OccursDecides` says that aliases are exactly where the occurs check is wrong, and
  `DecidedGroups.SafeProgramIsDecided` which programs it leaves alone.
- Link targets are escaped like text (kythe/cxx/doc/html_renderer.cc:191-200), which does not
  cover the quote that ends them: `HtmlTokens.HrefReadsBack` has the exact condition.
- The validation pass reads the source of the preceding fact without asking whether it has
  one; `FactDatabase.MissingSourceIsRead` says exactly when it has none.
- The cache of line indexes in kythe/ts/lib/encoding.ts:32-39 is read and never filled; the
  model builds the index for each lookup.

Foreign calls are parameters: reading a number from text in anchors (`parseSize`), the
inspections of the verifier (`inspect`), cleaning a path (`clean`), the key of a VName and a
try (`hash`), and which characters break lines (`isBreak`). Where a theorem needs more than
that they are functions it says so: `clean` is idempotent, or `hash` is injective.

## Model

| member | source | states |
|---|---|---|
| `Terms.SolutionIsConsistent` | kythe/cxx/verifier/verifier.cc:407-429 | An acyclic set of bindings always has a solution: the valuation got by following the bindings agrees with every one of them. |
| `Terms.ResolveIsEval` | kythe/cxx/verifier/verifier.cc:150-159 | Following bindings through a term gives the value the term has under that solution. |
| `Terms.ExtendsConsistent` | kythe/cxx/verifier/verifier.cc:411-427 | Whatever satisfies a larger set of bindings satisfies the smaller one it extends. |
| `Terms.BindKeepsAcyclic` | kythe/cxx/verifier/verifier.cc:386-427 | Binding an unbound EVar to a term in which the occurs check does not find it keeps the binding graph acyclic and only extends it. |
| `Terms.BindOfOccurringIsCyclic` | kythe/cxx/verifier/verifier.cc:386-421 | Binding an EVar that the occurs check does find would make the graph cyclic. |
| `Terms.OccursDecides` | kythe/cxx/verifier/verifier.cc:386-421 | Where the occurs check stops an equation of an EVar with another term, the equation has a solution that agrees with the bindings if and only if the term is an alias of the EVar, and then all of them are solutions; so the check is a false alarm exactly on aliases. |
| `Terms.BindLowersUnbound` | kythe/cxx/verifier/verifier.cc:407-429 | A binding lowers the number of unbound EVars by exactly one, the first part of the measure by which the search ends. |
| `Terms.GroundNeverOccurs` | kythe/cxx/verifier/verifier.cc:386-405 | No EVar occurs in a term without EVars, so facts and anchors never fail the occurs check. |
| `Facts.ComparatorsAreTotalOrders` | kythe/cxx/verifier/verifier.cc:50-148 | Both fact orderings are strict total orders: irreflexive, transitive, and any two different facts are ordered one way. |
| `Facts.EncodedIsLex` | kythe/cxx/verifier/verifier.cc:117-148 | The validation order is the lexicographic order of (source, edge kind, target, name, value), nodes included, and tells all facts apart. |
| `Facts.LookupIsLex` | kythe/cxx/verifier/verifier.cc:290-321 | The lookup order is a lexicographic order too, with the columns rearranged for searching, and tells all facts apart. |
| `Facts.NodeLessIsLex` | kythe/cxx/verifier/verifier.cc:73-115 | VNames and plain identifiers are compared in one lexicographic order. |
| `FactIndex.DerefKeepsValue` | kythe/cxx/verifier/verifier.cc:150-159 | Dereferencing ends on every acyclic store and does not change the value of a term. |
| `FactIndex.FactCompareIsCompare` | kythe/cxx/verifier/verifier.cc:212-264 | Comparing a fact with a partly known key is a comparison of columns against a pattern, in which the first unknown column decides as `incomplete` says. |
| `FactIndex.PartitionedByKey` | kythe/cxx/verifier/verifier.cc:271-288 | On a database in lookup order the facts below a key come first and the facts above it last, for every key: what the binary searches need. |
| `FactIndex.LowerBound` | kythe/cxx/verifier/verifier.cc:438-448 | The binary search finds the first fact that is not below the key. |
| `FactIndex.UpperBound` | kythe/cxx/verifier/verifier.cc:438-448 | The binary search finds the first fact above the key. |
| `FactIndex.BoundsInOrder` | kythe/cxx/verifier/verifier.cc:431-461 | The lower bound never passes the upper bound. |
| `FactIndex.UnifiableMatchesKey` | kythe/cxx/verifier/verifier.cc:165-205 | A fact that can be made equal to an atom agrees with every column the key of the atom knows under the current bindings. |
| `FactIndex.RangeHoldsUnifiable` | kythe/cxx/verifier/verifier.cc:431-461 | Every fact that some extension of the current bindings makes equal to the atom lies between the two bounds. |
| `Solver.Run` | kythe/cxx/verifier/verifier.cc:343-350 | Resuming a continuation ends, for every acyclic store; the result store is acyclic and extends it; any result but the cut leaves every binding as it was. |
| `Solver.Unify` | kythe/cxx/verifier/verifier.cc:352-384 | The same for unification of two terms. |
| `Solver.UnifyEVar` | kythe/cxx/verifier/verifier.cc:407-429 | The same for binding an EVar: the binding is undone unless the continuation reached the cut. |
| `Solver.Try` | kythe/cxx/verifier/verifier.cc:442-499 | The same for trying facts or anchors one after the other. |
| `Solver.MatchAtom` | kythe/cxx/verifier/verifier.cc:480-504 | The same for matching an atom: equality goals, anchors by location, and facts. |
| `Solver.SolveGoal` | kythe/cxx/verifier/verifier.cc:506-515 | The same for a goal; a goal that is not an application is an invalid program. |
| `SolverMeaning.RunDecides` | kythe/cxx/verifier/verifier.cc:343-528 | For every continuation: at the cut every valuation of the bindings left behind satisfies all pending equations and goals; with `kNoException` no extension of the starting bindings does. |
| `SolverMeaning.UnifyDecides` | kythe/cxx/verifier/verifier.cc:352-384 | The same verdict for an equation in front of a continuation, tuples unified element by element. |
| `SolverMeaning.UnifyEVarDecides` | kythe/cxx/verifier/verifier.cc:407-429 | The same verdict when an EVar is bound, already bound, or would be bound to itself. |
| `SolverMeaning.AtomDecides` | kythe/cxx/verifier/verifier.cc:431-504 | The same verdict for an atom, whether it is an equality, an anchor location or a fact pattern. |
| `SolverMeaning.DeadIsUnsatisfiable` | kythe/cxx/verifier/verifier.cc:480-504 | Goals for which the search answers `kImpossible` hold under no valuation. |
| `GoalForms.AnchorGoalMeans` | kythe/cxx/verifier/verifier.cc:463-499 | The goal `=(range, t)`, read off its text, holds under a valuation if and only if `t` is the vname `vname(signature, corpus, root, path, language)` of an anchor over exactly that range. |
| `GoalForms.EqualityGoalMeans` | kythe/cxx/verifier/verifier.cc:463-502 | The goal `=(a, b)` with anything else on the left holds if and only if both sides have one value. |
| `GoalForms.FactGoalMeans` | kythe/cxx/verifier/verifier.cc:431-461 | The goal `fact(source, kind, target, name, value)` holds if and only if some fact has the values of those five parts, vnames spelled out. |
| `GoalForms.OtherGoalsFail` | kythe/cxx/verifier/verifier.cc:480-504 | An application of any other identifier, or `=` of anything but two arguments, never holds. |
| `GoalForms.AnchorGoalIsDecided` | kythe/cxx/verifier/verifier.cc:480-504 | From any bindings the search solves `=(range, t)` if and only if they allow `t` to be the vname of an anchor over that range. |
| `GoalForms.FactGoalIsDecided` | kythe/cxx/verifier/verifier.cc:480-504 | From any bindings the search solves `fact(..)` if and only if they allow its five parts to be those of a fact. |
| `GoalForms.AnchorGoalWithoutAnchor` | kythe/cxx/verifier/verifier.cc:484-491 | If no anchor has the range, the answer to `=(range, t)` is `kImpossible` and nothing is bound. |
| `GoalForms.UnanchoredGroupIsNotSolved` | kythe/cxx/verifier/verifier.cc:484-491 | No group with such a goal reaches its cut. |
| `SolverIndex.RunSame` | kythe/cxx/verifier/verifier.cc:431-461 | The search with the index and the search that scans the whole database give the same result and the same bindings, for every store, continuation and cut. |
| `SolverIndex.IndexSkipsOnlyFailures` | kythe/cxx/verifier/verifier.cc:431-461 | Trying only the facts between the bounds is the same as trying all facts in order. |
| `SolverIndex.OutsideRangeFails` | kythe/cxx/verifier/verifier.cc:438-461 | A fact outside the bounds fails to unify and leaves no trace, whatever the continuation. |
| `SearchTree.SearchStep` | kythe/cxx/verifier/verifier.cc:343-528 | One step of the search, whatever the continuation: at an end it answers as the kind of end says and leaves the bindings alone; elsewhere it fails if and only if the search fails after every possible step, and otherwise its answer is the answer after one of them. |
| `SearchTree.NextIsLess` | kythe/cxx/verifier/verifier.cc:343-528 | Every branch is finite: each step lowers the unbound EVars, the goals or the work left. |
| `SearchTree.StepMeaning` | kythe/cxx/verifier/verifier.cc:343-528 | Where no equation is refused, a valuation satisfies what is left to do if and only if it satisfies what is left after one of the steps. |
| `SearchTree.RefusedDecides` | kythe/cxx/verifier/verifier.cc:386-421 | At a refused equation the work left is satisfied by exactly those valuations that satisfy what comes behind it, if the equation is between names of one EVar, and by none otherwise. |
| `SearchTree.ResultIsReached` | kythe/cxx/verifier/verifier.cc:343-528 | Whatever the search answers, some branch ends that way, and the bindings it leaves at the cut are those at the end of the branch. |
| `SearchTree.ResultIsExact` | kythe/cxx/verifier/verifier.cc:343-528 | The search, index and all, answers `kNoException` if and only if no branch ends in any other way; and where no branch is solved or impossible it answers `kInvalidProgram` if and only if a branch comes to a refused equation or a goal that is none. |
| `SearchTree.SatisfiableIff` | kythe/cxx/verifier/verifier.cc:343-528 | Work can be satisfied if and only if a branch can, at the end of which nothing is left to do or an equation between names of one EVar is refused. |
| `GoalGroups.GroupDecides` | kythe/cxx/verifier/verifier.cc:343-528 | Group solving is sound and refuting: at the cut the bindings have a solution and all their solutions satisfy every goal; after `kNoException` or `kImpossible` no extension of the starting bindings does, and nothing changed; after `kInvalidProgram` a branch of the search is invalid. |
| `GoalGroups.GroupIsExact` | kythe/cxx/verifier/verifier.cc:343-528 | If no branch is invalid, a group reaches its cut if and only if it is satisfiable; an unsatisfiable group that is not impossible is called invalid if and only if some branch is. |
| `GoalGroups.GroupIgnoresIndex` | kythe/cxx/verifier/verifier.cc:431-528 | A group has the same outcome with and without the index. |
| `GroundTerms.StaysGround` | kythe/cxx/verifier/verifier.cc:386-405 | A term without unbound EVars, read through the bindings, stays so when more EVars are bound. |
| `GroundTerms.FreshNeverOccurs` | kythe/cxx/verifier/verifier.cc:386-405 | An EVar that no binding and no earlier goal mentions is not found by the occurs check in a term that does not mention it. |
| `DecidedGroups.UnifyAnswers` | kythe/cxx/verifier/verifier.cc:352-429 | Unifying two terms of which one is ground under the bindings never ends in `kInvalidProgram` by itself, whatever the continuation. |
| `DecidedGroups.SafeGroupIsDecided` | kythe/cxx/verifier/verifier.cc:343-528 | A condition on the text of the goals under which a group is never called invalid, and reaches its cut if and only if it is satisfiable: fact and anchor goals are free, and an equality has a ground side or introduces its left EVar. |
| `DecidedGroups.SafeProgramIsDecided` | kythe/cxx/verifier/verifier.cc:539-566 | The same over all groups of a program: it is never called invalid, and it is solved if and only if no group fails under the bindings that the groups before it leave. |
| `GoalGroups.AliasedVariablesAreInvalid` | kythe/cxx/verifier/verifier.cc:389-421 | The group `=(X, Y)`, `=(Y, X)` is satisfiable but is answered with `kInvalidProgram`: solvable does not imply solved. |
| `GoalGroups.SolveGoalGroups` | kythe/cxx/verifier/verifier.cc:539-566 | Solving the groups in turn only extends the bindings and keeps them acyclic, and ends in one of three results. |
| `GoalGroups.SolvedProgramHolds` | kythe/cxx/verifier/verifier.cc:539-571 | Whole-program soundness with negation: if all groups are solved, then in the final bindings and in every further extension each `kNoneMayFail` group holds and no `kSomeMustFail` group can be satisfied, also for groups refuted before later bindings were made. |
| `GoalGroups.HoldsInExtension` | kythe/cxx/verifier/verifier.cc:539-566 | A group that holds goes on holding when more EVars are bound. |
| `GoalGroups.UnsolvedProgram` | kythe/cxx/verifier/verifier.cc:539-566 | What the other answers mean: after `kNoException` some group fails under the bindings that the groups before it leave (a positive one cannot be satisfied, a negated one can); after `kInvalidProgram`, if inspections succeed, some group is invalid there; a solved program has no group that fails. |
| `SolverMachine.Search.SetCurrent` | kythe/cxx/verifier/assertion_ast.h:282-291 | Setting one EVar changes that binding and no other. |
| `SolverMachine.Search.OccursIn` | kythe/cxx/verifier/verifier.cc:386-405 | The occurs check on EVar objects answers what it should of their bindings, changing nothing. |
| `SolverMachine.Search.Resume` | kythe/cxx/verifier/verifier.cc:343-350 | In place, the search leaves the EVars as the search on values says; a goal reached is recorded in `highest_goal_reached_`. |
| `SolverMachine.Search.UnifyTuple` | kythe/cxx/verifier/verifier.cc:343-350 | Element by element unification in place agrees with the search on values. |
| `SolverMachine.Search.UnifyTerms` | kythe/cxx/verifier/verifier.cc:352-384 | Unification in place agrees with the search on values. |
| `SolverMachine.Search.AssignEVar` | kythe/cxx/verifier/verifier.cc:407-429 | Binding and undoing in place agrees with the search on values. |
| `SolverMachine.Search.MatchAtomVersusDatabase` | kythe/cxx/verifier/verifier.cc:431-461 | The indexed loop over facts, in place, agrees with the search on values. |
| `SolverMachine.Search.SolveAtom` | kythe/cxx/verifier/verifier.cc:480-504 | Matching an atom in place agrees with the search on values. |
| `SolverMachine.Search.SolveGoalArray` | kythe/cxx/verifier/verifier.cc:517-528 | Solving the goals of a group in place agrees with the search on values. |
| `SolverMachine.Search.SolveGroups` | kythe/cxx/verifier/verifier.cc:539-566 | The loop over groups, in place, agrees with the groups solved on values. |
| `SolverMachine.Search.Solve` | kythe/cxx/verifier/verifier.cc:568-571 | If `Solve` returns true, every group holds of the bindings the EVar objects are left with. |
| `SymbolTables.SymbolTable.Intern` | kythe/cxx/verifier/assertion_ast.h:37-61 | Equal texts get equal symbols, new texts the next symbol, and no symbol ever changes its text. |
| `SymbolTables.InternTokens` | kythe/cxx/verifier/verifier.cc:587-601 | The constructor gives the built-in tokens the symbols 0, 1, 2, … in order; so kind < start < end. |
| `Sorting.SortSorts` | kythe/cxx/verifier/verifier.cc:892-905 | Sorting gives a sorted permutation. |
| `Sorting.SortedIsUnique` | kythe/cxx/verifier/verifier.cc:892-996 | For a total order there is only one sorted permutation, so it does not matter how `std::sort` finds it. |
| `FactDatabase.NeighboursIffAllPairs` | kythe/cxx/verifier/verifier.cc:840-996 | On sorted facts the checks of neighbours succeed if and only if every fact has valid form, no fact occurs twice (unless duplicates are ignored) and no node has two values for one fact name. |
| `FactDatabase.AcceptedShapes` | kythe/cxx/verifier/verifier.cc:850-890 | A fact on its own is accepted if and only if it is a named fact about a node, an edge with the name `/` and no value, or an edge with an ordinal, between VNames that are not all empty. |
| `FactDatabase.AcceptedFacts` | kythe/cxx/verifier/verifier.cc:850-985 | Facts are accepted if and only if each has one of these shapes, none is there twice unless duplicates are ignored, and no node has two values under one name. |
| `EntryTexts.OrdinalIsSplit` | kythe/cxx/verifier/verifier.cc:1024-1032 | An edge kind `k.o`, with `k` and `o` not empty and no dot in `o`, is stored as kind `k` with the fact `/kythe/ordinal` and the value `o`. |
| `EntryTexts.OtherKindsAreKept` | kythe/cxx/verifier/verifier.cc:1033-1043 | An entry with any other edge kind is stored as it is. |
| `EntryTexts.AcceptedTexts` | kythe/cxx/verifier/verifier.cc:850-985 | The same acceptance in texts: stored facts are accepted if and only if the entries they read back as are. |
| `EntryTexts.FoundTexts` | kythe/cxx/verifier/verifier.cc:907-960 | The anchors found are exactly those that entries with the fact names `/kythe/node/kind`, `/kythe/loc/start` and `/kythe/loc/end` tell of. |
| `FactDatabase.Sandwich` | kythe/cxx/verifier/verifier.cc:117-148 | In the validation order, what two facts agree on from the left every fact between them agrees on. |
| `FactDatabase.MissingSourceIsRead` | kythe/cxx/verifier/verifier.cc:906-985 | The pass reads the source of a preceding fact that has none if and only if a fact without a source is there and no fact with one comes before some well-formed fact: the inputs on which the code dereferences a null pointer. |
| `FactDatabase.TrackKeeps` | kythe/cxx/verifier/verifier.cc:907-960 | One step of the anchor state machine on valid sorted facts keeps the found anchors exact for the facts seen. |
| `FactDatabase.EndFound` | kythe/cxx/verifier/verifier.cc:930-960 | An anchor is found at its end fact if and only if the facts then describe it. |
| `Verifiers.Verifier.AssertSingleFact` | kythe/cxx/verifier/verifier.cc:1015-1052 | A fact is added whose texts are those of the entry, a dotted edge kind being split into kind and ordinal; no other fact changes. |
| `Verifiers.Verifier.AssertFacts` | kythe/cxx/verifier/verifier.cc:611-613 | Entries stored one after the other read back in order, each as its normalized form. |
| `Verifiers.PrepareEntries` | kythe/cxx/verifier/verifier.cc:892-996 | From a list of entries to an answer: it is accepted if and only if each entry, normalized, is a named node fact, an edge or an edge with an ordinal, none is given twice (unless duplicates are ignored) and no node gets two values under one name; and then the anchors are exactly those the entries tell of. |
| `Verifiers.Verifier.ConvertVName` | kythe/cxx/verifier/verifier.cc:998-1013 | The symbols of a converted VName stand for its texts. |
| `Verifiers.Verifier.CheckFacts` | kythe/cxx/verifier/verifier.cc:906-985 | The single pass over sorted facts succeeds if and only if the multiset of facts is valid, and finds each described anchor exactly once, on all facts on which it does not read a source that is missing. |
| `Verifiers.Verifier.PrepareDatabase` | kythe/cxx/verifier/verifier.cc:892-996 | Preparation succeeds exactly on valid fact multisets, facts without a source being refused, loses and adds no fact, leaves them in lookup order, and the first time leaves exactly one anchor entry for each VName with kind anchor, a usable start and an end. |
| `Verifiers.Verifier.VerifyAllGoals` | kythe/cxx/verifier/verifier.cc:753-763 | From unsorted facts to an answer: the database is prepared if and only if the facts are valid or it was before; the answer is true if and only if moreover the groups are solved; then every group holds of the final bindings and none fails where it was reached; if it is false though inspections succeed, some group fails where it was reached or, in a program that is not safe, is invalid there. |
| `Verifiers.WhyUnsolved` | kythe/cxx/verifier/verifier.cc:753-763 | From no bindings: an unsolved program has a group that fails or, unless it is safe, is invalid; a solved one has none that fails. |
| `Arenas.Arena.New` | kythe/cxx/verifier/assertion_ast.h:86-127 | A new region is aligned, inside one block and disjoint from every region given before; blocks are only added, and `next_block_index_` stays the number of blocks. |
| `Arenas.Requests` | kythe/cxx/verifier/assertion_ast.h:86-127 | For any sequence of requests the regions are large enough, aligned, each in one block, and pairwise disjoint. |
| `Arenas.OneMoreRegion` | kythe/cxx/verifier/assertion_ast.h:86-103 | A region behind everything the current block holds is disjoint from all earlier ones. |
| `Wire.VarintRoundTrip` | kythe/proto/storage_proto/storage.pb.go:1401-1409 | A varint written anywhere in a buffer is read back, with the position behind it. |
| `WireBytes.VarintDigits` | kythe/proto/storage_proto/storage.pb.go:1401-1409 | The bytes of a varint are the digits of the number to the base 128, lowest first, with 128 added to all but the last, and no more than are needed. |
| `Wire.SkipsExactly` | kythe/proto/storage_proto/storage.pb.go:3487-3585 | Skipping any well-formed field, groups nested to any depth included, advances by exactly its length. |
| `Wire.SkipsGroupExactly` | kythe/proto/storage_proto/storage.pb.go:3546-3574 | Skipping the inside of a group ends behind the matching end tag. |
| `WireBytes.SkippedWidths` | kythe/proto/storage_proto/storage.pb.go:3487-3585 | What is skipped behind a tag by its low three bits: eight bytes for 1, four for 5, a varint for 0, as many as announced for 2, an empty group for 3, and an error for 6 and 7. |
| `WireBytes.FixedWidths` | kythe/proto/storage_proto/storage.pb.go:3487-3585 | The two fixed widths behind tags of any length. |
| `WireBytes.RefusedTags` | kythe/proto/storage_proto/storage.pb.go:1684-1698 | A tag that ends a group, the field number zero, a declared member with another wire type and the wire types 6 and 7 are errors. |
| `Wire.UnmarshalIsFold` | kythe/proto/storage_proto/storage.pb.go:1666-1860 | The reading loop on an encoded sequence of fields is a fold of the message over those fields. |
| `Wire.UnknownFieldsAreTransparent` | kythe/proto/storage_proto/storage.pb.go:1840-1853 | Fields with unknown numbers, wherever they are inserted, do not change the message read. |
| `Wire.Decodes` | kythe/proto/storage_proto/storage.pb.go:1666-1860 | Reading an encoded sequence of fields gives what its known fields alone give. |
| `Messages.SignedRoundTrip` | kythe/proto/storage_proto/storage.pb.go:1191-1207 | Negative numbers sign-extend to ten-byte varints and come back, as 64-bit and as 32-bit integers. |
| `Messages.VarintLength` | kythe/proto/storage_proto/storage.pb.go:1653-1662 | The length of a varint is determined by the power of 128 it falls under. |
| `Messages.VNameRoundTrip` | kythe/proto/storage_proto/storage.pb.go:1666-1860 | Every VName is read back from its encoding with any unknown fields in between. |
| `Messages.EntryRoundTrip` | kythe/proto/storage_proto/storage.pb.go:2011-2215 | Every entry, with or without source and target, is read back with any unknown fields in between and inside its VNames. |
| `Messages.EntryDecodes` | kythe/proto/storage_proto/storage.pb.go:2011-2215 | Every entry is read back from its own encoding. |
| `Messages.UpdateReads` | kythe/proto/storage_proto/storage.pb.go:2523-2694 | Every update is read back, with any unknown fields in it and inside its VName. |
| `Messages.RequestRoundTrip` | kythe/proto/storage_proto/storage.pb.go:2409-2522 | Every write request is read back, its updates in order, with any unknown fields in between, inside its VName and updates, and inside the VNames of those. |
| `Messages.CountRoundTrip` | kythe/proto/storage_proto/storage.pb.go:2886-2973 | Every count request is read back, negative numbers included. |
| `WireBytes.VNameBytes` | kythe/proto/storage_proto/storage.pb.go:811-847 | The bytes of a VName: tags 0x0a, 0x12, 0x1a, 0x22 and 0x2a for signature, corpus, root, path and language, each with a length, those that are empty left out. |
| `WireBytes.EntryBytes` | kythe/proto/storage_proto/storage.pb.go:927-971 | The bytes of an entry: 0x0a source, 0x12 edge kind, 0x1a target, 0x22 fact name, 0x2a fact value. |
| `WireBytes.UpdateBytes` | kythe/proto/storage_proto/storage.pb.go:1087-1121 | The bytes of an update: 0x0a edge kind, 0x12 target, 0x1a fact name, 0x22 fact value. |
| `WireBytes.RequestBytes` | kythe/proto/storage_proto/storage.pb.go:1047-1075 | The bytes of a write request: 0x0a source, 0x12 for each update in order. |
| `WireBytes.CountBytes` | kythe/proto/storage_proto/storage.pb.go:1191-1207 | The bytes of a count request: 0x08 index, 0x10 shards, as 64 bits in two's complement. |
| `WireBytes.VNameMembers` | kythe/proto/storage_proto/storage.pb.go:1666-1860 | Reading one such field of a VName sets the member of that name and no other. |
| `WireBytes.EntryMembers` | kythe/proto/storage_proto/storage.pb.go:2011-2215 | The same for an entry. |
| `WireBytes.UpdateMembers` | kythe/proto/storage_proto/storage.pb.go:2523-2694 | The same for an update. |
| `WireBytes.RequestMembers` | kythe/proto/storage_proto/storage.pb.go:2409-2522 | The same for a write request, whose updates are appended. |
| `WireBytes.CountMembers` | kythe/proto/storage_proto/storage.pb.go:2886-2973 | The same for a count request, numbers from 2^63 on being negative. |
| `SourceMessages.SourceRoundTrip` | kythe/proto/internal_proto/internal.pb.go:688-994 | Every source is read back, for any order in which its two maps were written and any unknown fields in between, inside its edge groups and inside their edges. |
| `SourceMessages.EdgeReads` | kythe/proto/internal_proto/internal.pb.go:995-1092 | Every edge is read back, with its signed 32-bit ordinal and any unknown fields. |
| `SourceMessages.GroupReads` | kythe/proto/internal_proto/internal.pb.go:1093-1173 | Every edge group is read back, its edges in order, with any unknown fields in it and in its edges. |
| `SourceMessages.MapEntryReads` | kythe/proto/internal_proto/internal.pb.go:755-905 | The key and value of a map entry are read back. |
| `WireBytes.EdgeBytes` | kythe/proto/internal_proto/internal.pb.go:292-309 | The bytes of an edge: 0x0a ticket, 0x10 ordinal. |
| `WireBytes.GroupBytes` | kythe/proto/internal_proto/internal.pb.go:321-339 | The bytes of an edge group: 0x0a for each edge in order. |
| `WireBytes.MapEntryBytes` | kythe/proto/internal_proto/internal.pb.go:237-270 | The bytes of a map entry: 0x0a key, 0x12 value, both there even if empty. |
| `WireBytes.SourceBytes` | kythe/proto/internal_proto/internal.pb.go:226-280 | The bytes of a source in some order of its maps: 0x0a ticket, 0x12 for each fact, 0x1a for each edge group. |
| `WireBytes.EdgeMembers` | kythe/proto/internal_proto/internal.pb.go:995-1092 | Reading one such field of an edge sets the member of that name, an ordinal being the low 32 bits, signed. |
| `WireBytes.GroupMembers` | kythe/proto/internal_proto/internal.pb.go:1093-1173 | Reading one edge of a group appends it. |
| `WireBytes.SourceMapMembers` | kythe/proto/internal_proto/internal.pb.go:755-905 | Reading one fact of a source sets the value under its key. |
| `WireBytes.SourceGroupMembers` | kythe/proto/internal_proto/internal.pb.go:755-905 | Reading one edge group of a source sets the group under its key. |
| `WireMachine.EncodeVarint` | kythe/proto/storage_proto/storage.pb.go:1401-1409 | The in-place loop writes exactly the bytes of the varint at its offset and touches no other byte. |
| `WireMachine.Sov` | kythe/proto/storage_proto/storage.pb.go:1653-1662 | The size of a varint is the number of bytes written for it. |
| `WireMachine.VNameSize` | kythe/proto/storage_proto/storage.pb.go:1410-1434 | The size of a VName is the number of bytes of its encoding. |
| `WireMachine.MarshalVName` | kythe/proto/storage_proto/storage.pb.go:811-847 | A VName is written in place as its encoding, touching no other byte. |
| `WireMachine.EntrySize` | kythe/proto/storage_proto/storage.pb.go:1457-1481 | The size of an entry is the number of bytes of its encoding. |
| `WireMachine.MarshalEntry` | kythe/proto/storage_proto/storage.pb.go:927-971 | An entry is written in place as its encoding, nested VNames included, touching no other byte. |
| `WireMachine.Marshal` | kythe/proto/storage_proto/storage.pb.go:917-971 | A buffer of exactly `Size()` bytes is filled with the encoding, which reads back as the entry. |
| `WireMachine.ReadVarintAt` | kythe/proto/storage_proto/storage.pb.go:1666-1690 | The byte loop reads the varint, or reports overflow or the end of the data. |
| `WireMachine.SkipAt` | kythe/proto/storage_proto/storage.pb.go:3487-3585 | The skipping loops do what skipping a field means, on any bytes, errors included. |
| `WireMachine.SkipGroupAt` | kythe/proto/storage_proto/storage.pb.go:3546-3574 | The same for the inside of a group. |
| `WireMachine.UnmarshalLoop` | kythe/proto/storage_proto/storage.pb.go:1666-1860 | The reading loop does what reading a message means, on any bytes, errors included. |
| `RequestMachine.MarshalUpdate` | kythe/proto/storage_proto/storage.pb.go:1087-1121 | An update is written in place as its encoding, touching no other byte. |
| `RequestMachine.RequestSize` | kythe/proto/storage_proto/storage.pb.go:1509-1523 | The size of a write request is the number of bytes of its encoding. |
| `RequestMachine.MarshalRequest` | kythe/proto/storage_proto/storage.pb.go:1047-1075 | A write request is written in place as its encoding, updates in order, touching no other byte. |
| `RequestMachine.MarshalAndReadRequest` | kythe/proto/storage_proto/storage.pb.go:1037-1075 | A buffer of exactly `Size()` bytes is filled, and reading it gives the request back. |
| `RequestMachine.CountSize` | kythe/proto/storage_proto/storage.pb.go:1571-1581 | The size of a count request is the number of bytes of its encoding. |
| `RequestMachine.MarshalCount` | kythe/proto/storage_proto/storage.pb.go:1191-1207 | A count request is written in place as its encoding, touching no other byte. |
| `SourceMachine.SourceSizeIsOrderFree` | kythe/proto/internal_proto/internal.pb.go:545-573 | A source takes the same number of bytes in whatever order its maps are visited. |
| `SourceMachine.SourceSize` | kythe/proto/internal_proto/internal.pb.go:545-573 | The size computed while visiting the maps in one order is that number. |
| `SourceMachine.MarshalEdge` | kythe/proto/internal_proto/internal.pb.go:292-309 | An edge is written in place as its encoding. |
| `SourceMachine.MarshalGroup` | kythe/proto/internal_proto/internal.pb.go:321-339 | An edge group is written in place as its encoding, edges in order. |
| `SourceMachine.MarshalSource` | kythe/proto/internal_proto/internal.pb.go:226-280 | A source is written in place as its encoding for some order of its maps, and takes exactly `Size()` bytes although that visited the maps in another order. |
| `SourceMachine.MarshalAndRead` | kythe/proto/internal_proto/internal.pb.go:226-290 | A buffer of exactly `Size()` bytes is filled, and reading it gives the source back. |
| `Spans.SpanLessIsWeak` | kythe/cxx/doc/markup_handler.h:54-59 | The order of spans, in which the tag block of a span is compared with itself, is a strict weak order. |
| `PageLiterals.SpanOrder` | kythe/cxx/doc/markup_handler.h:54-59 | Spans come by where they begin, and longer ones first. |
| `PageLiterals.KindOrder` | kythe/cxx/doc/markup_handler.h:27-36 | Of one extent, tag blocks come first, then brief, code, markup, raw text and links, and of two links the one of the greater kind. |
| `Spans.PrintableSpans.EmplaceTagBlock` | kythe/cxx/doc/markup_handler.h:89-103 | The blocks of each kind are numbered 0, 1, 2, … as they are added. |
| `Spans.NumberedAreDistinct` | kythe/cxx/doc/markup_handler.h:98-103 | No two tag blocks share their id and number. |
| `Spans.PrintableSpans.Merge` | kythe/cxx/doc/markup_handler.cc:24-31 | Merging keeps exactly the non-empty spans of both, sorted; spans that are in range and nested or apart become what the renderer asks for. |
| `Comments.BraceGrows` | kythe/cxx/doc/javadoxygen_markup_handler.cc:298-339 | A brace block adds spans within itself, nested or apart, numbered, and each justified by the text. |
| `Comments.JavadocDescriptionGrows` | kythe/cxx/doc/javadoxygen_markup_handler.cc:138-150 | The same for a Javadoc description. |
| `Comments.DoxygenDescriptionGrows` | kythe/cxx/doc/javadoxygen_markup_handler.cc:191-223 | The same for a Doxygen description. |
| `Comments.DoxygenContentGrows` | kythe/cxx/doc/javadoxygen_markup_handler.cc:257-290 | The same for what a Doxygen tag stands for. |
| `Comments.JavadocContentGrows` | kythe/cxx/doc/javadoxygen_markup_handler.cc:152-189 | The same for what a Javadoc tag stands for. |
| `Comments.CommentGrows` | kythe/cxx/doc/javadoxygen_markup_handler.cc:342-386 | For every text: all spans are in range, pairwise nested or disjoint, numbered without repetition, markup spans cover only listed tags, the openings of brace blocks and the braces that close them, and every other span follows a tag that stands for it. |
| `Comments.VisitedComment` | kythe/cxx/doc/javadoxygen_markup_handler.cc:342-386 | The scan of a comment from any place it comes to gives the spans of the whole comment. |
| `Comments.JavadocTagIsMarked` | kythe/cxx/doc/javadoxygen_markup_handler.cc:352-361 | Every listed Javadoc tag at a line start that the scan comes to gets its markup span. |
| `Comments.DoxygenTagIsMarked` | kythe/cxx/doc/javadoxygen_markup_handler.cc:362-371 | Every listed Doxygen tag that the scan comes to gets its markup span. |
| `Comments.BraceIsMarked` | kythe/cxx/doc/javadoxygen_markup_handler.cc:298-339 | Every brace block with a listed tag that the scan comes to gets markup spans on its opening and on the brace that closes it. |
| `CommentEnds.JavadocBlocks` | kythe/cxx/doc/javadoxygen_markup_handler.cc:29-48 | Which Javadoc names open which tag block, and which stands for code. |
| `CommentEnds.DoxygenBlocks` | kythe/cxx/doc/javadoxygen_markup_handler.cc:52-56 | What the Doxygen names stand for, and which begin a section. |
| `CommentEnds.JavadocTagIsFound` | kythe/cxx/doc/javadoxygen_markup_handler.cc:103-129 | A listed Javadoc name behind its `@`, with no letter after it, is found. |
| `CommentEnds.DoxygenTagIsFound` | kythe/cxx/doc/javadoxygen_markup_handler.cc:103-129 | The same for a listed Doxygen name behind a backslash. |
| `CommentEnds.CloseMatches` | kythe/cxx/doc/javadoxygen_markup_handler.cc:316-331 | The closing brace of a block is the first behind which as many braces are closed as opened, and there is none exactly when none is. |
| `CommentEnds.BlockIsRead` | kythe/cxx/doc/javadoxygen_markup_handler.cc:298-339 | `{`, spaces, a listed tag and a matching brace are read as a block up to that brace. |
| `CommentEnds.OtherBraceIsRead` | kythe/cxx/doc/javadoxygen_markup_handler.cc:298-339 | Any other `{` stands for itself. |
| `CommentEnds.JavadocDescriptionEnds` | kythe/cxx/doc/javadoxygen_markup_handler.cc:138-150 | A Javadoc description runs over whole brace blocks up to the next `@` or its limit. |
| `CommentEnds.JavadocEndIsUnique` | kythe/cxx/doc/javadoxygen_markup_handler.cc:138-150 | There is only one place where it can end so. |
| `CommentEnds.AtsAreInBlocks` | kythe/cxx/doc/javadoxygen_markup_handler.cc:138-150 | Every `@` it runs over is inside a brace block. |
| `CommentEnds.DescriptionWithoutBraces` | kythe/cxx/doc/javadoxygen_markup_handler.cc:138-150 | Without braces it ends at the first `@`. |
| `CommentEnds.DoxygenDescriptionEnds` | kythe/cxx/doc/javadoxygen_markup_handler.cc:191-223 | A Doxygen description runs over brace blocks and code words up to a blank line, a tag that begins a section, or its limit. |
| `CommentEnds.BlankLineIs` | kythe/cxx/doc/javadoxygen_markup_handler.cc:211-221 | A line is blank if there are only blanks before its end. |
| `CommentEnds.WordEndIs` | kythe/cxx/doc/javadoxygen_markup_handler.cc:225-249 | The word behind blanks runs up to the next blank or line end; if only blanks are left, nothing is taken. |
| `CommentSpans.VisitedJavadocTag` | kythe/cxx/doc/javadoxygen_markup_handler.cc:352-361 | For every listed Javadoc tag that the scan comes to, the comment has its markup, and a tag block over exactly its description or code up to the end. |
| `CommentSpans.VisitedDoxygenTag` | kythe/cxx/doc/javadoxygen_markup_handler.cc:362-371 | For every listed Doxygen tag that the scan comes to, the comment has its markup, and a tag block or brief over exactly its description, or code over its word. |
| `CommentSpans.VisitedBlock` | kythe/cxx/doc/javadoxygen_markup_handler.cc:298-339 | For every brace block that the scan comes to, the comment has markup at both ends and the content it calls for in between. |
| `CommentSpans.BlockInJavadocTag` | kythe/cxx/doc/javadoxygen_markup_handler.cc:138-189 | The same for every brace block in the description of a Javadoc tag. |
| `CommentSpans.BlockInDoxygenTag` | kythe/cxx/doc/javadoxygen_markup_handler.cc:191-290 | The same for every brace block in the description of a Doxygen tag. |
| `CommentSpans.CodeInDoxygenTag` | kythe/cxx/doc/javadoxygen_markup_handler.cc:191-290 | For every `\c` in the description of a Doxygen tag, the comment has its markup and code over its word. |
| `CommentStarts.OneSpanPerStart` | kythe/cxx/doc/javadoxygen_markup_handler.cc:342-386 | No two spans of one kind begin at one place, and what overlaps markup is around it: nothing is marked twice, and nothing is inside markup. |
| `Javadoxygen.ParseTag` | kythe/cxx/doc/javadoxygen_markup_handler.cc:103-129 | The name behind a delimiter is the whole run of letters there and must be listed. |
| `Javadoxygen.ParseJavadocBrace` | kythe/cxx/doc/javadoxygen_markup_handler.cc:298-339 | The loops and recursion read a brace block as the grammar says. |
| `Javadoxygen.FindCloseBrace` | kythe/cxx/doc/javadoxygen_markup_handler.cc:316-331 | The closing brace is the one that matches, with nested braces counted. |
| `Javadoxygen.EvaluateJavadocTag` | kythe/cxx/doc/javadoxygen_markup_handler.cc:152-189 | A Javadoc tag is evaluated as the grammar says. |
| `Javadoxygen.ParseJavadocDescription` | kythe/cxx/doc/javadoxygen_markup_handler.cc:138-150 | A Javadoc description is read as the grammar says. |
| `Javadoxygen.ParseDoxygenDescription` | kythe/cxx/doc/javadoxygen_markup_handler.cc:191-223 | A Doxygen description ends at a blank line or a tag that begins a section, as the grammar says. |
| `Javadoxygen.ParseDoxygenWord` | kythe/cxx/doc/javadoxygen_markup_handler.cc:225-249 | The word after blanks is read; nothing if only blanks are left. |
| `Javadoxygen.EvaluateDoxygenTag` | kythe/cxx/doc/javadoxygen_markup_handler.cc:257-290 | A Doxygen tag is evaluated as the grammar says. |
| `Javadoxygen.ParseJavadoxygen` | kythe/cxx/doc/javadoxygen_markup_handler.cc:342-386 | Ends on every text; the spans added are those of the grammar, hence in range, nested, numbered and justified. |
| `Javadoxygen.RenderComment` | kythe/cxx/doc/markup_handler.cc:116-128 | A comment without links, parsed, merged and rendered: for every text the result is the one page of spans that are those of the grammar, nest and are numbered, and under which a character is hidden if and only if it is in a tag or in the ends of a brace block that the comment marks. |
| `Javadoxygen.CommentShows` | kythe/cxx/doc/markup_handler.cc:116-128 | So on the page of a comment each buffer shows exactly the characters that belong to it and are not in such markup, each once, in order and in the elements around it. |
| `HtmlTokens.FlattenReads` | kythe/cxx/doc/html_renderer.cc:63-78 | A reader that drops tags and decodes the three entities sees exactly the characters and titles written, in order: escaping hides nothing and adds nothing. |
| `HtmlTokens.LessStartsTag` | kythe/cxx/doc/html_renderer.cc:63-78 | A character of the output is `<` if and only if a tag of the page begins there. |
| `HtmlTokens.HrefReadsBack` | kythe/cxx/doc/html_renderer.cc:191-200 | The target of a link is read back from between its quotes if and only if it has no quote in it. |
| `HtmlTokens.QuoteCutsHref` | kythe/cxx/doc/html_renderer.cc:191-200 | The target `a"b` is read back as `a`, because quotes are not escaped. |
| `HtmlPages.Chain` | kythe/cxx/doc/html_renderer.cc:149-171 | Spans around one position end no later than the spans before them: the stack discipline. |
| `HtmlPages.KeptAreOuter` | kythe/cxx/doc/html_renderer.cc:149-171 | From one position to the next the spans that stay are the outer ones, in the same order. |
| `HtmlPages.ClosingNests` | kythe/cxx/doc/html_renderer.cc:151-171 | Closing spans takes exactly their elements off in the buffer and shows nothing. |
| `HtmlPages.OpeningNests` | kythe/cxx/doc/html_renderer.cc:177-207 | Opening spans puts exactly their elements on in the buffer and shows nothing. |
| `HtmlPages.ContentShows` | kythe/cxx/doc/html_renderer.cc:126-212 | Every buffer is balanced and shows exactly the characters whose innermost tag block it is and whose innermost span is not markup, in order, each inside the elements of the spans around it. |
| `PagePositions.ShownIffNotHidden` | kythe/cxx/doc/html_renderer.cc:208-211 | A character is written if and only if the last span over it is not markup. |
| `PagePositions.CurrentIffBelongs` | kythe/cxx/doc/html_renderer.cc:151-189 | It is written to the buffer of the last tag block over it, or to the main text if there is none. |
| `PagePositions.ContentAt` | kythe/cxx/doc/html_renderer.cc:126-212 | Every buffer shows exactly the characters that belong to it and whose innermost span is not markup, each once and in order, each in the code and link elements over it inside its tag block; said of spans and positions only. |
| `PageLiterals.CodePage` | kythe/cxx/doc/html_renderer.cc:151-207 | A text that is all code is written as `<tt>`, the escaped text and `</tt>`. |
| `PageLiterals.LinkPage` | kythe/cxx/doc/html_renderer.cc:158-200 | A text that is all link is written between `<a href="` with its first definition and `</a>`, or alone if it has none. |
| `PageLiterals.BlockPage` | kythe/cxx/doc/html_renderer.cc:89-123 | A text that is all one tag block is written as a division with its title and one with the text. |
| `PageLiterals.PlainPages` | kythe/cxx/doc/html_renderer.cc:166-211 | A text that is all markup is left out; a brief or raw text is only escaped. |
| `PageLiterals.SectionOrder` | kythe/cxx/doc/markup_handler.h:37-44 | Sections come in the order author, returns, since, version, parameter, throws, and by number within. |
| `PageLiterals.Entities` | kythe/cxx/doc/html_renderer.cc:63-78 | `<`, `>` and `&` are written as entities, and nothing else is. |
| `HtmlPages.OrderIsUnique` | kythe/cxx/doc/html_renderer.cc:89-123 | There is one order of the tag blocks of the spans. |
| `HtmlPages.RendersOnce` | kythe/cxx/doc/html_renderer.cc:126-215 | There is one page for a text and its spans. |
| `HtmlPages.SectionBalanced` | kythe/cxx/doc/html_renderer.cc:89-123 | The titled section of a tag block is balanced and puts all of the block inside its content element. |
| `HtmlPages.PageShows` | kythe/cxx/doc/html_renderer.cc:126-215 | The page is balanced and shows the main text and then each tag block inside its content element. |
| `HtmlPages.PageShowsAll` | kythe/cxx/doc/html_renderer.cc:126-215 | The page shows as many characters as the text has outside markup, and every position belongs to the main text or to a block on the page: none is lost and none is shown twice. |
| `HtmlPages.PageReads` | kythe/cxx/doc/html_renderer.cc:126-215 | Read without tags and entities, the page is the text that is not markup, block by block, and the titles; and every `<` on it begins one of its tags. |
| `HtmlPages.RenderedReads` | kythe/cxx/doc/html_renderer.cc:126-215 | The same about the string that is returned. |
| `HtmlRenderer.CloseAll` | kythe/cxx/doc/html_renderer.cc:149-171 | The closing loop leaves exactly the spans on the stack that go on, and in each buffer the closing tags of those that do not. |
| `HtmlRenderer.OpenAll` | kythe/cxx/doc/html_renderer.cc:177-207 | The opening loop puts exactly the spans around the position on the stack, opens their elements in the right buffers and adds their tag blocks to the map in order. |
| `HtmlRenderer.RenderBuffers` | kythe/cxx/doc/html_renderer.cc:126-212 | The pass over the text with its stack leaves in each buffer exactly the content that the spans around each position call for, and exactly the tag blocks of the spans as keys. |
| `HtmlRenderer.AppendSections` | kythe/cxx/doc/html_renderer.cc:89-123 | The sections are appended in the order of the tag block map. |
| `HtmlRenderer.RenderHtml` | kythe/cxx/doc/html_renderer.cc:126-215 | The result is the one page for the text and its spans. |
| `VNames.VNameLessIsTotal` | kythe/cxx/common/vname_ordering.h:25-46 | The order of VNames is a strict total order whose equality is equality of all five fields. |
| `VNames.VNameLessIsLex` | kythe/cxx/common/vname_ordering.h:34-46 | The first of signature, corpus, path, root and language in which two VNames differ decides. |
| `VNames.StringLessIs` | kythe/cxx/common/vname_ordering.h:34-46 | Of two texts the first difference decides: a smaller character, or an end. |
| `VNames.FirstIsUnique` | kythe/cxx/common/vname_ordering.h:34-46 | A set of VNames has one first element. |
| `StaticClaim.CandidatesAreOrderFree` | kythe/cxx/tools/static_claim_main.cc:172-214 | The candidates of each claimable do not depend on the order or repetition of compilation units. |
| `StaticClaim.GreedyIsUnique` | kythe/cxx/tools/static_claim_main.cc:117-131 | There is only one assignment in which each claimable, in VName order, goes to the first of its least loaded candidates. |
| `StaticClaim.AssignmentIsOrderFree` | kythe/cxx/tools/static_claim_main.cc:117-214 | The assignment is the same for every order in which compilation units were handled. |
| `StaticClaim.AssignmentIsPartition` | kythe/cxx/tools/static_claim_main.cc:117-131 | The sets of claims partition the claimables: each is in exactly one set, that of one of its candidates; and the other candidates of a claimant's greatest claim hold at most one claim less. |
| `StaticClaim.LastClaimIsBalanced` | kythe/cxx/tools/static_claim_main.cc:112-131 | If a claimant ends with n claims, every other candidate of its VName-greatest claimable ends with at least n - 1. |
| `StaticClaim.EmptiestOf` | kythe/cxx/tools/static_claim_main.cc:120-127 | The loop finds the first of the least loaded candidates. |
| `StaticClaim.ClaimTool.HandleCompilationUnit` | kythe/cxx/tools/static_claim_main.cc:172-214 | The unit is remembered as a claimant and as a candidate for each of its inputs, once per context row. |
| `StaticClaim.ClaimTool.AssignClaims` | kythe/cxx/tools/static_claim_main.cc:117-131 | The loops produce that one assignment, each claimant holds exactly what it owns, and the sets the tool fills are a balanced partition of the claimables. |
| `DynamicClaim.GrantsAreBounded` | kythe/cxx/common/indexing/KytheClaimClient.cc:79-124 | Over every interleaving of any number of clients, with resets and overrides, a VName is granted at most `max_redundant_claims_` times. |
| `DynamicClaim.OwnersAreBounded` | kythe/cxx/common/indexing/KytheClaimClient.cc:79-124 | At most that many clients are ever told that they own a VName, not counting clients at which that very name was assigned by hand. |
| `DynamicClaim.AnswersAreStable` | kythe/cxx/common/indexing/KytheClaimClient.cc:79-124 | From any reachable state, a client that is not reset or overridden keeps answering the same claimant the same way about a VName, whatever others do. |
| `DynamicClaim.GrantsAreExact` | kythe/cxx/common/indexing/KytheClaimClient.cc:79-124 | If keys do not collide, once everyone who asked about a VName has its answer, exactly min(slots, askers) of them were told yes. |
| `ClaimClients.DynamicClaimClient.Claim` | kythe/cxx/common/indexing/KytheClaimClient.cc:79-124 | One call takes the first free slot, or is refused when there is none, remembers the answer and counts it; without a store it fails open. |
| `ClaimClients.ClaimedIs` | kythe/cxx/common/indexing/KytheClaimClient.cc:79-124 | What a call does, slot by slot: a remembered name is answered from the table, else the first free slot is taken and the claimant remembered, and without one the name is remembered as nobody's. |
| `ClaimClients.UninterruptedClaim` | kythe/cxx/common/indexing/KytheClaimClient.cc:79-124 | A call that is not interrupted is a run of the steps of the protocol, and other clients do not notice. |
| `KytheUri.UriEscape` | kythe/cxx/common/kythe_uri.cc:48-67 | The two loops write the escaped text, and the space reserved is exactly what it needs. |
| `KytheUri.UriUnescape` | kythe/cxx/common/kythe_uri.cc:76-103 | The two loops unescape a text or report a truncated escape before any bad digit. |
| `KytheUri.EscapeRoundTrip` | kythe/cxx/common/kythe_uri.cc:26-103 | Unescaping an escaped text gives it back, for all bytes and both modes. |
| `KytheUri.EscapedIsQuiet` | kythe/cxx/common/kythe_uri.cc:26-67 | An escaped text is made of unreserved characters, `%` and, for paths, `/`, and is empty only if the text was. |
| `UriLiterals.EscapedByte` | kythe/cxx/common/kythe_uri.cc:26-67 | A letter, digit, `-`, `.`, `_`, `~` and, in paths, `/` is written as it is, any other byte as `%` and two capital digits. |
| `UriLiterals.HexValueIs` | kythe/cxx/common/kythe_uri.cc:33-44 | Hexadecimal digits are read in either case, and nothing else is one. |
| `UriLiterals.PrintIs` | kythe/cxx/common/kythe_uri.cc:109-142 | A URI is `kythe:`, then `//` and the corpus, `?lang=` and the language, `?path=` and the path, `?root=` and the root, `#` and the signature, without those that are empty. |
| `UriLiterals.LangReads` | kythe/cxx/common/kythe_uri.cc:202-219 | The attribute `?lang=` sets the language. |
| `UriLiterals.PathReads` | kythe/cxx/common/kythe_uri.cc:202-219 | The attribute `?path=` sets the path. |
| `UriLiterals.RootReads` | kythe/cxx/common/kythe_uri.cc:202-219 | The attribute `?root=` sets the root. |
| `KytheUri.SplitScheme` | kythe/cxx/common/kythe_uri.cc:146-159 | The scheme is the text before a `:` that only letters precede. |
| `KytheUri.SchemeEndsOnce` | kythe/cxx/common/kythe_uri.cc:146-159 | There is at most one place where a scheme can end. |
| `KytheUri.PrintedIsParsed` | kythe/cxx/common/kythe_uri.cc:109-223 | Every VName printed as a URI is accepted and read back, its corpus cleaned if it has one. |
| `KytheUri.RoundTrip` | kythe/cxx/common/kythe_uri.cc:109-223 | A URI is read back as it was printed if and only if it is constructible: its corpus is empty or clean. |
| `KytheUri.ParseKeepsConstructible` | kythe/cxx/common/kythe_uri.cc:161-223 | If cleaning is idempotent, reading any text over a constructible URI leaves a constructible one, also when it fails. |
| `KytheUri.PrintIsInjective` | kythe/cxx/common/kythe_uri.cc:109-142 | Different constructible URIs are printed differently. |
| `KytheUri.PrintIsCanonical` | kythe/cxx/common/kythe_uri.cc:109-223 | Printing what any accepted text means gives a text that is accepted, means the same and prints as itself. |
| `KytheUri.RefusedIsEmptyIff` | kythe/cxx/common/kythe_uri.cc:166-223 | A refused text leaves the empty URI if and only if no attribute had been accepted before the failure. |
| `KytheUri.RefusedIsNotEmpty` | kythe/cxx/common/kythe_uri.cc:202-219 | A text such as `?lang=L?x` is refused and leaves its language behind. |
| `KytheUri.Uri.ToString` | kythe/cxx/common/kythe_uri.cc:109-142 | The object is printed part by part as one URI. |
| `KytheUri.Uri.ParseString` | kythe/cxx/common/kythe_uri.cc:166-223 | The object is overwritten with what the text means, or keeps what had been read when it is refused. |
| `KytheUri.PrintAndRead` | kythe/cxx/common/kythe_uri.cc:109-223 | A URI made from any VName, printed and read into a new object, gives the same VName. |
| `Utf8Offsets.EveryTextDecodes` | kythe/ts/lib/encoding.ts:57-78 | Every text, lone surrogates included, is the UTF-16 encoding of a sequence of code points without false pairs. |
| `Utf8Offsets.BuildLineIndex` | kythe/ts/lib/encoding.ts:34-90 | The index starts at 0 and has an entry behind every line break, CR LF being one; each entry is a place where the scan from 0 stops, with its byte offset; whatever characters count as line breaks. |
| `Utf8Offsets.LineStartsAre` | kythe/ts/lib/encoding.ts:40-90 | A line starts behind every line break, a CR that an LF follows excepted. |
| `Utf8Offsets.Utf8Position` | kythe/ts/lib/encoding.ts:97-133 | For every text and every position in it the indexed lookup gives what the scan from offset 0 gives; other positions are returned unchanged. |
| `Utf8Offsets.ScanCountsBytes` | kythe/ts/lib/encoding.ts:97-133 | At the start of every code point the scan has counted the length of the UTF-8 encoding of the text before it, for malformed text too, a lone surrogate counting three bytes. |
| `Utf8Offsets.PositionOfCodePoint` | kythe/ts/lib/encoding.ts:97-133 | So the lookup at the start of a code point is the UTF-8 length of the prefix. |
| `Utf8Offsets.WellFormedHasNoFalsePairs` | kythe/ts/lib/encoding.ts:92-96 | Properly encoded text is a special case. |
| `Utf8Offsets.InsidePair` | kythe/ts/lib/encoding.ts:118-124 | At a position inside a surrogate pair the whole pair is counted. |

## Left out

- The dumpers, pretty printers and error reports of the verifier: they only produce output.
- The assertion grammar, and how goals and EVars come out of it: goals are given as terms.
- Inspections of EVars after solving: one parameter says whether they succeed.
- A second preparation of the database: anchors are never cleared, so the exact anchors are stated for the first one.
- Fact lists on which the validation pass dereferences a null source: those of `FactDatabase.MissingSourceIsRead`, where the code has no defined result.
- DecidedGroups.SafeGroupIsDecided: its condition on the text of the goals is sufficient; in terms of the branches of the search `SearchTree.ResultIsExact` is exact. A satisfiable group with an invalid branch is called invalid or not depending on which branch comes first.
- Completeness of whole programs: a group keeps the first solution found, so a later group can fail although another solution would have served it.
- How `std::sort` sorts: only that it sorts; for the total orders of facts the result is unique.
- `Arena::New(0)` before any block exists, and sizes near the limit of `size_t`, where the rounding wraps; addresses of blocks, which are taken to be aligned.
- Arenas.RoundUp: uses division where the code masks bits, and a pointer size of eight.
- Buffer positions near 2^63 in the codec, where index arithmetic wraps; positions are unbounded and encodings at most 2^63 bytes long.
- The difference between nil and empty byte slices, and nil elements of repeated fields.
- Map entries that run past their own length: entries are read within their own bytes.
- The other generated messages (`Entries`, reads, scans, cross-references, …): the same template with no new property.
- Messages.VNameRoundTrip: is stated for well-formed fields with numbers below 2^29; malformed bytes are covered only by the loops agreeing with their functions.
- Links in comments and the filters of the `Printable` constructor, which do not guarantee nesting; the renderer itself covers links in spans that do nest.
- `RenderDocument`, and the root element around all text, which the renderer's base case stands for.
- Tag nesting in the presence of several markup handlers: one handler is run.
- CommentSpans.VisitedBlock: speaks of brace blocks that the scan or the description of a tag comes to; blocks inside the description of another block are read by the same functions and have no statement of their own.
- PagePositions.ContentAt: is stated for spans no two of which are one tag block, as those of a comment are; the elements around a character of a block inside itself are only in `HtmlPages.ContentShows`.
- HtmlPages.PageReads: takes the two style names to be escaped, as kythe/cxx/doc/html_renderer.cc:28-30 asks of its callers.
- Compilation units read from files, claim files and counters of the claim tool.
- A second `AssignClaims` on the same tool.
- `StaticClaimClient`: a table lookup.
- Failures and evictions of the shared store: `add` is atomic and never fails.
- SHA-256 and the concatenation of VName fields without separators: `hash` is any function, injective only for the exact number of grants.
- `CleanPath`: a parameter; percent-encoded text is bytes, without any character encoding.
- The binary search of the TypeScript compiler is not part of this model; one with its contract stands in for it.
- The warning about bad encoding, and positions outside the text, which are returned as they are.
- The C++ extractor, the Go and TypeScript indexers, index packs and services.
