# Osmium diff iterator and diff visitor, modelled in Dafny

This project models two headers of the Osmium library (libosmium):

- `DiffIterator` (`include/osmium/diff_iterator.hpp`). It walks a stream of OSM objects in which all versions of one object are adjacent. At every position it yields a diff: the previous version, the current object and the next version. A neighbour that is not a version of the same object (same item type and id) is replaced by the current object. The next neighbour is also replaced when it is the end of the stream.
- `apply_diff` (`include/osmium/diff_visitor.hpp`). It drives a diff iterator to the end and delivers every diff to a list of visitors, in argument order.
  - A visitor that derives from `DiffHandler` is a *handler*. It gets `node`/`way`/`relation` calls. It also gets boundary hooks whenever the item type changes: `init`, `before_*`, `after_*` and `done`.
  - Any other visitor is a *functor*. It is called with every diff and never gets a hook.
  - A diff of any other item type aborts the dispatch with the "unknown type" runtime error.

Files:

- `entities.dfy`: the item type (`Kind`) and the object (`Entity` = item type, id, opaque version).
- `diff_iterator.dfy` (module `DiffIterators`): the class `DiffIterator`, whose cursors are indices into a `seq<Entity>`. It comes with a value-level specification:
  - `Window`, the cursors as a value;
  - `Advance`, one `operator++`;
  - `WindowAt`, the closed form after n advances;
  - `Resolve`, `set_diff` as a function;
  - `ExpectedDiff`, the diff at a position, defined from the stream alone.
- `diff_visitor.dfy` (module `DiffVisitor`):
  - the dispatch helpers as functions that return the calls they make;
  - `DispatchFrom`, the specification of a whole dispatch;
  - `DispatchAt`, one turn of the loop: the transition hooks when the type changes, then the per-visitor calls;
  - `DispatchFrom`'s accumulator form `DispatchLoop`, which the imperative loop follows turn by turn;
  - `ApplyDiff`, which builds the iterator pair, and `DispatchIterators`, the loop over it; together they are proved equal to `DispatchFrom`;
  - `VisitorRun`, a single-visitor reference definition;
  - lemmas connecting these.

A dispatch produces an `Outcome`: the trace of `(visitor position, call)` pairs delivered, in order, and a status. The status is `Completed` or `UnknownType`. Calls delivered before the error are kept in the trace, because they have already happened.

Two orderings in the code are easy to misread; the model follows the code:

- A handler receives `before_nodes` (or the matching `before_*`) right after `init`, for the first object (`diff_visitor.hpp:108-140`, `:169`).
- The two halves of a transition go to one visitor before the next visitor gets anything (`diff_visitor.hpp:143-152`).

## Model

| member | source | states |
|---|---|---|
| `DiffIterators.DiffIterator.constructor` | include/osmium/diff_iterator.hpp:72-77 | after construction from `[begin, end)`, `prev == curr == begin`; `next` is `begin + 1`, or `begin` when the range is empty; the state is the closed form after zero advances |
| `DiffIterators.DiffIterator.Copy` | include/osmium/diff_iterator.hpp:79-83 | the defaulted copy has the same cursors, end and cached diff |
| `DiffIterators.DiffIterator.Increment` | include/osmium/diff_iterator.hpp:85-94 | prefix `++` shifts the window: new `prev` is old `curr`, new `curr` is old `next`, `next` moves by one unless it is `end`; `curr` therefore moves by one until it reaches `end` and then stays; the closed-form invariant is kept with one more step |
| `DiffIterators.DiffIterator.PostIncrement` | include/osmium/diff_iterator.hpp:96-100 | postfix `++` returns a fresh iterator holding the cursors from before the advance, and advances this one |
| `DiffIterators.EqualsEndIffPastLength` | include/osmium/diff_iterator.hpp:102-108 | `operator==` against the end iterator `(end, end)` holds exactly when the iterator has been advanced at least once per object of the range; only `curr` and `end` take part |
| `DiffIterators.DiffIterator.SetDiff` | include/osmium/diff_iterator.hpp:54-68 | requires `curr != end`; overwrites only the cache, with the resolved window |
| `DiffIterators.DiffIterator.Deref` | include/osmium/diff_iterator.hpp:110-118 | requires `curr != end`; moves no cursor; returns the cached diff, which is the stream's diff at the current position, so two dereferences at one position agree |
| `DiffIterators.Resolve` | include/osmium/diff_iterator.hpp:54-68 | the resolved neighbours are versions of the current object; each is its cursor or the current position; a same-identity `prev`, or a same-identity `next` that is not `end`, is kept; the kind is the current object's |
| `DiffIterators.IterateIsWindowAt` | include/osmium/diff_iterator.hpp:72-94 | construction followed by n advances, step by step, equals the closed form |
| `DiffIterators.WindowInvariant` | include/osmium/diff_iterator.hpp:72-94 | window invariant: `next == min(curr + 1, end)`; `prev == curr - 1` after an advance; `prev == curr == begin` before the first advance; both sit at `end` once advanced past it |
| `DiffIterators.ReachesEndAfterLength` | include/osmium/diff_iterator.hpp:85-104 | the iterator equals the end iterator `(end, end)` exactly after `end - begin` advances or more; before that, `curr` is `begin` plus the number of advances |
| `DiffIterators.ResolveAtStep` | include/osmium/diff_iterator.hpp:54-68 | on any reachable window with `curr != end`, `set_diff` yields the diff the stream defines at `curr`: previous is the in-range element just before if it is the same object, next is the element just after if it exists and is the same object, otherwise current |
| `DiffIterators.DistinctIdentitiesAreIsolated` | include/osmium/diff_iterator.hpp:57-65 | when all identities in the range are distinct, every diff has previous == current == next |
| `DiffIterators.RunNeighbours` | include/osmium/diff_iterator.hpp:57-65 | in a maximal run of versions of one object, the j-th version sees the (j-1)-th as previous and the (j+1)-th as next; the first version is its own previous and the last its own next |
| `DiffVisitor.SwitchOnType` | include/osmium/diff_visitor.hpp:57-89 | a call is made exactly for node, way and relation diffs, otherwise "unknown type"; a functor gets `operator()`, a handler gets `node`/`way`/`relation` matching the diff's type; the call carries the diff unchanged and is never a hook |
| `DiffVisitor.LeaveHook` | include/osmium/diff_visitor.hpp:109-124 | the first switch: one leave hook for undefined, node, way and relation, naming the kind it leaves; nothing for any other kind |
| `DiffVisitor.EnterHook` | include/osmium/diff_visitor.hpp:125-140 | the second switch: one enter hook for undefined, node, way and relation, naming the kind it enters; nothing for any other kind |
| `DiffVisitor.SwitchOnTypeBeforeAfter` | include/osmium/diff_visitor.hpp:102-141 | a functor gets nothing; a handler gets one hook per half whose kind has hooks (undefined, node, way, relation) and none for any other kind; the first hook leaves `last` (`init`/`after_*`), the last hook enters `current` (`done`/`before_*`) |
| `DiffVisitor.ApplyDiffIteratorRecurse` | include/osmium/diff_visitor.hpp:91-100 | completes exactly when the diff's type is known, then with one call per visitor; on "unknown type" nothing is delivered |
| `DiffVisitor.CallsInOrder` | include/osmium/diff_visitor.hpp:91-100 | the k-th call goes to the k-th visitor and is that visitor's narrowed call |
| `DiffVisitor.CallsPerVisitor` | include/osmium/diff_visitor.hpp:91-100 | each visitor receives exactly its own narrowed call, and nothing when the type is unknown |
| `DiffVisitor.ApplyBeforeAndAfterRecurse` | include/osmium/diff_visitor.hpp:143-152 | a transition makes at most two calls per visitor |
| `DiffVisitor.TransitionHooks` | include/osmium/diff_visitor.hpp:143-152 | the transition from visitor `i` on carries only boundary hooks, each addressed to a visitor at position `i` or later |
| `DiffVisitor.TransitionInOrder` | include/osmium/diff_visitor.hpp:143-152 | the calls of a transition reach the visitors in non-decreasing position order: both halves for one visitor come before anything for the next |
| `DiffVisitor.TransitionPerVisitor` | include/osmium/diff_visitor.hpp:143-152 | in the transition from visitor `i` on, each visitor at position `i` or later receives exactly its own `switch_on_type_before_after` calls, and every other visitor receives nothing |
| `DiffVisitor.DispatchAtPerVisitor` | include/osmium/diff_visitor.hpp:168-172 | one loop turn: the dispatch goes on exactly when the type is known; each visitor receives its halves of the transition when the type changed, then its narrowed call if the type is known |
| `DiffVisitor.DispatchLoopIsDispatchFrom` | include/osmium/diff_visitor.hpp:165-175 | the loop's accumulator form, started with the calls already made, gives those calls followed by the recursive dispatch of the rest, with the same status |
| `DiffVisitor.DispatchIterators` | include/osmium/diff_visitor.hpp:165-175 | the `for` loop over `dit != dend`, with `last_type` starting at undefined and a final transition to undefined, returns exactly the accumulator-form dispatch of the iterator's range; on "unknown type" it returns at once with the calls made so far |
| `DiffVisitor.ApplyDiff` | include/osmium/diff_visitor.hpp:158-176 | building `dit` over `[begin, end)` and `dend` at `end`, then running the loop, produces exactly the trace and status of the dispatch specification |
| `DiffVisitor.ApplyDiffToBuffer` | include/osmium/diff_visitor.hpp:185-193 | the buffer forms dispatch the whole buffer as an iterator pair |
| `DiffVisitor.EachVisitorSeesItsOwnRun` | include/osmium/diff_visitor.hpp:158-176 | in the interleaved trace, every visitor receives exactly the calls it would receive as the only visitor, and the dispatch ends the same way |
| `DiffVisitor.CompletesIffKnownKinds` | include/osmium/diff_visitor.hpp:167-173 | from any position, the rest of the dispatch completes if and only if every remaining object is a node, way or relation; otherwise it ends with "unknown type" |
| `DiffVisitor.DispatchCompletesIffKnownKinds` | include/osmium/diff_visitor.hpp:158-176 | the whole dispatch completes if and only if every object in the range is a node, way or relation |
| `DiffVisitor.FunctorSeesOnlyDiffs` | include/osmium/diff_visitor.hpp:102-105 | a functor receives no boundary call; its k-th call is `operator()` on the diff of the k-th object, and a completed dispatch gives it one call per object |
| `DiffVisitor.UnknownTypeCutsOff` | include/osmium/diff_visitor.hpp:165-172 | when the first object of unknown type is at `u`, the dispatch ends with "unknown type"; each visitor gets one per-object call for each object before `u` and otherwise only hooks; a functor gets exactly the `u - begin` diffs before `u`; a handler gets `done` exactly when the object at `u` has type undefined and is not the first |
| `DiffVisitor.RunStopsAtUnknown` | include/osmium/diff_visitor.hpp:165-172 | from any position `c`, one visitor on its own stops with "unknown type" at the first unknown object `u`, after `u - c` per-object calls; a functor gets no hook; a handler gets `done` exactly when the transition into `u` enters undefined |
| `DiffVisitor.HandlerHooksPerTransition` | include/osmium/diff_visitor.hpp:165-175 | over known types, a handler receives two hooks per change of item type (counting the change from the starting type) plus two for the final transition, and one per-object call per object |
| `DiffVisitor.HandlerTransition` | include/osmium/diff_visitor.hpp:108-140 | between kinds with hooks, a handler gets exactly two hooks; the first is `init` iff leaving undefined; the second is `done` iff entering undefined |
| `DiffVisitor.DoneOnceMidStream` | include/osmium/diff_visitor.hpp:165-175 | after the first object, a handler never receives `init` and receives `done` exactly once |
| `DiffVisitor.EndsWithDone` | include/osmium/diff_visitor.hpp:175 | over known types, a handler's last call is `done` |
| `DiffVisitor.ClosesWithAfterLast` | include/osmium/diff_visitor.hpp:165-175 | over a non-empty range of known types, a handler's last two calls are the `after_*` hook of the last object's type and then `done` |
| `DiffVisitor.HandlerRunIsBracketed` | include/osmium/diff_visitor.hpp:165-175 | over known types, a handler's calls begin with `init` and end with `done`, each received exactly once |
| `DiffVisitor.OpensWithInit` | include/osmium/diff_visitor.hpp:165-170 | on a non-empty range of known types, a handler's first call is `init` and its second is the `before_*` hook of the first object's type, and `init` and `done` each occur once |
| `DiffVisitor.EmptyInput` | include/osmium/diff_visitor.hpp:165-175 | empty input completes, every handler receives exactly `init, done`, and every functor receives nothing |
| `DiffVisitor.ExampleHandlerRun` | include/osmium/diff_visitor.hpp:158-176 | item types `[node, node, way, relation, relation]` give a handler `init, before_nodes, node, node, after_nodes, before_ways, way, after_ways, before_relations, relation, relation, after_relations, done`, with the two-version diffs resolved |
| `DiffVisitor.ExampleInterleaving` | include/osmium/diff_visitor.hpp:143-152 | with handlers at positions 0 and 1 and a functor at position 2, over one node: handler 0 receives `init, before_nodes` before handler 1 receives anything, and likewise `after_nodes, done` at the end; the per-object calls go to positions 0, 1, 2 in order |
| `DiffVisitor.ExampleInterleavingHooks` | include/osmium/diff_visitor.hpp:143-152 | for two handlers and a functor, a transition is the first handler's halves, then the second handler's, and nothing for the functor |
| `DiffVisitor.ExampleInterleavingCalls` | include/osmium/diff_visitor.hpp:91-100 | for two handlers and a functor, a node diff gives `node` to each handler and `operator()` to the functor, in that order |
| `DiffVisitor.ExampleUnknownType` | include/osmium/diff_visitor.hpp:165-172 | an object of another type after a node: the handler still receives `after_nodes`, receives no entering hook, and the dispatch aborts with no further call |

## Left out

- The `TSource&` overload of `apply_diff` (`diff_visitor.hpp:178-183`) is not modelled. It wraps an input iterator over an I/O source.
- The `DiffObject`, `DiffNode`, `DiffWay` and `DiffRelation` types and their casts are not part of this model.
  - A diff is the triple of resolved positions plus the item type of the current object.
  - `diff.type()` is taken to be the current object's type.
  - The default-constructed cache is `Diff(0, 0, 0, Undefined)`.
- `include/osmium/osm/node.hpp` and object attributes are not part of this model. This includes the floating-point location accessors. An object is its item type, id and an opaque version.
- The compile-time machinery (`std::is_base_of`, variadic templates, iterator traits) is replaced by a per-visitor `Shape` tag and a sequence of visitors. An empty visitor pack does not compile, so the dispatch functions require at least one visitor.
- Exceptions thrown by visitors are not modelled. Only the library's own "unknown type" error is modelled.
- `DiffIterators.DiffIterator.Deref` covers both `operator*` and `operator->`. They differ only in returning a reference or the address of the same cache.
- `DiffVisitor.DispatchIterators` dereferences once per object. The source calls `dit->type()` up to three times and `*dit` once. Each of those calls recomputes the same cache from unmoved cursors, so the calls delivered are the same.
- `DiffIterators.DiffIterator.Equals` compares cursor indices. Comparing iterators over different sequences, which the C++ iterator requirements leave undefined, is not modelled.
- Iterator validity (cursors pointing into live storage) is not modelled. Cursors are indices into an immutable `seq<Entity>`.
