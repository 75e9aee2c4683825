# Catch-clause IR node

A model of `CatchNode`, the immutable intermediate-representation node that
the Nashorn compiler builds for `catch (exception [if condition]) { body }`.
The model covers the node's three children and position metadata, the public
and the private (copy) constructor, the getters (the datatype's field
selectors), the copy-on-write setters, visitor dispatch (`accept`),
`isTerminal` and the rendering of the clause head (`toString(StringBuilder)`).

Modules:

- `Wrappers`: `Option`. `None` stands for Java's `null` guard.
- `Node`: the metadata every node carries (`Meta`: source handle, 64-bit
  token, 32-bit finish). It also holds instance identities (`NodeId`) and
  `Alloc`, which pairs a value with the allocation frontier.
- `Catch`: the node itself, its constructors and setters, `IsTerminal`,
  `ToString`, the `Visitor` record and `Accept`.
- `CatchProperties`: laws of the setters, of `Accept` and of `IsTerminal`.
- `CatchRender`: `ParseHead`, an independent reading of a rendered clause
  head, with round-trip and injectivity lemmas.

Modelling choices:

- The children are type parameters: `I` for the identifier, `N` for the guard
  expression and `B` for the block. Dafny equality on a child stands for Java
  reference identity (`==` in the setters).
- A node carries an explicit identity `id`. An allocation frontier `next` is
  threaded through the constructors, the setters and `Accept`. So "returns
  `this`" (the same value, with `next` unchanged) can be told apart from "a new
  instance" (a fresh `id == next`). Every node passed in must be `Live` (its id
  is below the frontier). That is the heap invariant, not a demand of the
  Java code.
- A visitor is a record of total functions that thread a visitor state `S`:
  `enterCatchNode`, one `accept` function per child, and `leaveCatchNode`.
  Each child function returns a child of the same kind. The leave hook returns
  an `AnyNode`: either a catch node or `Other`, which stands for every other
  node variant. `Accept` also reports which hooks it called, in order (`trace`),
  and the node it handed to the leave hook (`handed`).
- The children's own `toString` and `isTerminal` are function parameters.

Two modelling choices follow the code:

- The public constructor (`CatchNode.java:56-62`) performs no null checks.
  A present exception and body are encoded in the types; the guard is an
  `Option`.
- `accept` reassembles the node through three chained setters
  (`CatchNode.java:80-82`). So it allocates one new node per child that
  changed, up to three.
  `Catch.Reassemble` and `CatchProperties.AcceptReassembles` state that count.

## Model

| member | source | states |
|---|---|---|
| Catch.New | nashorn/src/jdk/nashorn/internal/ir/CatchNode.java:56-62 | the public constructor yields a fresh instance whose metadata is the given source, token and finish, and whose getters return exactly the given children; a missing guard is accepted |
| Catch.CopyWith | nashorn/src/jdk/nashorn/internal/ir/CatchNode.java:64-70 | the copy constructor yields a fresh instance, distinct from the original, that carries the original's source, token and finish and the given children |
| Catch.SetExceptionCondition | nashorn/src/jdk/nashorn/internal/ir/CatchNode.java:126-131 | the result is the same instance exactly when the guard is identical (absent == absent), with nothing allocated; otherwise it is one fresh instance with the new guard, the old exception, body and metadata |
| Catch.SetException | nashorn/src/jdk/nashorn/internal/ir/CatchNode.java:141-146 | the result is the same instance exactly when the identifier is identical, with nothing allocated; otherwise it is one fresh instance that differs only in the identifier and keeps the metadata |
| Catch.SetBody | nashorn/src/jdk/nashorn/internal/ir/CatchNode.java:148-153 | the result is the same instance exactly when the body is identical, with nothing allocated; otherwise it is one fresh instance that differs only in the body and keeps the metadata |
| Catch.ToString | nashorn/src/jdk/nashorn/internal/ir/CatchNode.java:94-103 | rendering only appends: the buffer is a prefix of the result, the text ` catch (` follows it, and the result ends in `)`; the exact text appended is stated by CatchRender.ToStringAppends and CatchRender.ParseAfterBuffer |
| Catch.IsTerminal | nashorn/src/jdk/nashorn/internal/ir/CatchNode.java:89-91 | a catch node is terminal exactly when its body is; the laws under the setters are CatchProperties.TerminalUnderSetters and CatchProperties.TerminalDeterminedByBody |
| Catch.VisitChildren | nashorn/src/jdk/nashorn/internal/ir/CatchNode.java:80-82 | the visited children are the answers of the exception hook (on the given state), of the guard hook (on the state after the exception, only when a guard exists) and of the body hook (on the state after the guard); the state returned is the body hook's; the guard is present exactly when the original had one |
| Catch.Reassemble | nashorn/src/jdk/nashorn/internal/ir/CatchNode.java:79-82 | chaining the three setters gives a node holding exactly the visited children and the original metadata; it is the original instance exactly when no child changed; one allocation per changed child; the identity is either the original or fresh |
| Catch.Accept | nashorn/src/jdk/nashorn/internal/ir/CatchNode.java:77-86 | the leave hook runs exactly when the enter hook allows descent; on a veto the node itself is returned, nothing is allocated and only the enter hook ran; otherwise the hooks run from enter to leave and the node handed to leave keeps the metadata and the presence of the guard, after at most three allocations |
| CatchProperties.SettersIdempotent | nashorn/src/jdk/nashorn/internal/ir/CatchNode.java:126-153 | setting a field again to the value a setter just installed returns that very instance and allocates nothing |
| CatchProperties.SetBodyBackIsCopy | nashorn/src/jdk/nashorn/internal/ir/CatchNode.java:148-153 | restoring a replaced body gives a second copy that equals the original in every field but its identity, after two allocations |
| CatchProperties.SetExceptionSetBodyCommute | nashorn/src/jdk/nashorn/internal/ir/CatchNode.java:141-153 | replacing exception then body, or body then exception, yields the same children and metadata after the same number of allocations |
| CatchProperties.AcceptVetoed | nashorn/src/jdk/nashorn/internal/ir/CatchNode.java:78-85 | when the enter hook returns false, accept returns the node itself with the enter hook's state, allocates nothing, and calls no child hook or leave hook: every visitor with the same enter hook gives the same outcome |
| CatchProperties.AcceptVisitOrder | nashorn/src/jdk/nashorn/internal/ir/CatchNode.java:78-82 | after a successful enter the hooks run exactly in the order enter, exception, guard, body, leave, with the guard left out when there is none |
| CatchProperties.AcceptThreadsState | nashorn/src/jdk/nashorn/internal/ir/CatchNode.java:78-82 | the visitor state passes from enter to the exception hook, then to the guard hook (if any), then to the body hook, then to leave |
| CatchProperties.AcceptSkipsAbsentCondition | nashorn/src/jdk/nashorn/internal/ir/CatchNode.java:81 | without a guard, the guard hook is never consulted (two visitors that differ only in it agree on everything), and the node handed to leave has no guard |
| CatchProperties.AcceptHandsHookAnswers | nashorn/src/jdk/nashorn/internal/ir/CatchNode.java:79-82 | after a successful enter, the node handed to leave holds the exception hook's answer, the guard hook's answer (or no guard when there was none) and the body hook's answer, each hook called on the state the previous one left |
| CatchProperties.AcceptReassembles | nashorn/src/jdk/nashorn/internal/ir/CatchNode.java:79-82 | the leave hook receives a node holding the visited children and the original metadata, allocated once per changed child, and accept returns the leave hook's answer and state |
| CatchProperties.AcceptUnchangedHandsOriginal | nashorn/src/jdk/nashorn/internal/ir/CatchNode.java:79-82 | the leave hook receives the original instance, with nothing allocated, if and only if every child visit returned its child unchanged |
| CatchProperties.AcceptOnlyBodyChanged | nashorn/src/jdk/nashorn/internal/ir/CatchNode.java:79-82 | when only the body changes, leave receives one new instance that shares the original exception, guard and metadata and holds the new body |
| CatchProperties.TerminalDeterminedByBody | nashorn/src/jdk/nashorn/internal/ir/CatchNode.java:89-91 | two catch nodes agree on terminality, whatever the body's notion of terminality, if and only if they have the same body |
| CatchProperties.TerminalUnderSetters | nashorn/src/jdk/nashorn/internal/ir/CatchNode.java:89-91 | replacing the exception or the guard never changes terminality; after replacing the body the node is terminal exactly when the new body is |
| CatchRender.ParseToString | nashorn/src/jdk/nashorn/internal/ir/CatchNode.java:94-103 | a rendered head reads back as the exception's text and the guard's text; ` if ` and the guard appear exactly when the node has a guard (assuming the identifier's text has no space) |
| CatchRender.ParseHeadSound | nashorn/src/jdk/nashorn/internal/ir/CatchNode.java:94-103 | any text read as a head is exactly ` catch (` + exception + optionally ` if ` + guard + `)` |
| CatchRender.ToStringInjective | nashorn/src/jdk/nashorn/internal/ir/CatchNode.java:94-103 | for two nodes whose exception texts contain no space, they render to the same head if and only if their exception texts, guard presence and guard texts agree |
| CatchRender.ToStringAppends | nashorn/src/jdk/nashorn/internal/ir/CatchNode.java:94-103 | rendering into a buffer appends exactly what rendering into an empty buffer produces, whatever the buffer holds |
| CatchRender.ParseAfterBuffer | nashorn/src/jdk/nashorn/internal/ir/CatchNode.java:94-103 | after rendering into any buffer, the buffer is kept and the appended text reads back as ` catch (` + exception text + (` if ` + guard text, only when there is a guard) + `)` (exception text without spaces) |
| CatchRender.ToStringIgnoresBody | nashorn/src/jdk/nashorn/internal/ir/CatchNode.java:94-103 | the body is never rendered: a copy with another body renders identically |
| CatchRender.ToStringExamples | nashorn/src/jdk/nashorn/internal/ir/CatchNode.java:94-103 | an unguarded `e` renders as ` catch (e)`; `e` guarded by `e instanceof RangeError` renders as ` catch (e if e instanceof RangeError)` |

## Left out

- The `Node` base class and `Source` are not part of this model. Token packing, finish offsets and the source text are reduced to an opaque `Meta` value, which the copy constructor passes through unchanged.
- Concrete `IdentNode`, `Block` and `NodeVisitor` classes are not part of this model. They become type parameters and function parameters.
- The `(IdentNode)` and `(Block)` casts in `accept` (`CatchNode.java:80`, `:82`) could throw a `ClassCastException` if a visitor returned another kind. Here, typing rules that out: each child hook returns a child of the same kind.
- Null arguments: the Java code does not check them, and the types make them impossible for the exception and the body.
- Only the copies made by this node's own setters take identities from the frontier `next`, and only they are counted. Nodes allocated inside a child visit (a catch node nested in the body, say) or returned by the leave hook get no identity from it, and `Accept` does not promise that its result is below the frontier.
- Catch.VisitChildren: a child visit never answers null, because the child hooks return a child of the same kind. In the Java code a guard visit answering null (`CatchNode.java:81`) would remove the guard, and an exception or body visit answering null would produce a node without one.
- Rendering determinism is not stated as a lemma. `ToString` is a function, so two renderings of one node are equal by construction.
- `StringBuilder` mutation is modelled as a pure function from the buffer's text to the extended text. Garbage collection and the `@Immutable` annotation are not modelled.
- CatchRender.ToStringInjective: holds only for exception texts without spaces. Without that condition, ` catch (a if b)` renders both an unguarded `a if b` and `a` guarded by `b`.
- CatchRender.ParseAfterBuffer: carries the same no-space assumption as CatchRender.ParseToString.
- CatchRender.ParseToString: assumes that an identifier's rendering contains no space. That holds for script identifiers, but the model does not derive it.
