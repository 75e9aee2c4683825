/**
 The part of the shared IR node machinery that every node variant carries:
 position metadata copied by the copy constructor, instance identities and
 the allocation frontier used to tell "the same node" from "a new node".
 */
module Node {

  /** A Java `long`: the packed token (position, length and token type). */
  newtype Long = x: int | -0x8000_0000_0000_0000 <= x < 0x8000_0000_0000_0000

  /** A Java `int`: the finish offset. */
  newtype Int = x: int | -0x8000_0000 <= x < 0x8000_0000

  /** A handle on the shared, read-only source text of a compilation unit. */
  datatype SourceRef = SourceRef(id: nat)

  /** The metadata a node carries: source, token and finish. */
  datatype Meta = Meta(source: SourceRef, token: Long, finish: Int)

  /** The identity of one allocated node instance. */
  type NodeId = nat

  /**
   A value produced together with the allocation frontier after producing it:
   every instance allocated so far has an identity below `next`.
   */
  datatype Alloc<T> = Alloc(value: T, next: NodeId)
}
