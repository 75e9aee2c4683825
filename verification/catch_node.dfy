/**
 The IR node of a `catch` clause: `catch (exception [if condition]) { body }`.

 The three children are type parameters: `I` is the identifier node that binds
 the caught value, `N` the guard expression node and `B` the block. Dafny
 equality on a child stands for Java reference identity, so a child visit that
 returns "the same child" returns an equal value. The node itself carries an
 explicit instance identity `id`, so that returning `this` (an equal value,
 same identity) can be told apart from allocating a copy (a fresh identity).
 */
module Catch {
  import opened Wrappers
  import opened Node

  /** An immutable catch node. The guard is optional; exception and body are not. */
  datatype CatchNode<I, N, B> = CatchNode(
    id: NodeId,
    meta: Meta,
    exception: I,
    exceptionCondition: Option<N>,
    body: B)

  /**
   The tree's root abstraction: what `accept` returns. A leave hook may replace
   a catch node by a node of any other variant, which `Other` stands for.
   */
  datatype AnyNode<I, N, B, X> = Catch(node: CatchNode<I, N, B>) | Other(other: X)

  /** The public constructor: a fresh instance holding exactly its arguments. */
  function New<I, N, B>(source: SourceRef, token: Long, finish: Int,
                        exception: I, exceptionCondition: Option<N>, body: B,
                        next: NodeId): (r: Alloc<CatchNode<I, N, B>>)
    ensures r.next == next + 1 && r.value.id == next
    ensures r.value.meta.source == source
    ensures r.value.meta.token == token && r.value.meta.finish == finish
    ensures r.value.exception == exception
    ensures r.value.exceptionCondition == exceptionCondition
    ensures r.value.body == body
  {
    Alloc(CatchNode(next, Meta(source, token, finish), exception, exceptionCondition, body), next + 1)
  }

  /**
   The private copy constructor: a fresh instance that takes its source, token
   and finish from `n` and its children from the arguments.
   */
  function CopyWith<I, N, B>(n: CatchNode<I, N, B>, exception: I, exceptionCondition: Option<N>,
                             body: B, next: NodeId): (r: Alloc<CatchNode<I, N, B>>)
    requires n.id < next
    ensures r.next == next + 1 && r.value.id == next && r.value != n
    ensures r.value.meta == n.meta
    ensures r.value.exception == exception
    ensures r.value.exceptionCondition == exceptionCondition
    ensures r.value.body == body
  {
    Alloc(CatchNode(next, n.meta, exception, exceptionCondition, body), next + 1)
  }

  /** True if the node was allocated below the frontier `next`. */
  predicate Live<I, N, B>(n: CatchNode<I, N, B>, next: NodeId) {
    n.id < next
  }

  /**
   Copy-on-write setter of the exception identifier: the same instance when the
   argument is the current identifier, otherwise one fresh copy that differs
   only in the identifier.
   */
  function SetException<I(==), N, B>(n: CatchNode<I, N, B>, exception: I, next: NodeId)
    : (r: Alloc<CatchNode<I, N, B>>)
    requires Live(n, next)
    ensures r.value == n <==> exception == n.exception
    ensures exception == n.exception ==> r.next == next
    ensures exception != n.exception ==> r.value.id == next && r.next == next + 1
    ensures r.value.exception == exception
    ensures r.value.exceptionCondition == n.exceptionCondition && r.value.body == n.body
    ensures r.value.meta == n.meta
    ensures Live(r.value, r.next)
  {
    if n.exception == exception then Alloc(n, next)
    else CopyWith(n, exception, n.exceptionCondition, n.body, next)
  }

  /**
   Copy-on-write setter of the guard; `None` is a legal argument and two absent
   guards are the same guard.
   */
  function SetExceptionCondition<I, N(==), B>(n: CatchNode<I, N, B>, exceptionCondition: Option<N>,
                                              next: NodeId): (r: Alloc<CatchNode<I, N, B>>)
    requires Live(n, next)
    ensures r.value == n <==> exceptionCondition == n.exceptionCondition
    ensures exceptionCondition == n.exceptionCondition ==> r.next == next
    ensures exceptionCondition != n.exceptionCondition ==> r.value.id == next && r.next == next + 1
    ensures r.value.exceptionCondition == exceptionCondition
    ensures r.value.exception == n.exception && r.value.body == n.body
    ensures r.value.meta == n.meta
    ensures Live(r.value, r.next)
  {
    if n.exceptionCondition == exceptionCondition then Alloc(n, next)
    else CopyWith(n, n.exception, exceptionCondition, n.body, next)
  }

  /** Copy-on-write setter of the body. */
  function SetBody<I, N, B(==)>(n: CatchNode<I, N, B>, body: B, next: NodeId)
    : (r: Alloc<CatchNode<I, N, B>>)
    requires Live(n, next)
    ensures r.value == n <==> body == n.body
    ensures body == n.body ==> r.next == next
    ensures body != n.body ==> r.value.id == next && r.next == next + 1
    ensures r.value.body == body
    ensures r.value.exception == n.exception && r.value.exceptionCondition == n.exceptionCondition
    ensures r.value.meta == n.meta
    ensures Live(r.value, r.next)
  {
    if n.body == body then Alloc(n, next)
    else CopyWith(n, n.exception, n.exceptionCondition, body, next)
  }

  /** A catch clause never falls through exactly when its body never does. */
  function IsTerminal<I, N, B>(n: CatchNode<I, N, B>, bodyIsTerminal: B -> bool): (r: bool)
    ensures r <==> bodyIsTerminal(n.body)
  {
    bodyIsTerminal(n.body)
  }

  /** The text `toString` appends before the guard and after it. */
  const CatchOpen: string := " catch ("
  const IfSeparator: string := " if "
  const CatchClose: string := ")"

  /**
   Appends the clause head to the buffer `sb`; the children append their own
   text through `renderException` and `renderCondition`. The body is rendered
   by the enclosing try statement, not here.
   */
  function ToString<I, N, B>(sb: string, n: CatchNode<I, N, B>,
                             renderException: I -> string, renderCondition: N -> string)
    : (r: string)
    ensures |r| > |sb| + |CatchOpen|
    ensures r[..|sb|] == sb
    ensures r[|sb|..|sb| + |CatchOpen|] == CatchOpen
    ensures r[|r| - 1] == ')'
  {
    var head := sb + CatchOpen + renderException(n.exception);
    var guarded := match n.exceptionCondition
      case None => head
      case Some(c) => head + IfSeparator + renderCondition(c);
    guarded + CatchClose
  }

  /** The labels of the hooks `accept` calls, in the order it calls them. */
  datatype Slot = Enter | ExceptionSlot | ConditionSlot | BodySlot | Leave

  /**
   A pass over catch nodes. Every hook threads the visitor's state `S`; the
   child hooks stand for `accept` on the child and return a child of the same
   kind.
   */
  datatype Visitor<!I, !N, !B, X, !S> = Visitor(
    enterCatchNode: (S, CatchNode<I, N, B>) -> (bool, S),
    acceptException: (S, I) -> (I, S),
    acceptCondition: (S, N) -> (N, S),
    acceptBody: (S, B) -> (B, S),
    leaveCatchNode: (S, CatchNode<I, N, B>) -> (AnyNode<I, N, B, X>, S))

  /** The children after visiting them, the visitor state and the hooks called. */
  datatype Visited<I, N, B, S> = Visited(
    exception: I,
    exceptionCondition: Option<N>,
    body: B,
    state: S,
    trace: seq<Slot>)

  /**
   Visits the children of `n` in the fixed order exception, guard, body; an
   absent guard is not visited and stays absent. The children returned are the
   answers of the child hooks, each hook called on the state the previous one
   left. The trace only labels the slots; the order of the calls themselves is
   what the threading of the state fixes.
   */
  function VisitChildren<I, N, B, X, S>(v: Visitor<I, N, B, X, S>, n: CatchNode<I, N, B>, s: S)
    : (r: Visited<I, N, B, S>)
    ensures r.exception == v.acceptException(s, n.exception).0
    ensures var s1 := v.acceptException(s, n.exception).1;
            var s2 := if n.exceptionCondition.Some?
                      then v.acceptCondition(s1, n.exceptionCondition.value).1 else s1;
            && (n.exceptionCondition.Some? ==>
                  r.exceptionCondition == Some(v.acceptCondition(s1, n.exceptionCondition.value).0))
            && r.body == v.acceptBody(s2, n.body).0
            && r.state == v.acceptBody(s2, n.body).1
    ensures r.exceptionCondition.Some? <==> n.exceptionCondition.Some?
    ensures ConditionSlot in r.trace <==> n.exceptionCondition.Some?
    ensures |r.trace| == if n.exceptionCondition.Some? then 3 else 2
    ensures r.trace[0] == ExceptionSlot && r.trace[|r.trace| - 1] == BodySlot
  {
    var (e, s1) := v.acceptException(s, n.exception);
    var (c, s2, t) := match n.exceptionCondition
      case None => (None, s1, [ExceptionSlot])
      case Some(c0) =>
        var (c1, s') := v.acceptCondition(s1, c0);
        (Some(c1), s', [ExceptionSlot, ConditionSlot]);
    var (b, s3) := v.acceptBody(s2, n.body);
    Visited(e, c, b, s3, t + [BodySlot])
  }

  /** The number of children among the three that are not the node's own. */
  function Changed<I(==), N(==), B(==)>(n: CatchNode<I, N, B>, exception: I,
                                          exceptionCondition: Option<N>, body: B): nat
  {
    (if exception != n.exception then 1 else 0)
    + (if exceptionCondition != n.exceptionCondition then 1 else 0)
    + (if body != n.body then 1 else 0)
  }

  /**
   Reassembles `n` from visited children through the three setters in turn, as
   `accept` does: the original instance when nothing changed, otherwise a node
   with the new children and the original metadata, after one allocation per
   changed child.
   */
  function Reassemble<I(==), N(==), B(==)>(n: CatchNode<I, N, B>, exception: I,
                                             exceptionCondition: Option<N>, body: B, next: NodeId)
    : (r: Alloc<CatchNode<I, N, B>>)
    requires Live(n, next)
    ensures r.value.exception == exception
    ensures r.value.exceptionCondition == exceptionCondition
    ensures r.value.body == body
    ensures r.value.meta == n.meta
    ensures r.value == n <==> Changed(n, exception, exceptionCondition, body) == 0
    ensures r.next == next + Changed(n, exception, exceptionCondition, body)
    ensures r.value.id == n.id || next <= r.value.id < r.next
    ensures Live(r.value, r.next)
  {
    var a1 := SetException(n, exception, next);
    var a2 := SetExceptionCondition(a1.value, exceptionCondition, a1.next);
    SetBody(a2.value, body, a2.next)
  }

  /**
   The outcome of `accept`: the node returned, the visitor state and allocation
   frontier afterwards, the hooks called in order, and the node handed to the
   leave hook (`None` when the enter hook vetoed descent).
   */
  datatype Accepted<I, N, B, X, S> = Accepted(
    result: AnyNode<I, N, B, X>,
    state: S,
    next: NodeId,
    trace: seq<Slot>,
    handed: Option<CatchNode<I, N, B>>)

  /**
   Dispatch of a visitor over a catch node: the enter hook may veto descent, in
   which case the node itself is returned; otherwise the children are visited,
   the node is reassembled and the leave hook decides the result.
   */
  function Accept<I(==), N(==), B(==), X, S>(v: Visitor<I, N, B, X, S>, n: CatchNode<I, N, B>,
                                               s: S, next: NodeId): (r: Accepted<I, N, B, X, S>)
    requires Live(n, next)
    ensures r.handed.None? <==> !v.enterCatchNode(s, n).0
    ensures r.handed.None? ==> r.result == Catch(n) && r.next == next && r.trace == [Enter]
    ensures r.handed.Some? ==>
              && r.handed.value.meta == n.meta
              && (r.handed.value.exceptionCondition.Some? <==> n.exceptionCondition.Some?)
              && (r.handed.value.id == n.id || next <= r.handed.value.id)
              && next <= r.next <= next + 3
              && |r.trace| == (if n.exceptionCondition.Some? then 5 else 4)
              && r.trace[0] == Enter && r.trace[|r.trace| - 1] == Leave
    ensures next <= r.next
  {
    var (descend, s1) := v.enterCatchNode(s, n);
    if !descend then
      Accepted(Catch(n), s1, next, [Enter], None)
    else
      var kids := VisitChildren(v, n, s1);
      var a := Reassemble(n, kids.exception, kids.exceptionCondition, kids.body, next);
      var (res, s2) := v.leaveCatchNode(kids.state, a.value);
      Accepted(res, s2, a.next, [Enter] + kids.trace + [Leave], Some(a.value))
  }
}
