/**
 Laws of the catch node: the copy-on-write setters, the visitor protocol of
 `accept` and the delegation of terminality to the body.
 */
module CatchProperties {
  import opened Wrappers
  import opened Node
  import opened Catch

  // ---------------------------------------------------------------------------
  // Copy-on-write setters
  // ---------------------------------------------------------------------------

  /**
   Setting a field to the value a setter has just installed is a no-op: the
   second call returns the instance the first one produced and allocates nothing.
   */
  lemma SettersIdempotent<I, N, B>(n: CatchNode<I, N, B>, e: I, c: Option<N>, b: B,
                                   next: NodeId)
    requires Live(n, next)
    ensures var a := SetException(n, e, next);
            SetException(a.value, e, a.next) == a
    ensures var a := SetExceptionCondition(n, c, next);
            SetExceptionCondition(a.value, c, a.next) == a
    ensures var a := SetBody(n, b, next);
            SetBody(a.value, b, a.next) == a
  {
  }

  /**
   Restoring a replaced body does not give back the original instance: copy on
   write allocates a second copy that agrees with `n` in every field but its
   identity.
   */
  lemma SetBodyBackIsCopy<I, N, B>(n: CatchNode<I, N, B>, b: B, next: NodeId)
    requires Live(n, next)
    requires b != n.body
    ensures var a1 := SetBody(n, b, next);
            var a2 := SetBody(a1.value, n.body, a1.next);
            && a2.value != n
            && a2.value == n.(id := next + 1)
            && a2.next == next + 2
  {
  }

  /**
   Replacing the exception and the body commutes up to the identity of the
   result: either order yields the same children, the same metadata and the
   same number of allocations.
   */
  lemma SetExceptionSetBodyCommute<I, N, B>(n: CatchNode<I, N, B>, e: I, b: B, next: NodeId)
    requires Live(n, next)
    ensures var a1 := SetException(n, e, next);
            var a2 := SetBody(a1.value, b, a1.next);
            var c1 := SetBody(n, b, next);
            var c2 := SetException(c1.value, e, c1.next);
            && a2.value.(id := 0) == c2.value.(id := 0)
            && a2.next == c2.next
  {
  }

  // ---------------------------------------------------------------------------
  // accept
  // ---------------------------------------------------------------------------

  /** The two visitors agree in every hook except, possibly, the guard's. */
  ghost predicate SameExceptCondition<I, N, B, X, S>(v: Visitor<I, N, B, X, S>, w: Visitor<I, N, B, X, S>) {
    && v.enterCatchNode == w.enterCatchNode
    && v.acceptException == w.acceptException
    && v.acceptBody == w.acceptBody
    && v.leaveCatchNode == w.leaveCatchNode
  }

  /** The children `accept` obtains from the child hooks after the enter hook. */
  function ChildrenOf<I, N, B, X, S>(v: Visitor<I, N, B, X, S>, n: CatchNode<I, N, B>, s: S)
    : Visited<I, N, B, S>
  {
    VisitChildren(v, n, v.enterCatchNode(s, n).1)
  }

  /**
   A veto by the enter hook returns the node itself with nothing allocated, and
   no other hook runs: any visitor with the same enter hook gives the same outcome.
   */
  lemma AcceptVetoed<I, N, B, X, S>(v: Visitor<I, N, B, X, S>, w: Visitor<I, N, B, X, S>,
                                    n: CatchNode<I, N, B>, s: S, next: NodeId)
    requires Live(n, next)
    requires !v.enterCatchNode(s, n).0
    requires w.enterCatchNode == v.enterCatchNode
    ensures var r := Accept(v, n, s, next);
            && r.result == Catch(n)
            && r.state == v.enterCatchNode(s, n).1
            && r.next == next
            && r.trace == [Enter]
            && r.handed.None?
            && Accept(w, n, s, next) == r
  {
  }

  /**
   After a successful enter hook the hooks run in the fixed order enter,
   exception, guard (only when there is one), body, leave. The trace records
   the slots `accept` labels; that the calls really happen in this order is
   stated by `AcceptThreadsState`, through the state each hook receives.
   */
  lemma AcceptVisitOrder<I, N, B, X, S>(v: Visitor<I, N, B, X, S>, n: CatchNode<I, N, B>,
                                        s: S, next: NodeId)
    requires Live(n, next)
    requires v.enterCatchNode(s, n).0
    ensures n.exceptionCondition.Some? ==>
              Accept(v, n, s, next).trace == [Enter, ExceptionSlot, ConditionSlot, BodySlot, Leave]
    ensures n.exceptionCondition.None? ==>
              Accept(v, n, s, next).trace == [Enter, ExceptionSlot, BodySlot, Leave]
  {
  }

  /**
   The state threads through the hooks in that order: the exception hook sees
   the state the enter hook left, the body hook the state after the guard (or
   after the exception when there is no guard), and the leave hook the state
   after the body.
   */
  lemma AcceptThreadsState<I, N, B, X, S>(v: Visitor<I, N, B, X, S>, n: CatchNode<I, N, B>,
                                          s: S, next: NodeId)
    requires Live(n, next)
    requires v.enterCatchNode(s, n).0
    ensures var s1 := v.enterCatchNode(s, n).1;
            var s2 := v.acceptException(s1, n.exception).1;
            var s3 := if n.exceptionCondition.Some?
                      then v.acceptCondition(s2, n.exceptionCondition.value).1 else s2;
            var s4 := v.acceptBody(s3, n.body).1;
            var r := Accept(v, n, s, next);
            r.state == v.leaveCatchNode(s4, r.handed.value).1
  {
  }

  /**
   Without a guard the guard hook is never consulted: two visitors that differ
   only in it give the same outcome, and the node handed to leave has no guard.
   */
  lemma AcceptSkipsAbsentCondition<I, N, B, X, S>(v: Visitor<I, N, B, X, S>,
                                                  w: Visitor<I, N, B, X, S>,
                                                  n: CatchNode<I, N, B>, s: S, next: NodeId)
    requires Live(n, next)
    requires n.exceptionCondition.None?
    requires SameExceptCondition(v, w)
    ensures Accept(v, n, s, next) == Accept(w, n, s, next)
    ensures Accept(v, n, s, next).handed.Some? ==> Accept(v, n, s, next).handed.value.exceptionCondition.None?
  {
  }

  /**
   The node handed to the leave hook holds exactly the answers of the child
   hooks: the exception hook's answer on the enter hook's state, the guard
   hook's answer (when there is a guard) on the state after the exception, and
   the body hook's answer on the state after the guard.
   */
  lemma AcceptHandsHookAnswers<I, N, B, X, S>(v: Visitor<I, N, B, X, S>, n: CatchNode<I, N, B>,
                                              s: S, next: NodeId)
    requires Live(n, next)
    requires v.enterCatchNode(s, n).0
    ensures var s1 := v.enterCatchNode(s, n).1;
            var (e, s2) := v.acceptException(s1, n.exception);
            var s3 := if n.exceptionCondition.Some?
                      then v.acceptCondition(s2, n.exceptionCondition.value).1 else s2;
            var r := Accept(v, n, s, next);
            && r.handed.Some?
            && r.handed.value.exception == e
            && r.handed.value.exceptionCondition
               == (if n.exceptionCondition.Some?
                   then Some(v.acceptCondition(s2, n.exceptionCondition.value).0) else None)
            && r.handed.value.body == v.acceptBody(s3, n.body).0
  {
  }

  /**
   The leave hook receives the node rebuilt from the visited children, with the
   original metadata and one allocation per child that changed, and its answer
   is what `accept` returns.
   */
  lemma AcceptReassembles<I, N, B, X, S>(v: Visitor<I, N, B, X, S>, n: CatchNode<I, N, B>,
                                         s: S, next: NodeId)
    requires Live(n, next)
    requires v.enterCatchNode(s, n).0
    ensures var kids := ChildrenOf(v, n, s);
            var r := Accept(v, n, s, next);
            && r.handed.Some?
            && r.handed.value.exception == kids.exception
            && r.handed.value.exceptionCondition == kids.exceptionCondition
            && r.handed.value.body == kids.body
            && r.handed.value.meta == n.meta
            && r.next == next + Changed(n, kids.exception, kids.exceptionCondition, kids.body)
            && (r.result, r.state) == v.leaveCatchNode(kids.state, r.handed.value)
  {
  }

  /**
   When every child hook hands back its child, the leave hook receives the
   original instance and nothing is allocated; conversely, receiving the
   original instance means no child changed.
   */
  lemma AcceptUnchangedHandsOriginal<I, N, B, X, S>(v: Visitor<I, N, B, X, S>,
                                                    n: CatchNode<I, N, B>, s: S, next: NodeId)
    requires Live(n, next)
    requires v.enterCatchNode(s, n).0
    ensures var kids := ChildrenOf(v, n, s);
            var r := Accept(v, n, s, next);
            (kids.exception == n.exception && kids.exceptionCondition == n.exceptionCondition
             && kids.body == n.body)
            <==> (r.handed == Some(n) && r.next == next)
  {
  }

  /**
   When only the body changes, the node handed to leave is one new instance
   that shares the original exception, guard and metadata.
   */
  lemma AcceptOnlyBodyChanged<I, N, B, X, S>(v: Visitor<I, N, B, X, S>,
                                             n: CatchNode<I, N, B>, s: S, next: NodeId)
    requires Live(n, next)
    requires v.enterCatchNode(s, n).0
    requires ChildrenOf(v, n, s).exception == n.exception
    requires ChildrenOf(v, n, s).exceptionCondition == n.exceptionCondition
    requires ChildrenOf(v, n, s).body != n.body
    ensures var r := Accept(v, n, s, next);
            && r.handed.Some?
            && r.handed.value == n.(id := next, body := ChildrenOf(v, n, s).body)
            && r.next == next + 1
  {
  }

  // ---------------------------------------------------------------------------
  // isTerminal
  // ---------------------------------------------------------------------------

  /**
   Terminality is decided by the body alone: two catch nodes agree on it under
   every notion of body terminality exactly when their bodies are the same.
   */
  lemma TerminalDeterminedByBody<I, N, B>(n1: CatchNode<I, N, B>, n2: CatchNode<I, N, B>)
    ensures (forall t: B -> bool :: IsTerminal(n1, t) == IsTerminal(n2, t)) <==> n1.body == n2.body
  {
    if forall t: B -> bool :: IsTerminal(n1, t) == IsTerminal(n2, t) {
      var isOwnBody := (b: B) => b == n1.body;
      assert IsTerminal(n1, isOwnBody) == IsTerminal(n2, isOwnBody);
    }
  }

  /**
   Only `setBody` can change whether a catch node is terminal, and afterwards
   the node is terminal exactly when the new body is.
   */
  lemma TerminalUnderSetters<I, N, B>(n: CatchNode<I, N, B>, e: I, c: Option<N>, b: B,
                                      next: NodeId, t: B -> bool)
    requires Live(n, next)
    ensures IsTerminal(SetException(n, e, next).value, t) == IsTerminal(n, t)
    ensures IsTerminal(SetExceptionCondition(n, c, next).value, t) == IsTerminal(n, t)
    ensures IsTerminal(SetBody(n, b, next).value, t) == t(b)
  {
  }
}
