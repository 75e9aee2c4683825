/**
 The rendered clause head of a catch node, ` catch (e)` or ` catch (e if c)`,
 and an independent reading of it back into the exception's text and the
 guard's text. An identifier's rendering is its name, which holds no space, so
 the first space after ` catch (` is where a guard starts.
 */
module CatchRender {
  import opened Wrappers
  import opened Node
  import opened Catch

  /** The texts a clause head is made of. */
  datatype Head = Head(exception: string, condition: Option<string>)

  /** The position of the first space in `s`, or `|s|` when there is none. */
  function IndexOfSpace(s: string): (k: nat)
    ensures k <= |s|
    ensures forall i :: 0 <= i < k ==> s[i] != ' '
    ensures k < |s| ==> s[k] == ' '
  {
    if |s| == 0 || s[0] == ' ' then 0 else 1 + IndexOfSpace(s[1..])
  }

  /**
   Reads a clause head: ` catch (`, the exception text up to the first space,
   then either `)` directly or ` if `, the guard text and `)`.
   */
  function ParseHead(text: string): (r: Option<Head>)
    ensures r.Some? ==> ' ' !in r.value.exception
  {
    if |text| < |CatchOpen| + |CatchClose| || text[..|CatchOpen|] != CatchOpen
       || text[|text| - 1] != ')' then None
    else
      var inner := text[|CatchOpen|..|text| - 1];
      var k := IndexOfSpace(inner);
      if k == |inner| then
        Some(Head(inner, None))
      else if |inner| - k >= |IfSeparator| && inner[k..k + |IfSeparator|] == IfSeparator then
        Some(Head(inner[..k], Some(inner[k + |IfSeparator|..])))
      else
        None
  }

  /** The head a node's rendering is made of. */
  function HeadOf<I, N, B>(n: CatchNode<I, N, B>, renderException: I -> string,
                           renderCondition: N -> string): Head
  {
    Head(renderException(n.exception),
         match n.exceptionCondition
         case None => None
         case Some(c) => Some(renderCondition(c)))
  }

  /** The first space of `t + u` is the first space of `u` when `t` has none. */
  lemma {:induction false} IndexOfSpaceAppend(t: string, u: string)
    requires ' ' !in t
    ensures IndexOfSpace(t + u) == |t| + IndexOfSpace(u)
    decreases |t|
  {
    if |t| > 0 {
      assert (t + u)[0] == t[0];
      assert (t + u)[1..] == t[1..] + u;
      IndexOfSpaceAppend(t[1..], u);
    } else {
      assert t + u == u;
    }
  }

  /**
   Rendering on an empty buffer can be read back: the exception's text and the
   guard's text (present exactly when the node has a guard) are recovered.
   */
  lemma {:induction false} ParseToString<I, N, B>(n: CatchNode<I, N, B>, renderException: I -> string,
                                                  renderCondition: N -> string)
    requires ' ' !in renderException(n.exception)
    ensures ParseHead(ToString("", n, renderException, renderCondition))
            == Some(HeadOf(n, renderException, renderCondition))
  {
    var text := ToString("", n, renderException, renderCondition);
    var e := renderException(n.exception);
    var inner := text[|CatchOpen|..|text| - 1];
    assert text[..|CatchOpen|] == CatchOpen;
    match n.exceptionCondition {
      case None =>
        assert text == CatchOpen + e + CatchClose;
        assert inner == e;
        IndexOfSpaceAppend(e, "");
        assert e + "" == e;
      case Some(c) =>
        var g := renderCondition(c);
        assert text == CatchOpen + e + IfSeparator + g + CatchClose;
        assert inner == e + (IfSeparator + g);
        IndexOfSpaceAppend(e, IfSeparator + g);
        assert inner[..|e|] == e;
        assert inner[|e|..|e| + |IfSeparator|] == IfSeparator;
        assert inner[|e| + |IfSeparator|..] == g;
    }
  }

  /**
   Whatever is read back as a head is exactly the rendering of that head: the
   reading accepts nothing but clause heads.
   */
  lemma ParseHeadSound(text: string, h: Head)
    requires ParseHead(text) == Some(h)
    ensures text == CatchOpen + h.exception
                    + (match h.condition case None => "" case Some(g) => IfSeparator + g)
                    + CatchClose
  {
    var inner := text[|CatchOpen|..|text| - 1];
    assert text == text[..|CatchOpen|] + inner + [text[|text| - 1]];
    var k := IndexOfSpace(inner);
    if k < |inner| {
      assert inner == inner[..k] + inner[k..k + |IfSeparator|] + inner[k + |IfSeparator|..];
    }
  }

  /**
   Two nodes whose exception names hold no space render to the same head
   exactly when their exception texts agree, both or neither have a guard, and
   the guard texts agree.
   */
  lemma ToStringInjective<I, N, B>(n1: CatchNode<I, N, B>, n2: CatchNode<I, N, B>,
                                   renderException: I -> string, renderCondition: N -> string)
    requires ' ' !in renderException(n1.exception) && ' ' !in renderException(n2.exception)
    ensures ToString("", n1, renderException, renderCondition)
            == ToString("", n2, renderException, renderCondition)
            <==> HeadOf(n1, renderException, renderCondition) == HeadOf(n2, renderException, renderCondition)
  {
    ParseToString(n1, renderException, renderCondition);
    ParseToString(n2, renderException, renderCondition);
  }

  /**
   Rendering appends to the buffer and never depends on the body, the metadata
   or the identity of the node: replacing the body leaves the text unchanged.
   */
  lemma ToStringIgnoresBody<I, N, B>(sb: string, n: CatchNode<I, N, B>, b: B, next: NodeId,
                                     renderException: I -> string, renderCondition: N -> string)
    requires Live(n, next)
    ensures var m := CopyWith(n, n.exception, n.exceptionCondition, b, next).value;
            ToString(sb, m, renderException, renderCondition)
            == ToString(sb, n, renderException, renderCondition)
  {
  }

  /**
   Rendering into a buffer appends to it exactly the text rendered into an
   empty buffer, whatever the buffer already holds.
   */
  lemma ToStringAppends<I, N, B>(sb: string, n: CatchNode<I, N, B>, renderException: I -> string,
                                 renderCondition: N -> string)
    ensures ToString(sb, n, renderException, renderCondition)
            == sb + ToString("", n, renderException, renderCondition)
  {
  }

  /**
   Rendering into any buffer leaves the buffer's text followed by a head that
   reads back as the exception's text and the guard's text.
   */
  lemma ParseAfterBuffer<I, N, B>(sb: string, n: CatchNode<I, N, B>, renderException: I -> string,
                                  renderCondition: N -> string)
    requires ' ' !in renderException(n.exception)
    ensures var r := ToString(sb, n, renderException, renderCondition);
            && r[..|sb|] == sb
            && ParseHead(r[|sb|..]) == Some(HeadOf(n, renderException, renderCondition))
  {
    ToStringAppends(sb, n, renderException, renderCondition);
    ParseToString(n, renderException, renderCondition);
    var r := ToString(sb, n, renderException, renderCondition);
    assert r[|sb|..] == ToString("", n, renderException, renderCondition);
  }

  /**
   The clause heads ` catch (e)` and ` catch (e if e instanceof RangeError)`:
   an unguarded `e`, and `e` guarded by `e instanceof RangeError`.
   */
  lemma ToStringExamples<I, N, B>(n: CatchNode<I, N, B>, renderException: I -> string,
                                  renderCondition: N -> string)
    requires renderException(n.exception) == "e"
    requires n.exceptionCondition.Some? ==> renderCondition(n.exceptionCondition.value) == "e instanceof RangeError"
    ensures n.exceptionCondition.None? ==> ToString("", n, renderException, renderCondition) == " catch (e)"
    ensures n.exceptionCondition.Some? ==>
              ToString("", n, renderException, renderCondition) == " catch (e if e instanceof RangeError)"
  {
  }
}
