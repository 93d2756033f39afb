/** The children of a call: arbitrarily nested lists of text, numbers and
    already-rendered markup, flattened and serialized in order. */
module Children {
  import opened Escape
  import Decimal

  /** A child argument. `Markup` is the string an inner call returned, which
      is spliced in as is; `Text` is any other string, which is escaped;
      `Seq` is an array, of any depth; `Empty` stands for `null`,
      `undefined`, `true` and `false`, which render as nothing. */
  datatype Child =
    | Text(s: string)
    | Num(n: int)
    | Markup(html: string)
    | Seq(items: seq<Child>)
    | Empty

  /** A child that renders to something by itself. */
  predicate IsLeaf(c: Child) {
    c.Text? || c.Num? || c.Markup?
  }

  predicate AllLeaves(cs: seq<Child>) {
    forall i :: 0 <= i < |cs| ==> IsLeaf(cs[i])
  }

  /** The leaves of `cs`, depth first, left to right, with empty values
      dropped. */
  function Flatten(cs: seq<Child>): seq<Child>
    decreases cs
  {
    if |cs| == 0 then []
    else
      var head := match cs[0]
        case Seq(items) => Flatten(items)
        case Empty => []
        case _ => [cs[0]];
      head + Flatten(cs[1..])
  }

  /** Flattening leaves only leaves. */
  lemma {:induction false} FlattenAllLeaves(cs: seq<Child>)
    ensures AllLeaves(Flatten(cs))
    decreases cs
  {
    if |cs| > 0 {
      var head := match cs[0]
        case Seq(items) => Flatten(items)
        case Empty => []
        case _ => [cs[0]];
      if cs[0].Seq? {
        FlattenAllLeaves(cs[0].items);
      }
      FlattenAllLeaves(cs[1..]);
      var r := Flatten(cs);
      assert r == head + Flatten(cs[1..]);
      forall i | 0 <= i < |r| ensures IsLeaf(r[i]) {
        if i >= |head| {
          assert r[i] == Flatten(cs[1..])[i - |head|];
        }
      }
    }
  }

  /** The text of one leaf: strings and numbers escaped, markup verbatim. */
  function RenderLeaf(c: Child): string {
    match c
    case Text(s) => Esc(s)
    case Num(n) => Esc(Decimal.IntToString(n))
    case Markup(html) => html
    case _ => ""
  }

  /** The leaves' texts concatenated with no separator. */
  function RenderLeaves(leaves: seq<Child>): string
    decreases |leaves|
  {
    if |leaves| == 0 then ""
    else RenderLeaf(leaves[0]) + RenderLeaves(leaves[1..])
  }

  /** The serialized children of a call: flatten, then render each leaf. */
  function RenderChildren(cs: seq<Child>): string {
    RenderLeaves(Flatten(cs))
  }

  /** Work measure of a child list: every constructor counts one. */
  function Size(c: Child): nat
    decreases c
  {
    match c
    case Seq(items) => 1 + SizeSeq(items)
    case _ => 1
  }

  function SizeSeq(cs: seq<Child>): nat
    decreases cs
  {
    if |cs| == 0 then 0 else Size(cs[0]) + SizeSeq(cs[1..])
  }

  lemma {:induction false} SizeSeqConcat(a: seq<Child>, b: seq<Child>)
    ensures SizeSeq(a + b) == SizeSeq(a) + SizeSeq(b)
    decreases |a|
  {
    if |a| == 0 {
      assert a + b == b;
    } else {
      assert (a + b)[0] == a[0];
      assert (a + b)[1..] == a[1..] + b;
      SizeSeqConcat(a[1..], b);
    }
  }

  /** Flattening distributes over concatenation of child lists. */
  lemma {:induction false} FlattenConcat(a: seq<Child>, b: seq<Child>)
    ensures Flatten(a + b) == Flatten(a) + Flatten(b)
    decreases |a|
  {
    if |a| == 0 {
      assert a + b == b;
    } else {
      var ab := a + b;
      assert ab[0] == a[0];
      assert ab[1..] == a[1..] + b;
      FlattenConcat(a[1..], b);
    }
  }

  /** A list that is already flat is its own flattening. */
  lemma {:induction false} FlattenLeaves(cs: seq<Child>)
    requires AllLeaves(cs)
    ensures Flatten(cs) == cs
    decreases |cs|
  {
    if |cs| > 0 {
      assert IsLeaf(cs[0]);
      FlattenLeaves(cs[1..]);
      assert [cs[0]] + cs[1..] == cs;
    }
  }

  /** Flattening twice is flattening once. */
  lemma FlattenIdempotent(cs: seq<Child>)
    ensures Flatten(Flatten(cs)) == Flatten(cs)
  {
    FlattenAllLeaves(cs);
    FlattenLeaves(Flatten(cs));
  }

  lemma {:induction false} RenderLeavesConcat(a: seq<Child>, b: seq<Child>)
    ensures RenderLeaves(a + b) == RenderLeaves(a) + RenderLeaves(b)
    decreases |a|
  {
    if |a| == 0 {
      assert a + b == b;
    } else {
      var ab := a + b;
      assert ab[0] == a[0];
      assert ab[1..] == a[1..] + b;
      RenderLeavesConcat(a[1..], b);
    }
  }

  /** Children render one after another with no separator. */
  lemma RenderChildrenConcat(a: seq<Child>, b: seq<Child>)
    ensures RenderChildren(a + b) == RenderChildren(a) + RenderChildren(b)
  {
    FlattenConcat(a, b);
    RenderLeavesConcat(Flatten(a), Flatten(b));
  }

  /** Wrapping children in an array, at any depth, does not change what
      they render to. */
  lemma RenderNested(cs: seq<Child>)
    ensures RenderChildren([Seq(cs)]) == RenderChildren(cs)
  {
    var w := [Seq(cs)];
    assert w[0] == Seq(cs) && w[1..] == [];
    assert Flatten(w) == Flatten(cs) + Flatten([]);
    assert Flatten(cs) + [] == Flatten(cs);
  }

  /** Nested children render the same as their flattened equivalent. */
  lemma RenderFlattened(cs: seq<Child>)
    ensures RenderChildren(Flatten(cs)) == RenderChildren(cs)
  {
    FlattenIdempotent(cs);
  }

  /** An empty value contributes nothing, wherever it stands. */
  lemma RenderEmpty(a: seq<Child>, b: seq<Child>)
    ensures RenderChildren(a + [Empty] + b) == RenderChildren(a + b)
  {
    var e := [Empty];
    assert e[0] == Empty && e[1..] == [];
    assert Flatten(e) == [] + Flatten([]);
    calc {
      RenderChildren(a + e + b);
      { RenderChildrenConcat(a + e, b); }
      RenderChildren(a + e) + RenderChildren(b);
      { RenderChildrenConcat(a, e); }
      RenderChildren(a) + RenderChildren(b);
      { RenderChildrenConcat(a, b); }
      RenderChildren(a + b);
    }
  }

  /** A child list is markup-free when it holds no rendered markup at any
      depth: only strings, numbers and empty values. */
  predicate MarkupFree(cs: seq<Child>) {
    var leaves := Flatten(cs);
    forall i :: 0 <= i < |leaves| ==> !leaves[i].Markup?
  }

  lemma {:induction false} TextLeavesInert(leaves: seq<Child>)
    requires forall i :: 0 <= i < |leaves| ==> !leaves[i].Markup?
    ensures Inert(RenderLeaves(leaves))
    decreases |leaves|
  {
    if |leaves| > 0 {
      TextLeavesInert(leaves[1..]);
      match leaves[0]
      case Text(s) => EscInert(s);
      case Num(n) => EscInert(Decimal.IntToString(n));
      case _ =>
    }
  }

  /** Markup inside a string never becomes a tag: children without
      rendered markup serialize to text that holds no `<`, `>` or quote. */
  lemma TextChildrenInert(cs: seq<Child>)
    requires MarkupFree(cs)
    ensures Inert(RenderChildren(cs))
  {
    TextLeavesInert(Flatten(cs));
  }

  /** A list made only of rendered markup serializes to the markup strings
      concatenated, unescaped. */
  lemma {:induction false} RenderMarkupOnly(cs: seq<Child>, htmls: seq<string>)
    requires |cs| == |htmls|
    requires forall i :: 0 <= i < |cs| ==> cs[i] == Markup(htmls[i])
    ensures RenderChildren(cs) == Concat(htmls)
    decreases |cs|
  {
    if |cs| > 0 {
      RenderMarkupOnly(cs[1..], htmls[1..]);
      assert RenderChildren(cs) == htmls[0] + RenderChildren(cs[1..]);
    }
  }

  /** The strings of `ss` joined with no separator. */
  function Concat(ss: seq<string>): string
    decreases |ss|
  {
    if |ss| == 0 then "" else ss[0] + Concat(ss[1..])
  }

  /** A single leaf renders to its own text. */
  lemma RenderOneLeaf(c: Child)
    requires IsLeaf(c)
    ensures RenderChildren([c]) == RenderLeaf(c)
  {
    FlattenLeaves([c]);
    var w := [c];
    assert w[0] == c && w[1..] == [];
    assert RenderLeaves(w) == RenderLeaf(c) + RenderLeaves([]);
  }

  /** A single empty value renders to nothing. */
  lemma RenderOneEmpty()
    ensures RenderChildren([Empty]) == ""
  {
    RenderEmpty([], []);
  }

  /** Serializes children in one pass over a work list, the way the
      constructor walks its arguments: an array is replaced by its items,
      an empty value is dropped, and a leaf is rendered and appended. */
  method SerializeChildren(cs: seq<Child>) returns (out: string)
    ensures out == RenderChildren(cs)
  {
    out := "";
    var work := cs;
    while |work| > 0
      invariant out + RenderChildren(work) == RenderChildren(cs)
      decreases SizeSeq(work)
    {
      var c := work[0];
      var rest := work[1..];
      assert work == [c] + rest;
      if c.Seq? {
        StepSeq(c, rest);
        work := c.items + rest;
      } else if c.Empty? {
        StepEmpty(rest);
        work := rest;
      } else {
        StepLeaf(c, rest);
        assert out + (RenderLeaf(c) + RenderChildren(rest)) == (out + RenderLeaf(c)) + RenderChildren(rest);
        out := out + RenderLeaf(c);
        work := rest;
      }
    }
  }

  // One step of the work list: what the first child contributes, and that
  // the remaining work shrinks.

  lemma StepSeq(c: Child, rest: seq<Child>)
    requires c.Seq?
    ensures RenderChildren([c] + rest) == RenderChildren(c.items + rest)
    ensures SizeSeq(c.items + rest) < SizeSeq([c] + rest)
  {
    RenderChildrenConcat([c], rest);
    RenderNested(c.items);
    RenderChildrenConcat(c.items, rest);
    SizeSeqConcat([c], rest);
    SizeSeqConcat(c.items, rest);
    assert SizeSeq([c]) == Size(c) + SizeSeq([]);
  }

  lemma StepEmpty(rest: seq<Child>)
    ensures RenderChildren([Empty] + rest) == RenderChildren(rest)
    ensures SizeSeq(rest) < SizeSeq([Empty] + rest)
  {
    RenderChildrenConcat([Empty], rest);
    RenderOneEmpty();
    SizeSeqConcat([Empty], rest);
    assert SizeSeq([Empty]) == Size(Empty) + SizeSeq([]);
  }

  lemma StepLeaf(c: Child, rest: seq<Child>)
    requires IsLeaf(c)
    ensures RenderChildren([c] + rest) == RenderLeaf(c) + RenderChildren(rest)
    ensures SizeSeq(rest) < SizeSeq([c] + rest)
  {
    RenderChildrenConcat([c], rest);
    RenderOneLeaf(c);
    SizeSeqConcat([c], rest);
    assert SizeSeq([c]) == Size(c) + SizeSeq([]);
  }
}
