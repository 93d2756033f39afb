/** The element constructor `h(tag, attrs, ...children)`: it dispatches on
    the tag and returns the finished HTML string. JSX compiles to nested
    calls, so the children of a call are evaluated first; a child element
    is the string an inner call returned, passed as `Markup`. */
module Vhtml {
  import opened Wrappers
  import opened Escape
  import opened Attributes
  import opened Children
  import Decimal

  /** What a component receives: the attributes of the call plus, when the
      call had any children, the `children` property holding them as
      passed. */
  datatype Props = Props(attrs: Attrs, children: Option<seq<Child>>)

  /** The tag of a call: an element name, a function component, or the
      fragment marker (`null`, `undefined` or `h.Fragment`). */
  datatype Tag =
    | Elem(name: string)
    | Component(render: Props -> string)
    | Fragment

  /** Elements that have no closing tag and no content. */
  const VoidTags: set<string> := {
    "area", "base", "br", "col", "command", "embed", "hr", "img",
    "input", "keygen", "link", "meta", "param", "source", "track", "wbr"
  }

  /** The props object of a component call: `children` is left out when
      no children were passed. */
  function PropsOf(attrs: Attrs, children: seq<Child>): Props {
    Props(attrs, if |children| == 0 then None else Some(children))
  }

  /** What `{children}` evaluates to inside a component: the array of
      children as passed, or `undefined` when there were none. */
  function ChildrenProp(p: Props): Child {
    match p.children
    case None => Empty
    case Some(cs) => Seq(cs)
  }

  /** The value of the first attribute named `name`, `undefined` if none. */
  function Prop(p: Props, name: string): AttrValue {
    LookUp(p.attrs.entries, name)
  }

  function LookUp(entries: seq<(string, AttrValue)>, name: string): AttrValue
    decreases |entries|
  {
    if |entries| == 0 then Null
    else if entries[0].0 == name then entries[0].1
    else LookUp(entries[1..], name)
  }

  /** A property value used as a child, as in `<h4>{item}</h4>`. */
  function ValueChild(v: AttrValue): Child {
    match v
    case Str(s) => Text(s)
    case Num(n) => Child.Num(n)
    case _ => Empty
  }

  function OpenTag(name: string, attrs: Attrs): string {
    "<" + name + SerializeAttrs(attrs.entries) + ">"
  }

  function CloseTag(name: string): string {
    "</" + name + ">"
  }

  /** The content of a non-void element: the raw `__html` text when
      `dangerouslySetInnerHTML` is given, which then replaces the children;
      otherwise the serialized children. */
  function Content(attrs: Attrs, children: seq<Child>): string {
    match attrs.innerHtml
    case Some(html) => html
    case None => RenderChildren(children)
  }

  /** `h(tag, attrs, ...children)`. */
  function H(tag: Tag, attrs: Attrs, children: seq<Child>): string {
    match tag
    case Component(render) => render(PropsOf(attrs, children))
    case Fragment => RenderChildren(children)
    case Elem(name) =>
      if name in VoidTags then OpenTag(name, attrs)
      else OpenTag(name, attrs) + Content(attrs, children) + CloseTag(name)
  }

  // ---------------------------------------------------------------------
  // Reading an element back

  /** An element as a reader of the markup sees it. */
  datatype Element = Element(name: string, attrs: seq<(string, string)>, content: string)

  /** Splits the text between `<` and `>` into the tag name and the
      attribute text, at the first blank. */
  function SplitName(s: string): (string, string) {
    match TakeUntil(s, ' ')
    case None => (s, "")
    case Some(q) => (q.0, " " + q.1)
  }

  /** Reads one element from the start of `s`: the opening tag up to the
      first `>`, its attributes, and, unless the name is a void tag, the
      content up to the closing tag that ends `s`. */
  function ReadElement(s: string): Option<Element> {
    if |s| == 0 || s[0] != '<' then None
    else match TakeUntil(s[1..], '>')
      case None => None
      case Some(p) =>
        var (name, attrText) := SplitName(p.0);
        match ParseAttrs(attrText)
        case None => None
        case Some(read) =>
          if name in VoidTags then
            if p.1 == "" then Some(Element(name, read, "")) else None
          else
            var close := CloseTag(name);
            if |p.1| >= |close| && p.1[|p.1| - |close|..] == close
            then Some(Element(name, read, p.1[..|p.1| - |close|]))
            else None
  }

  /** A tag name that can be read back: no blank and no `>`. */
  predicate TagNameOk(name: string) {
    ' ' !in name && '>' !in name
  }

  lemma SplitNameOk(name: string, attrText: string)
    requires ' ' !in name
    requires attrText == "" || attrText[0] == ' '
    ensures SplitName(name + attrText) == (name, attrText)
  {
    if attrText == "" {
      assert name + attrText == name;
      TakeUntilAbsent(name, ' ');
    } else {
      assert name + attrText == name + [' '] + attrText[1..];
      TakeUntilSplit(name, ' ', attrText[1..]);
      assert " " + attrText[1..] == attrText;
    }
  }

  lemma ReadOpening(name: string, a: string, rest: string, read: seq<(string, string)>)
    requires TagNameOk(name)
    requires '>' !in a && (a == "" || a[0] == ' ')
    requires ParseAttrs(a) == Some(read)
    ensures var s := "<" + name + a + ">" + rest;
      |s| > 0 && s[0] == '<' &&
      TakeUntil(s[1..], '>') == Some((name + a, rest)) &&
      SplitName(name + a) == (name, a)
  {
    var s := "<" + name + a + ">" + rest;
    assert s[1..] == (name + a) + ['>'] + rest;
    TakeUntilSplit(name + a, '>', rest);
    SplitNameOk(name, a);
  }

  lemma ReadVoid(name: string, a: string, read: seq<(string, string)>)
    requires TagNameOk(name) && name in VoidTags
    requires '>' !in a && (a == "" || a[0] == ' ')
    requires ParseAttrs(a) == Some(read)
    ensures ReadElement("<" + name + a + ">") == Some(Element(name, read, ""))
  {
    ReadOpening(name, a, "", read);
    assert "<" + name + a + ">" + "" == "<" + name + a + ">";
  }

  lemma ReadNonVoid(name: string, a: string, content: string, read: seq<(string, string)>)
    requires TagNameOk(name) && name !in VoidTags
    requires '>' !in a && (a == "" || a[0] == ' ')
    requires ParseAttrs(a) == Some(read)
    ensures ReadElement("<" + name + a + ">" + (content + CloseTag(name))) == Some(Element(name, read, content))
  {
    var rest := content + CloseTag(name);
    ReadOpening(name, a, rest, read);
    var close := CloseTag(name);
    assert rest[|rest| - |close|..] == close;
    assert rest[..|rest| - |close|] == content;
  }

  /** Everything a plain-tag call puts into its markup can be read back:
      the tag name, the visible attributes in order with their original
      values, and the content; a void element has no content and no
      closing tag. */
  lemma ElementRoundTrip(name: string, attrs: Attrs, children: seq<Child>)
    requires TagNameOk(name)
    requires NamesReadable(attrs.entries) && NamesInTag(attrs.entries)
    ensures ReadElement(H(Elem(name), attrs, children)) ==
      Some(Element(name, Visible(attrs.entries),
                   if name in VoidTags then "" else Content(attrs, children)))
  {
    var a := SerializeAttrs(attrs.entries);
    AttrsRoundTrip(attrs.entries);
    AttrTextShape(attrs.entries);
    if name in VoidTags {
      assert H(Elem(name), attrs, children) == "<" + name + a + ">";
      ReadVoid(name, a, Visible(attrs.entries));
    } else {
      var content := Content(attrs, children);
      assert H(Elem(name), attrs, children) == "<" + name + a + ">" + (content + CloseTag(name));
      ReadNonVoid(name, a, content, Visible(attrs.entries));
    }
  }

  // ---------------------------------------------------------------------
  // Properties of the constructor

  /** A void element renders as its opening tag alone: the same output
      whatever children or inner HTML the call carries. */
  lemma VoidIgnoresContent(name: string, a1: Attrs, c1: seq<Child>, a2: Attrs, c2: seq<Child>)
    requires name in VoidTags
    requires a1.entries == a2.entries
    ensures H(Elem(name), a1, c1) == H(Elem(name), a2, c2)
  {
  }

  /** A non-void element always gets its closing tag, even with no
      children: the output is the opening tag, the content, then
      `</name>`. */
  lemma NonVoidClosed(name: string, attrs: Attrs, children: seq<Child>)
    requires name !in VoidTags
    ensures var r := H(Elem(name), attrs, children);
      |r| >= |name| + 5 &&
      r[..|name| + 1] == "<" + name &&
      r[|r| - |name| - 3..] == "</" + name + ">"
  {
  }

  /** With no children and no inner HTML, a non-void element is an empty
      pair of tags. */
  lemma EmptyNonVoid(name: string, entries: seq<(string, AttrValue)>)
    requires name !in VoidTags
    ensures H(Elem(name), Attrs(entries, None), []) ==
      OpenTag(name, Attrs(entries, None)) + CloseTag(name)
  {
    var attrs := Attrs(entries, None);
    assert Flatten([]) == [];
    assert Content(attrs, []) == "";
    var o, c := OpenTag(name, attrs), CloseTag(name);
    assert H(Elem(name), attrs, []) == o + "" + c;
    assert o + "" == o;
  }

  /** Inner HTML is spliced in verbatim: the element renders exactly as if
      the raw text were its one, already-rendered, child, and the call's
      own children are ignored. */
  lemma InnerHtmlVerbatim(name: string, entries: seq<(string, AttrValue)>, html: string, children: seq<Child>)
    ensures H(Elem(name), Attrs(entries, Some(html)), children) ==
      H(Elem(name), Attrs(entries, None), [Markup(html)])
  {
    RenderOneLeaf(Markup(html));
  }

  /** For elements and fragments, nested child arrays render the same as
      their flattened equivalent, and wrapping the children in an array
      changes nothing. */
  lemma FlattenInvariant(tag: Tag, attrs: Attrs, children: seq<Child>)
    requires !tag.Component?
    ensures H(tag, attrs, Flatten(children)) == H(tag, attrs, children)
    ensures H(tag, attrs, [Seq(children)]) == H(tag, attrs, children)
  {
    RenderFlattened(children);
    RenderNested(children);
  }

  /** A fragment has no wrapper: it ignores its attributes, renders its
      children one after another, and an empty fragment is the empty
      string. */
  lemma FragmentConcat(a1: Attrs, a2: Attrs, c1: seq<Child>, c2: seq<Child>)
    ensures H(Fragment, a1, []) == ""
    ensures H(Fragment, a1, c1 + c2) == H(Fragment, a2, c1) + H(Fragment, a2, c2)
  {
    RenderChildrenConcat(c1, c2);
  }

  /** A fragment around rendered markup returns that markup unchanged. */
  lemma FragmentOfMarkup(attrs: Attrs, cs: seq<Child>, htmls: seq<string>)
    requires |cs| == |htmls|
    requires forall i :: 0 <= i < |cs| ==> cs[i] == Markup(htmls[i])
    ensures H(Fragment, attrs, cs) == Concat(htmls)
  {
    RenderMarkupOnly(cs, htmls);
  }

  /** A component is called with the call's attributes, and with the
      `children` property exactly when children were passed; splicing that
      property in renders the children as the caller wrote them. */
  lemma ComponentProps(attrs: Attrs, children: seq<Child>)
    ensures PropsOf(attrs, children).attrs == attrs
    ensures PropsOf(attrs, children).children.None? <==> |children| == 0
    ensures RenderChildren([ChildrenProp(PropsOf(attrs, children))]) == RenderChildren(children)
  {
    if |children| == 0 {
      RenderOneEmpty();
    } else {
      RenderNested(children);
    }
  }

  /** The output of a component call is the component's own result, not
      wrapped and not escaped again. A component that reads only its
      attributes drops the children; one that reads nothing returns the
      same text for every call. */
  lemma ComponentOutput(f: Attrs -> string, k: string, attrs: Attrs, c1: seq<Child>, c2: seq<Child>)
    ensures H(Component((p: Props) => f(p.attrs)), attrs, c1) == f(attrs)
    ensures H(Component((p: Props) => f(p.attrs)), attrs, c1) == H(Component((p: Props) => f(p.attrs)), attrs, c2)
    ensures H(Component((_: Props) => k), attrs, c1) == k
  {
  }

  /** A number child renders as its decimal text. */
  lemma NumChildDecimal(n: int)
    ensures RenderChildren([Child.Num(n)]) == Decimal.IntToString(n)
  {
    RenderOneLeaf(Child.Num(n));
    DecimalPlain(n);
  }

  /** A number attribute value is written as its decimal text. */
  lemma NumAttrDecimal(name: string, n: int)
    requires name != InnerHtmlKey
    ensures SerializeAttrs([(name, AttrValue.Num(n))]) == " " + DomName(name) + "=\"" + Decimal.IntToString(n) + "\""
  {
    DecimalPlain(n);
    var e := [(name, AttrValue.Num(n))];
    assert e[0] == (name, AttrValue.Num(n)) && e[1..] == [];
  }

  /** Decimal text holds no character the escape rewrites. */
  lemma DecimalPlain(n: int)
    ensures Esc(Decimal.IntToString(n)) == Decimal.IntToString(n)
  {
    var s := Decimal.IntToString(n);
    forall c | c in s
      ensures !IsSpecial(c)
    {
      var i :| 0 <= i < |s| && s[i] == c;
      if n < 0 && i > 0 {
        assert s[i] == s[1..][i - 1];
      }
    }
    EscIdentity(s);
  }
}
