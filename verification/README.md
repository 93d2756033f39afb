# vhtml in Dafny

A model of vhtml's element constructor `h(tag, attrs, ...children)`. JSX is
compiled to calls of `h`, and each call returns the finished HTML string, so
no tree is kept and there is no separate render pass. The model covers:

- the tag dispatch: a plain element, a function component, or a fragment;
- the serialization of attributes: values escaped, `className` and
  `htmlFor` renamed, `false`/`null`/`undefined` suppressed, and the reserved
  `dangerouslySetInnerHTML` key injecting raw inner HTML;
- the flattening and serialization of children: nested arrays of any depth,
  text escaped, rendered elements spliced in verbatim;
- the fixed set of void elements, which get no closing tag.

The implementation module `src/vhtml` is not part of this model. Its
behaviour is reconstructed from the test suite `test/vhtml.js`, which pins it
with exact expected strings.

Modules, one per file:

- `Wrappers` holds `Option`.
- `Decimal` holds the plain decimal text of integers, which is `String(n)`
  for safe integers, and its parser.
- `Escape` holds the five-character HTML escape, its inverse `Unescape`, and
  their laws.
- `Attributes` holds the attribute object, its serialization into the
  opening tag, and a reader `ParseAttrs` that reads that text back.
- `Children` holds the child values, `Flatten`, and the rendering of the
  flattened leaves. The method `SerializeChildren` is a one-pass work-list
  version of that rendering, proved equal to it.
- `Vhtml` holds the constructor `H`, a reader `ReadElement` for one
  element, and the general properties of the constructor.
- `VhtmlTests` holds every test of the suite as a lemma. Each lemma equates a
  call of `H` with the expected string.

A child element is evaluated before the call that contains it, just as
JavaScript evaluates `h`'s arguments. It therefore reaches the outer call as
the string the inner call returned, wrapped as `Markup`. Components are
functions from props to a string.

## Model

| member | source | states |
|---|---|---|
| Decimal.NatToString | test/vhtml.js:12-20 | The decimal text of a count is non-empty and all digits. It has no leading zero, and it starts with `0` exactly when the count is 0. |
| Decimal.IntToString | test/vhtml.js:67-67 | The text of a number is non-empty. A non-negative number gives digits only. A negative one gives `-` followed by digits. Neither has a leading zero, so the text is canonical. |
| Decimal.NatRoundTrip | test/vhtml.js:12-20 | The decimal text of a natural number parses back to that number. |
| Decimal.IntRoundTrip | test/vhtml.js:67-67 | The decimal text of an integer parses back to the integer, so no information is lost. |
| Decimal.NatTextRoundTrip | test/vhtml.js:12-20 | Every canonical digit run is the text of the number it reads as. |
| Decimal.IntTextRoundTrip | test/vhtml.js:85-85 | Every canonical integer text is the text of the integer it reads as. With IntRoundTrip, the texts of integers are exactly the canonical ones. |
| Decimal.IntToStringInjective | test/vhtml.js:85-85 | Different numbers, such as the ids `0` and `1`, get different texts. |
| Escape.EscapeChar | test/vhtml.js:35-41 | Each of `& < > " '` becomes an entity starting with `&`. Every other character is kept. No result holds `<`, `>` or a quote. |
| Escape.Esc | test/vhtml.js:35-41 | Escaping never shortens a value. |
| Escape.EscInert | test/vhtml.js:24-33 | Escaped text holds no `<`, `>`, `"` or `'`, so a string child can never open or close a tag. |
| Escape.UnescapeChar | test/vhtml.js:39-39 | Decoding the entity of one character gives back that character and leaves the rest of the text to be decoded. |
| Escape.EscRoundTrip | test/vhtml.js:35-41 | Decoding the five entities undoes the escape for every string. |
| Escape.EscInjective | test/vhtml.js:35-41 | Two different values never escape to the same text. |
| Escape.EscConcat | test/vhtml.js:24-33 | The escape works character by character: escaping `a + b` gives the escape of `a` followed by the escape of `b`. |
| Escape.EscIdentity | test/vhtml.js:7-22 | A string is unchanged by the escape exactly when it holds none of the five special characters, in both directions. |
| Escape.EscPlain | test/vhtml.js:11-11 | Text with no special character, such as `Hi!`, renders as itself. |
| Attributes.AttrTextShape | test/vhtml.js:169-175 | The attribute text is empty or starts with a blank. When no name holds `>`, the text holds none either, so it cannot end the opening tag early. |
| Attributes.VisibleHidesKey | test/vhtml.js:43-49 | The attributes a reader sees never include `dangerouslySetInnerHTML`, and there are no more of them than entries. |
| Attributes.VisibleFromEntries | test/vhtml.js:169-175 | No visible attribute is invented: each one is the DOM name and value text of an emitted entry. |
| Attributes.EmittedVisible | test/vhtml.js:35-41 | No emitted entry is lost: each one appears among the visible attributes with its DOM name and value text. |
| Attributes.ParseOneAttr | test/vhtml.js:173-173 | One emitted entry reads back as its renamed name paired with its original value text. |
| Attributes.AttrsRoundTrip | test/vhtml.js:169-175 | Reading the opening tag's attribute text back gives exactly the visible entries. These are in the caller's order, with `className`/`htmlFor` renamed, the original unescaped values, and the suppressed entries absent. |
| Attributes.SerializeAttrsConcat | test/vhtml.js:171-173 | Attributes are written in the order given: the text for `a + b` is the text for `a` followed by the text for `b`. |
| Attributes.SuppressedEntryInvisible | test/vhtml.js:43-49 | An entry that is `false`, `null` or `undefined`, or is the reserved key, leaves the opening tag exactly as if it were absent. |
| Children.FlattenAllLeaves | test/vhtml.js:51-61 | Flattening leaves only strings, numbers and rendered markup: no arrays and no empty values. |
| Children.FlattenConcat | test/vhtml.js:54-56 | Flattening is depth first and left to right: it distributes over concatenation of the child list. |
| Children.FlattenLeaves | test/vhtml.js:55-55 | A list that is already flat is its own flattening. |
| Children.FlattenIdempotent | test/vhtml.js:51-61 | Flattening twice is the same as flattening once. |
| Children.RenderLeavesConcat | test/vhtml.js:59-59 | Leaves render one after another with no separator. |
| Children.RenderChildrenConcat | test/vhtml.js:51-61 | Children render one after another with no separator, in order. |
| Children.RenderNested | test/vhtml.js:54-54 | Wrapping children in an array, at any depth, does not change what they render to. |
| Children.RenderFlattened | test/vhtml.js:51-61 | Nested children render the same as their flattened equivalent. |
| Children.RenderEmpty | test/vhtml.js:66-70 | An empty value, such as `{children}` when no children were passed, contributes nothing wherever it stands. |
| Children.RenderOneEmpty | test/vhtml.js:69-69 | A single empty value renders to the empty string. |
| Children.TextLeavesInert | test/vhtml.js:24-33 | Leaves that are text or numbers render to text without `<`, `>` or quotes. |
| Children.TextChildrenInert | test/vhtml.js:24-33 | Children without rendered markup, at any depth, serialize to text with no `<`, `>` or quote, so markup inside a string never becomes a tag. |
| Children.RenderMarkupOnly | test/vhtml.js:202-208 | A list of rendered elements serializes to their strings concatenated, unescaped. |
| Children.RenderOneLeaf | test/vhtml.js:27-28 | A child list holding one string, number or element renders as that leaf's own text: escaped for a string or number, verbatim for an element. |
| Children.SerializeChildren | test/vhtml.js:51-61 | The one-pass work-list serializer returns exactly the flatten-then-render text. |
| Vhtml.ElementRoundTrip | test/vhtml.js:7-22 | Reading a plain element's markup back gives its tag name, its visible attributes in order with their original values, and its content. A void element has no content and no closing tag. |
| Vhtml.ReadVoid | test/vhtml.js:143-158 | A void element's markup reads back with empty content. |
| Vhtml.ReadNonVoid | test/vhtml.js:160-162 | A non-void element's markup reads back with the content between its tags. |
| Vhtml.VoidIgnoresContent | test/vhtml.js:140-167 | A void element renders the same whatever children or inner HTML the call carries. |
| Vhtml.NonVoidClosed | test/vhtml.js:160-162 | A non-void element always starts with `<name` and ends with `</name>`, even with no children. |
| Vhtml.EmptyNonVoid | test/vhtml.js:160-162 | A non-void element with no children and no inner HTML is its opening tag directly followed by its closing tag. |
| Vhtml.InnerHtmlVerbatim | test/vhtml.js:43-49 | Inner HTML is spliced in verbatim, exactly as if it were the one already-rendered child, and the call's own children are ignored. |
| Vhtml.FlattenInvariant | test/vhtml.js:51-61 | For elements and fragments, flattening the children first, or wrapping them in one more array, gives the same output. |
| Vhtml.FragmentConcat | test/vhtml.js:177-200 | A fragment ignores its attributes and has no wrapper. An empty fragment is `""`. The fragment of `c1 + c2` is the fragment of `c1` followed by the fragment of `c2`. |
| Vhtml.FragmentOfMarkup | test/vhtml.js:202-208 | A fragment of rendered elements returns their markup concatenated, unchanged. |
| Vhtml.ComponentProps | test/vhtml.js:63-138 | A component receives the call's attributes. It receives the `children` property exactly when children were passed. Splicing that property in renders the children as the caller wrote them. |
| Vhtml.ComponentOutput | test/vhtml.js:89-112 | A component's output is its own result, neither wrapped nor escaped again. A component that ignores `children` drops them, and one without parameters returns the same text for every call. |
| Vhtml.NumChildDecimal | test/vhtml.js:12-12 | A number child renders as its decimal text. |
| Vhtml.NumAttrDecimal | test/vhtml.js:67-67 | A number attribute value is written as `name="<decimal text>"`. |
| Vhtml.DecimalPlain | test/vhtml.js:85-85 | Decimal text is never changed by the escape. |
| VhtmlTests.StringifiesHtml | test/vhtml.js:7-22 | The page with a heading, a count paragraph and three list items renders as the suite's expected string. |
| VhtmlTests.SanitizesChildren | test/vhtml.js:24-33 | A string child holding markup is escaped, and the `<em>` element next to it is not. |
| VhtmlTests.EscAllSpecial | test/vhtml.js:37-39 | The value `&<>"'` escapes to `&amp;&lt;&gt;&quot;&apos;`. |
| VhtmlTests.SanitizesAttributes | test/vhtml.js:35-41 | A `<div>` with an `onclick` value of `&<>"'` renders with all five characters escaped and an empty content. |
| VhtmlTests.InnerHtmlUnsanitized | test/vhtml.js:43-49 | The `__html` text appears unescaped as the element's content. The reserved key is among the entries but does not appear in the opening tag. |
| VhtmlTests.FlattensChildren | test/vhtml.js:51-61 | `[['a','b']]`, `<c>d</c>` and `['e',['f'],[['g']]]` render as `ab<c>d</c>efg`. |
| VhtmlTests.SupportsComponents | test/vhtml.js:63-87 | A component given `item`, a numeric `index` and children renders as `<li id="0">…</li>` and `<li id="1">…</li>`, in list order. |
| VhtmlTests.SupportsComponentsWithoutArgs | test/vhtml.js:89-112 | A component without parameters drops the children it is called with. |
| VhtmlTests.SupportsComponentsWithChildren | test/vhtml.js:114-138 | A component that reads only `children` splices them in after its own markup. |
| VhtmlTests.BareRender | test/vhtml.js:143-162 | A bare element renders as its reference form: `<name>` for a void name, `<name></name>` for any other. |
| VhtmlTests.BareVoid | test/vhtml.js:143-158 | A bare void element is its opening tag alone. |
| VhtmlTests.BareNonVoid | test/vhtml.js:160-162 | A bare non-void element is an empty pair of tags. |
| VhtmlTests.RenderBares | test/vhtml.js:142-163 | A list of bare elements renders as the reference tags of the names, in order. |
| VhtmlTests.SupportsVoidTags | test/vhtml.js:140-167 | The sixteen void elements render without closing tags, and `div`, `span` and `p` render with closing tags. |
| VhtmlTests.HandlesSpecialPropNames | test/vhtml.js:169-175 | `className` is written as `class` and `htmlFor` as `for`, in the order given. |
| VhtmlTests.SupportsFragments | test/vhtml.js:177-183 | An empty fragment renders as the empty string. |
| VhtmlTests.SupportsFragmentChildren | test/vhtml.js:184-192 | A fragment around one element renders as that element alone. |
| VhtmlTests.SupportsStringFragments | test/vhtml.js:194-200 | `h(null, null, "foo", "bar", "baz")` renders as `foobarbaz`. |
| VhtmlTests.SupportsElementFragments | test/vhtml.js:202-208 | A fragment of three elements renders as their markup side by side, with no wrapper. |

## Left out

- The mocha/chai harness and the module import (test/vhtml.js:1-4) are test plumbing, so they are not modelled.
- JSX compilation is done by an external compiler, which also drops whitespace-only text. Each test call is written as the nested `h` calls it compiles to. The children are argument lists, e.g. `"This is item ", item, "!"`.
- The model does not say how the implementation tells a rendered element's string apart from a plain string child. The `Child` datatype separates `Markup` from `Text` by construction.
- Text children are escaped with the same five-character escape as attribute values, quotes included. The suite pins only `<` and `>` in text, so this is a choice.
- There are two readings of a void element given `dangerouslySetInnerHTML`: emit the raw HTML after the opening tag, or stop at the opening tag. The model stops at the opening tag, as for every other void element. No test covers the case.
- Numbers are JavaScript doubles, but the model uses unbounded integers written as plain decimal text. Fractions, exponents, `NaN` and `Infinity` are not modelled.
- Attribute values are strings, integers, booleans or `null`/`undefined`. Objects, arrays and functions as values, and JavaScript truthiness beyond `false`/`null`/`undefined`, are not modelled. A tag that is neither a string, a function nor a fragment marker is not modelled either.
- The attribute object is a list of entries in its iteration order. Duplicate keys, which a JavaScript object cannot hold, are not excluded. `Prop` reads the first entry.
- The object passed as `dangerouslySetInnerHTML` is modelled by its `__html` string alone. That string sits in the `innerHtml` field. The entry under the reserved key may also stay among the entries, where the serializer skips it. The model does not require the field and the entry to agree.
- A component returns a string, which is what `h` returns. A component returning an unrendered descriptor is not modelled, so `H` needs no fuel.
- The suite writes `<h.Fragmant>`, a misspelling of `h.Fragment`. The misspelled member is `undefined`, and an `undefined` tag is the fragment marker, so those tests are modelled with `Fragment`.
- Attributes.AttrsRoundTrip: holds only for names without `=`. The model writes attribute names as given, and a reader ends a name at its first `=`. The suite uses only plain names, so it does not show how other names are written.
- Attributes.AttrTextShape: the absence of `>` is stated only for names without `>`, because the model writes names as given.
- Vhtml.ElementRoundTrip: holds only for tag names without a blank or `>` and attribute names without `=` or `>`. The model also writes tag names as given.
- Vhtml.FlattenInvariant: stated for elements and fragments only, because a component receives its children as passed and may inspect their nesting.
- Decimal.IntToString: agrees with `String(n)` only for safe integers, those of magnitude at most 2^53 - 1. JavaScript prints larger numbers rounded to a double (`String(2**60)` is `1152921504606847000`) or in exponent form from 10^21 on (`1e+21`). The model writes every digit. The texts of non-integral numbers are not covered either.
- Escape.Esc: its contract states only the length bound. The other laws of the escape are the separate lemmas EscInert, EscRoundTrip, EscConcat and EscIdentity.
