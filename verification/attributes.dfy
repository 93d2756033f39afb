/** The attribute object of a call and its serialization into the opening
    tag of a plain element. */
module Attributes {
  import opened Wrappers
  import opened Escape
  import Decimal

  /** An attribute value as the constructor receives it. `Null` stands for
      both `null` and `undefined`. */
  datatype AttrValue = Str(s: string) | Num(n: int) | Bool(b: bool) | Null

  /** The attribute object: its ordinary entries in the caller's iteration
      order, and the `__html` text of the reserved `dangerouslySetInnerHTML`
      entry when that entry is present. */
  datatype Attrs = Attrs(entries: seq<(string, AttrValue)>, innerHtml: Option<string>)

  /** The attribute object of a call that passes `null` attributes. */
  const NoAttrs: Attrs := Attrs([], None)

  /** The reserved key whose value is injected as raw inner HTML. */
  const InnerHtmlKey: string := "dangerouslySetInnerHTML"

  /** The DOM attribute name a JSX property name is written as. */
  function DomName(name: string): string {
    if name == "className" then "class"
    else if name == "htmlFor" then "for"
    else name
  }

  /** `false`, `null` and `undefined` suppress the attribute; every other
      value, `true` and `0` and `""` included, is written out. */
  predicate Shown(v: AttrValue) {
    match v
    case Bool(b) => b
    case Null => false
    case _ => true
  }

  /** The JavaScript string form of a value, before escaping. */
  function ValueText(v: AttrValue): string {
    match v
    case Str(s) => s
    case Num(n) => Decimal.IntToString(n)
    case Bool(b) => if b then "true" else "false"
    case Null => "null"
  }

  /** Whether an entry reaches the opening tag. */
  predicate Emits(e: (string, AttrValue)) {
    Shown(e.1) && e.0 != InnerHtmlKey
  }

  /** One entry as it appears in the opening tag: ` name="escaped"`, or
      nothing when the entry is suppressed. */
  function SerializeAttr(e: (string, AttrValue)): string {
    if Emits(e) then " " + DomName(e.0) + "=\"" + Esc(ValueText(e.1)) + "\""
    else ""
  }

  /** Attribute names a reader can split off their value: no `=`, which
      ends a name. */
  predicate NamesReadable(entries: seq<(string, AttrValue)>) {
    forall i :: 0 <= i < |entries| ==> '=' !in entries[i].0
  }

  /** Attribute names that stay inside the opening tag: no `>`, which ends
      it. */
  predicate NamesInTag(entries: seq<(string, AttrValue)>) {
    forall i :: 0 <= i < |entries| ==> '>' !in entries[i].0
  }

  /** All entries, in the order given, as they appear in the opening tag. */
  function SerializeAttrs(entries: seq<(string, AttrValue)>): string
    decreases |entries|
  {
    if |entries| == 0 then ""
    else SerializeAttr(entries[0]) + SerializeAttrs(entries[1..])
  }

  lemma NamesTail(entries: seq<(string, AttrValue)>)
    requires |entries| > 0
    ensures NamesReadable(entries) ==> '=' !in entries[0].0 && NamesReadable(entries[1..])
    ensures NamesInTag(entries) ==> '>' !in entries[0].0 && NamesInTag(entries[1..])
  {
    forall i | 0 <= i < |entries[1..]| ensures entries[1..][i] == entries[i + 1] {
    }
  }

  /** The attribute text is empty or starts with a blank, and when no name
      holds `>` neither does the text, so it cannot end the opening tag
      early. */
  lemma {:induction false} AttrTextShape(entries: seq<(string, AttrValue)>)
    ensures var r := SerializeAttrs(entries); r == "" || r[0] == ' '
    ensures NamesInTag(entries) ==> '>' !in SerializeAttrs(entries)
    decreases |entries|
  {
    if |entries| > 0 {
      var head := SerializeAttr(entries[0]);
      var tail := SerializeAttrs(entries[1..]);
      assert SerializeAttrs(entries) == head + tail;
      AttrTextShape(entries[1..]);
      if NamesInTag(entries) {
        NamesTail(entries);
        if Emits(entries[0]) {
          var v := Esc(ValueText(entries[0].1));
          EscInert(ValueText(entries[0].1));
          assert head == " " + DomName(entries[0].0) + "=\"" + v + "\"";
        }
      }
    }
  }

  /** The attributes a reader of the opening tag sees: the emitted entries,
      in the order given, as (DOM name, unescaped value text). */
  function Visible(entries: seq<(string, AttrValue)>): seq<(string, string)>
    decreases |entries|
  {
    if |entries| == 0 then []
    else if Emits(entries[0]) then [(DomName(entries[0].0), ValueText(entries[0].1))] + Visible(entries[1..])
    else Visible(entries[1..])
  }

  /** The reserved key never reaches the opening tag, and no entry is
      invented. */
  lemma {:induction false} VisibleHidesKey(entries: seq<(string, AttrValue)>)
    ensures var r := Visible(entries);
      (forall i :: 0 <= i < |r| ==> r[i].0 != InnerHtmlKey) && |r| <= |entries|
    decreases |entries|
  {
    if |entries| > 0 {
      VisibleHidesKey(entries[1..]);
      if Emits(entries[0]) {
        var r := Visible(entries);
        var t := Visible(entries[1..]);
        assert r == [(DomName(entries[0].0), ValueText(entries[0].1))] + t;
        assert DomName(entries[0].0) != InnerHtmlKey;
        forall i | 1 <= i < |r| ensures r[i].0 != InnerHtmlKey {
          assert r[i] == t[i - 1];
        }
      }
    }
  }

  /** `p` is what a reader of the opening tag sees of entry `e`. */
  predicate Shows(e: (string, AttrValue), p: (string, string)) {
    Emits(e) && p == (DomName(e.0), ValueText(e.1))
  }

  /** No visible attribute is invented: each one is shown by an entry. */
  lemma {:induction false} VisibleFromEntries(entries: seq<(string, AttrValue)>)
    ensures forall i :: 0 <= i < |Visible(entries)| ==>
      exists j :: 0 <= j < |entries| && Shows(entries[j], Visible(entries)[i])
    decreases |entries|
  {
    if |entries| == 0 {
      assert Visible(entries) == [];
    } else {
      var r, t, tl := Visible(entries), Visible(entries[1..]), entries[1..];
      VisibleFromEntries(tl);
      if Emits(entries[0]) {
        assert r == [(DomName(entries[0].0), ValueText(entries[0].1))] + t;
        forall i | 0 <= i < |r|
          ensures exists j :: 0 <= j < |entries| && Shows(entries[j], r[i])
        {
          if i == 0 {
            assert Shows(entries[0], r[0]);
          } else {
            assert r[i] == t[i - 1];
            var j :| 0 <= j < |tl| && Shows(tl[j], t[i - 1]);
            assert entries[j + 1] == tl[j];
          }
        }
      } else {
        assert r == t;
        forall i | 0 <= i < |r|
          ensures exists j :: 0 <= j < |entries| && Shows(entries[j], r[i])
        {
          var j :| 0 <= j < |tl| && Shows(tl[j], t[i]);
          assert entries[j + 1] == tl[j];
        }
      }
    }
  }

  /** `e` is shown by one of the attributes `r`. */
  predicate Listed(e: (string, AttrValue), r: seq<(string, string)>) {
    exists i :: 0 <= i < |r| && Shows(e, r[i])
  }

  /** No emitted entry is lost: each one is shown among the visible
      attributes. */
  lemma {:induction false} EmittedVisible(entries: seq<(string, AttrValue)>)
    ensures forall j :: 0 <= j < |entries| && Emits(entries[j]) ==> Listed(entries[j], Visible(entries))
    decreases |entries|
  {
    if |entries| > 0 {
      var r, t, tl := Visible(entries), Visible(entries[1..]), entries[1..];
      EmittedVisible(tl);
      forall j | 0 <= j < |entries| && Emits(entries[j])
        ensures Listed(entries[j], r)
      {
        if j == 0 {
          assert r == [(DomName(entries[0].0), ValueText(entries[0].1))] + t;
          assert Shows(entries[0], r[0]);
        } else {
          assert tl[j - 1] == entries[j];
          assert Listed(tl[j - 1], t);
          var i :| 0 <= i < |t| && Shows(tl[j - 1], t[i]);
          if Emits(entries[0]) {
            assert r == [(DomName(entries[0].0), ValueText(entries[0].1))] + t;
            assert r[i + 1] == t[i] && Shows(entries[j], r[i + 1]);
          } else {
            assert r == t && Shows(entries[j], r[i]);
          }
        }
      }
    }
  }

  /** Splits `s` at the first `c`: the text before it and the text after. */
  function TakeUntil(s: string, c: char): (r: Option<(string, string)>)
    ensures r.Some? ==> |r.value.1| < |s|
    decreases |s|
  {
    if |s| == 0 then None
    else if s[0] == c then Some(([], s[1..]))
    else match TakeUntil(s[1..], c)
      case None => None
      case Some(p) => Some(([s[0]] + p.0, p.1))
  }

  /** Without `c` in it, `s` does not split. */
  lemma {:induction false} TakeUntilAbsent(s: string, c: char)
    requires c !in s
    ensures TakeUntil(s, c) == None
    decreases |s|
  {
    if |s| > 0 {
      assert s[0] != c;
      assert c !in s[1..];
      TakeUntilAbsent(s[1..], c);
    }
  }

  /** `s` splits at its first `c`. */
  lemma {:induction false} TakeUntilSplit(a: string, c: char, b: string)
    requires c !in a
    ensures TakeUntil(a + [c] + b, c) == Some((a, b))
    decreases |a|
  {
    var s := a + [c] + b;
    if |a| == 0 {
      assert s[0] == c && s[1..] == b;
    } else {
      assert s[0] == a[0] && s[1..] == a[1..] + [c] + b;
      TakeUntilSplit(a[1..], c, b);
      assert [a[0]] + a[1..] == a;
    }
  }

  /** Reads an opening tag's attribute text back into (name, value) pairs:
      each attribute is a blank, a name up to `=`, and a value between
      double quotes, whose entities are decoded. */
  function ParseAttrs(s: string): Option<seq<(string, string)>>
    decreases |s|
  {
    if |s| == 0 then Some([])
    else if s[0] != ' ' then None
    else match TakeUntil(s[1..], '=')
      case None => None
      case Some(p) =>
        if |p.1| == 0 || p.1[0] != '"' then None
        else match TakeUntil(p.1[1..], '"')
          case None => None
          case Some(q) =>
            match ParseAttrs(q.1)
            case None => None
            case Some(rest) => Some([(p.0, Unescape(q.0))] + rest)
  }

  /** One attribute's text ` n="v"` reads back as the pair (n, decoded v),
      followed by whatever the rest of the text reads as. */
  lemma ParseAttrText(n: string, v: string, rest: string)
    requires '=' !in n && '"' !in v
    ensures ParseAttrs(" " + n + "=\"" + v + "\"" + rest) ==
      match ParseAttrs(rest)
      case None => None
      case Some(tail) => Some([(n, Unescape(v))] + tail)
  {
    var s := " " + n + "=\"" + v + "\"" + rest;
    var afterEq := "\"" + v + "\"" + rest;
    assert s[0] == ' ';
    assert s[1..] == n + ['='] + afterEq;
    TakeUntilSplit(n, '=', afterEq);
    assert afterEq[1..] == v + ['"'] + rest;
    TakeUntilSplit(v, '"', rest);
  }

  lemma ParseOneAttr(e: (string, AttrValue), rest: string)
    requires '=' !in e.0 && Emits(e)
    ensures ParseAttrs(SerializeAttr(e) + rest) ==
      match ParseAttrs(rest)
      case None => None
      case Some(tail) => Some([(DomName(e.0), ValueText(e.1))] + tail)
  {
    var n := DomName(e.0);
    var v := Esc(ValueText(e.1));
    EscInert(ValueText(e.1));
    EscRoundTrip(ValueText(e.1));
    assert '=' !in n;
    ParseAttrText(n, v, rest);
  }

  /** Reading the opening tag's attribute text back gives exactly the
      visible attributes: renamed names, the original value texts, in the
      order given, with suppressed entries and the reserved key absent. */
  lemma {:induction false} AttrsRoundTrip(entries: seq<(string, AttrValue)>)
    requires NamesReadable(entries)
    ensures ParseAttrs(SerializeAttrs(entries)) == Some(Visible(entries))
    decreases |entries|
  {
    if |entries| > 0 {
      NamesTail(entries);
      AttrsRoundTrip(entries[1..]);
      if Emits(entries[0]) {
        ParseOneAttr(entries[0], SerializeAttrs(entries[1..]));
      } else {
        assert SerializeAttrs(entries) == SerializeAttrs(entries[1..]);
      }
    }
  }

  /** Serialization keeps the caller's order: the attributes of `a + b`
      are those of `a` followed by those of `b`. */
  lemma {:induction false} SerializeAttrsConcat(a: seq<(string, AttrValue)>, b: seq<(string, AttrValue)>)
    ensures SerializeAttrs(a + b) == SerializeAttrs(a) + SerializeAttrs(b)
    decreases |a|
  {
    if |a| == 0 {
      assert a + b == b;
    } else {
      ConsAttrs(a, b);
      SerializeAttrsConcat(a[1..], b);
      AppendAssoc(SerializeAttr(a[0]), SerializeAttrs(a[1..]), SerializeAttrs(b));
    }
  }

  lemma ConsAttrs(a: seq<(string, AttrValue)>, b: seq<(string, AttrValue)>)
    requires |a| > 0
    ensures SerializeAttrs(a + b) == SerializeAttr(a[0]) + SerializeAttrs(a[1..] + b)
  {
    var ab := a + b;
    assert ab[0] == a[0];
    assert ab[1..] == a[1..] + b;
  }

  lemma AppendAssoc(x: string, y: string, z: string)
    ensures x + (y + z) == (x + y) + z
  {
  }

  /** A suppressed entry (`false`, `null`, `undefined`, or the reserved key)
      leaves the opening tag exactly as if it were not there. */
  lemma SuppressedEntryInvisible(a: seq<(string, AttrValue)>, e: (string, AttrValue), b: seq<(string, AttrValue)>)
    requires !Emits(e)
    ensures SerializeAttrs(a + [e] + b) == SerializeAttrs(a + b)
  {
    assert SerializeAttrs([e]) == SerializeAttr(e) + SerializeAttrs([]) == "";
    calc {
      SerializeAttrs(a + [e] + b);
      { SerializeAttrsConcat(a + [e], b); }
      SerializeAttrs(a + [e]) + SerializeAttrs(b);
      { SerializeAttrsConcat(a, [e]); }
      SerializeAttrs(a) + SerializeAttrs(b);
      { SerializeAttrsConcat(a, b); }
      SerializeAttrs(a + b);
    }
  }
}
