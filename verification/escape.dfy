/** HTML escaping of attribute values and text children.

    The five characters `&`, `<`, `>`, `"` and `'` are replaced by the named
    entities `&amp;`, `&lt;`, `&gt;`, `&quot;` and `&apos;`; every other
    character is kept. The same escape serves text children, which then
    also get their quote characters escaped. */
module Escape {

  /** A character the escape rewrites. */
  predicate IsSpecial(c: char) {
    c == '&' || c == '<' || c == '>' || c == '"' || c == '\''
  }

  /** No character of `s` can open or close a tag or close a quoted
      attribute value. */
  predicate Inert(s: string) {
    '<' !in s && '>' !in s && '"' !in s && '\'' !in s
  }

  /** No character of `s` is one the escape rewrites. */
  predicate Plain(s: string) {
    forall c :: c in s ==> !IsSpecial(c)
  }

  function EscapeChar(c: char): (r: string)
    ensures IsSpecial(c) ==> |r| > 1 && r[0] == '&'
    ensures !IsSpecial(c) ==> r == [c]
    ensures Inert(r)
  {
    match c
    case '&' => "&amp;"
    case '<' => "&lt;"
    case '>' => "&gt;"
    case '"' => "&quot;"
    case '\'' => "&apos;"
    case _ => [c]
  }

  /** The escaped form of `s`, never shorter than `s`. */
  function Esc(s: string): (r: string)
    ensures |r| >= |s|
    decreases |s|
  {
    if |s| == 0 then ""
    else EscapeChar(s[0]) + Esc(s[1..])
  }

  /** Escaped text is free of characters that could be read as markup. */
  lemma {:induction false} EscInert(s: string)
    ensures Inert(Esc(s))
    decreases |s|
  {
    if |s| > 0 {
      EscInert(s[1..]);
      var e := EscapeChar(s[0]);
      assert Esc(s) == e + Esc(s[1..]);
      assert Inert(e);
    }
  }

  /** Decodes the five named entities the escape produces; any other
      character, including a `&` that opens no known entity, is kept. */
  function Unescape(s: string): string
    decreases |s|
  {
    if |s| == 0 then ""
    else if s[0] != '&' then [s[0]] + Unescape(s[1..])
    else if |s| >= 5 && s[..5] == "&amp;" then "&" + Unescape(s[5..])
    else if |s| >= 4 && s[..4] == "&lt;" then "<" + Unescape(s[4..])
    else if |s| >= 4 && s[..4] == "&gt;" then ">" + Unescape(s[4..])
    else if |s| >= 6 && s[..6] == "&quot;" then "\"" + Unescape(s[6..])
    else if |s| >= 6 && s[..6] == "&apos;" then "'" + Unescape(s[6..])
    else [s[0]] + Unescape(s[1..])
  }

  lemma UnescapeChar(c: char, rest: string)
    ensures Unescape(EscapeChar(c) + rest) == [c] + Unescape(rest)
  {
    var s := EscapeChar(c) + rest;
    var e := EscapeChar(c);
    assert s[..|e|] == e;
    assert s[|e|..] == rest;
    if c == '&' {
    } else if c == '<' {
      assert s[1] == 'l';
      if |s| >= 5 { assert s[..5][1] == s[1]; }
    } else if c == '>' {
      assert s[1] == 'g';
      if |s| >= 5 { assert s[..5][1] == s[1]; }
      if |s| >= 4 { assert s[..4][1] == s[1]; }
    } else if c == '"' {
      assert s[1] == 'q';
      if |s| >= 5 { assert s[..5][1] == s[1]; }
      if |s| >= 4 { assert s[..4][1] == s[1]; }
    } else if c == '\'' {
      assert s[1] == 'a' && s[2] == 'p';
      if |s| >= 5 { assert s[..5][2] == s[2]; }
      if |s| >= 4 { assert s[..4][1] == s[1]; }
      if |s| >= 6 { assert s[..6][1] == s[1]; }
    } else {
      assert s[0] == c && s[1..] == rest;
    }
  }

  /** Unescaping undoes escaping: the escaped value carries exactly the
      original text. */
  lemma {:induction false} EscRoundTrip(s: string)
    ensures Unescape(Esc(s)) == s
    decreases |s|
  {
    if |s| > 0 {
      UnescapeChar(s[0], Esc(s[1..]));
      EscRoundTrip(s[1..]);
      assert [s[0]] + s[1..] == s;
    }
  }

  /** Two different texts never escape to the same string. */
  lemma EscInjective(a: string, b: string)
    ensures Esc(a) == Esc(b) ==> a == b
  {
    EscRoundTrip(a);
    EscRoundTrip(b);
  }

  /** Escaping works character by character: it distributes over
      concatenation. */
  lemma {:induction false} EscConcat(a: string, b: string)
    ensures Esc(a + b) == Esc(a) + Esc(b)
    decreases |a|
  {
    if |a| > 0 {
      EscCons(a, b);
      EscConcat(a[1..], b);
      var x, y, z := EscapeChar(a[0]), Esc(a[1..]), Esc(b);
      assert x + (y + z) == (x + y) + z;
    } else {
      assert a + b == b;
    }
  }

  lemma EscCons(a: string, b: string)
    requires |a| > 0
    ensures Esc(a + b) == EscapeChar(a[0]) + Esc(a[1..] + b)
  {
    assert (a + b)[0] == a[0];
    assert (a + b)[1..] == a[1..] + b;
  }

  /** Escaping leaves a string unchanged exactly when it holds none of the
      five special characters. */
  lemma {:induction false} EscIdentity(s: string)
    ensures Esc(s) == s <==> Plain(s)
    decreases |s|
  {
    if |s| > 0 {
      EscIdentity(s[1..]);
      assert s == [s[0]] + s[1..];
      if IsSpecial(s[0]) {
        assert s[0] in s && !Plain(s);
        assert |Esc(s)| > |s|;
      } else {
        assert Plain(s) <==> Plain(s[1..]) by {
          forall c ensures c in s <==> c == s[0] || c in s[1..] {
          }
        }
        assert Esc(s) == [s[0]] + Esc(s[1..]);
        if Esc(s[1..]) == s[1..] {
          assert [s[0]] + s[1..] == s;
        } else {
          assert Esc(s)[1..] == Esc(s[1..]);
        }
      }
    }
  }

  /** A string whose characters are all ordinary escapes to itself. */
  lemma EscPlain(s: string)
    requires Plain(s)
    ensures Esc(s) == s
  {
    EscIdentity(s);
  }
}
