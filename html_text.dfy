/** HTML escaping as Python's `html.escape(s, quote=True)` does it, its inverse on the five
    entity references it produces, and string joining. */
module HtmlText {

  /** Text that can neither open or close a tag nor end a quoted attribute value. */
  predicate Inert(s: string) {
    forall i | 0 <= i < |s| :: s[i] != '<' && s[i] != '>' && s[i] != '"' && s[i] != '\''
  }

  /** The replacement for one character. */
  function EscapeChar(c: char): string {
    if c == '&' then "&amp;"
    else if c == '<' then "&lt;"
    else if c == '>' then "&gt;"
    else if c == '"' then "&quot;"
    else if c == '\'' then "&#x27;"
    else [c]
  }

  lemma EscapeCharInert(c: char)
    ensures Inert(EscapeChar(c)) && EscapeChar(c) != ""
  {
    var e := EscapeChar(c);
    if c == '&' {
      assert e == ['&', 'a', 'm', 'p', ';'];
    } else if c == '<' {
      assert e == ['&', 'l', 't', ';'];
    } else if c == '>' {
      assert e == ['&', 'g', 't', ';'];
    } else if c == '"' {
      assert e == ['&', 'q', 'u', 'o', 't', ';'];
    } else if c == '\'' {
      assert e == ['&', '#', 'x', '2', '7', ';'];
    }
  }

  /** `html.escape(s, quote=True)`: `&`, `<`, `>`, `"` and `'` become `&amp;`, `&lt;`, `&gt;`,
      `&quot;` and `&#x27;`; every other character is kept. The result can never break out of
      element content or of a double-quoted attribute value, and is empty only for empty input. */
  function Escape(s: string): (r: string)
    ensures Inert(r)
    ensures r == "" <==> s == ""
    decreases |s|
  {
    if s == "" then ""
    else
      EscapeCharInert(s[0]);
      EscapeChar(s[0]) + Escape(s[1..])
  }

  /** Text with none of the five characters `Escape` rewrites. */
  predicate Plain(s: string) {
    forall i | 0 <= i < |s| ::
      s[i] != '&' && s[i] != '<' && s[i] != '>' && s[i] != '"' && s[i] != '\''
  }

  /** Escaping leaves plain text as it is. */
  lemma {:induction false} EscapePlain(s: string)
    requires Plain(s)
    ensures Escape(s) == s
    decreases |s|
  {
    if s != "" {
      EscapePlain(s[1..]);
      assert [s[0]] + s[1..] == s;
    }
  }

  /** Decodes the five entity references `Escape` produces; any other character is kept. */
  function Unescape(s: string): string
    decreases |s|
  {
    if s == "" then ""
    else if "&amp;" <= s then "&" + Unescape(s[5..])
    else if "&lt;" <= s then "<" + Unescape(s[4..])
    else if "&gt;" <= s then ">" + Unescape(s[4..])
    else if "&quot;" <= s then "\"" + Unescape(s[6..])
    else if "&#x27;" <= s then "'" + Unescape(s[6..])
    else [s[0]] + Unescape(s[1..])
  }

  /** Decoding undoes the replacement of one character, whatever text follows it. */
  lemma UnescapeStep(c: char, rest: string)
    ensures Unescape(EscapeChar(c) + rest) == [c] + Unescape(rest)
  {
    var e := EscapeChar(c);
    var t := e + rest;
    assert t[|e|..] == rest;
    if c == '&' {
      assert "&amp;" <= t;
    } else if c == '<' {
      assert t[1] == 'l';
      assert "&lt;" <= t;
    } else if c == '>' {
      assert t[1] == 'g';
      assert "&gt;" <= t;
    } else if c == '"' {
      assert t[1] == 'q';
      assert "&quot;" <= t;
    } else if c == '\'' {
      assert t[1] == '#';
      assert "&#x27;" <= t;
    } else {
      assert e == [c];
      assert t[0] == c;
    }
  }

  /** Escaping loses nothing: decoding the escaped text gives the text back. */
  lemma {:induction false} UnescapeEscape(s: string)
    ensures Unescape(Escape(s)) == s
    decreases |s|
  {
    if s != "" {
      UnescapeEscape(s[1..]);
      UnescapeStep(s[0], Escape(s[1..]));
      assert [s[0]] + s[1..] == s;
    }
  }

  /** Each string escaped in turn. */
  function EscapeEach(xs: seq<string>): (r: seq<string>)
    ensures |r| == |xs|
    ensures forall i | 0 <= i < |xs| :: r[i] == Escape(xs[i])
    decreases |xs|
  {
    if xs == [] then [] else [Escape(xs[0])] + EscapeEach(xs[1..])
  }

  /** Each string decoded in turn. */
  function UnescapeEach(xs: seq<string>): seq<string>
    decreases |xs|
  {
    if xs == [] then [] else [Unescape(xs[0])] + UnescapeEach(xs[1..])
  }

  lemma {:induction false} UnescapeEscapeEach(xs: seq<string>)
    ensures UnescapeEach(EscapeEach(xs)) == xs
    decreases |xs|
  {
    if xs != [] {
      UnescapeEscape(xs[0]);
      UnescapeEscapeEach(xs[1..]);
      assert EscapeEach(xs)[1..] == EscapeEach(xs[1..]);
    }
  }

  /** `''.join(parts)`. */
  function Concat(parts: seq<string>): string
    decreases |parts|
  {
    if parts == [] then "" else parts[0] + Concat(parts[1..])
  }

  lemma {:induction false} ConcatAppend(a: seq<string>, b: seq<string>)
    ensures Concat(a + b) == Concat(a) + Concat(b)
    decreases |a|
  {
    if a != [] {
      assert (a + b)[0] == a[0];
      assert (a + b)[1..] == a[1..] + b;
      ConcatAppend(a[1..], b);
      calc {
        Concat(a + b);
        a[0] + Concat(a[1..] + b);
        a[0] + (Concat(a[1..]) + Concat(b));
        Concat(a) + Concat(b);
      }
    } else {
      assert a + b == b;
    }
  }
}
