/** Escaping of labels in the statechart drawing (nivasa-cli/src/statechart.rs). */
module EscapeXml {
  import opened Results

  // `str::replace` of one character.
  function Replaced(s: string, c: char, to: string): string {
    if s == "" then "" else (if s[0] == c then to else [s[0]]) + Replaced(s[1..], c, to)
  }

  // `escape_xml`: five replacements, one after the other.
  function EscapeXml(input: string): string {
    Replaced(Replaced(Replaced(Replaced(Replaced(input, '&', "&amp;"), '<', "&lt;"), '>', "&gt;"), '"', "&quot;"),
        '\'', "&apos;")
  }

  // The predefined entities (section 4.6 of the XML 1.0 recommendation).
  function Entity(c: char): Option<string> {
    if c == '&' then Some("&amp;")
    else if c == '<' then Some("&lt;")
    else if c == '>' then Some("&gt;")
    else if c == '"' then Some("&quot;")
    else if c == '\'' then Some("&apos;")
    else None
  }

  function Escaped(c: char): string {
    if Entity(c).Some? then Entity(c).value else [c]
  }

  // Escaping each character on its own.
  function EachEscaped(s: string): string {
    if s == "" then "" else Escaped(s[0]) + EachEscaped(s[1..])
  }

  // The character a reference at the start of the text stands for.
  function Referenced(text: string): (r: Option<char>)
    ensures r.Some? ==> Entity(r.value).Some? && Entity(r.value).value <= text
  {
    if "&amp;" <= text then Some('&')
    else if "&lt;" <= text then Some('<')
    else if "&gt;" <= text then Some('>')
    else if "&quot;" <= text then Some('"')
    else if "&apos;" <= text then Some('\'')
    else None
  }

  // What an XML reader makes of character data; None if a markup character or a stray ampersand is left.
  function ReadText(text: string): Option<string>
    decreases |text|
  {
    if text == "" then Some("")
    else
      match Referenced(text)
      case Some(c) =>
        var rest := ReadText(text[|Escaped(c)|..]);
        if rest.Some? then Some([c] + rest.value) else None
      case None =>
        if Entity(text[0]).Some? then None
        else
          var rest := ReadText(text[1..]);
          if rest.Some? then Some([text[0]] + rest.value) else None
  }

  lemma {:induction false} ReplacedConcat(a: string, b: string, c: char, to: string)
    ensures Replaced(a + b, c, to) == Replaced(a, c, to) + Replaced(b, c, to)
  {
    if a == "" {
      assert a + b == b;
    } else {
      assert (a + b)[1..] == a[1..] + b;
      ReplacedConcat(a[1..], b, c, to);
    }
  }

  lemma {:induction false} ReplacedAbsent(s: string, c: char, to: string)
    requires c !in s
    ensures Replaced(s, c, to) == s
  {
    if s != "" {
      ReplacedAbsent(s[1..], c, to);
    }
  }

  lemma ReplacedOne(c: char, to: string)
    ensures Replaced([c], c, to) == to
  {
    assert [c][1..] == "";
    assert to + "" == to;
  }

  // No later replacement touches the text of an earlier one.
  lemma EscapesOne(c: char)
    ensures EscapeXml([c]) == Escaped(c)
  {
    hide Replaced;
    if c == '&' {
      ReplacedOne(c, "&amp;");
      Untouched("&amp;");
    } else if c == '<' {
      ReplacedAbsent([c], '&', "&amp;");
      ReplacedOne(c, "&lt;");
      Untouched("&lt;");
    } else if c == '>' {
      ReplacedAbsent([c], '&', "&amp;");
      ReplacedAbsent([c], '<', "&lt;");
      ReplacedOne(c, "&gt;");
      Untouched("&gt;");
    } else if c == '"' {
      ReplacedAbsent([c], '&', "&amp;");
      ReplacedAbsent([c], '<', "&lt;");
      ReplacedAbsent([c], '>', "&gt;");
      ReplacedOne(c, "&quot;");
      Untouched("&quot;");
    } else {
      ReplacedAbsent([c], '&', "&amp;");
      ReplacedAbsent([c], '<', "&lt;");
      ReplacedAbsent([c], '>', "&gt;");
      ReplacedAbsent([c], '"', "&quot;");
      if c == '\'' {
        ReplacedOne(c, "&apos;");
      } else {
        ReplacedAbsent([c], '\'', "&apos;");
      }
    }
  }

  lemma Untouched(s: string)
    requires '<' !in s && '>' !in s && '"' !in s && '\'' !in s
    ensures Replaced(s, '<', "&lt;") == s && Replaced(s, '>', "&gt;") == s
    ensures Replaced(s, '"', "&quot;") == s && Replaced(s, '\'', "&apos;") == s
  {
    ReplacedAbsent(s, '<', "&lt;");
    ReplacedAbsent(s, '>', "&gt;");
    ReplacedAbsent(s, '"', "&quot;");
    ReplacedAbsent(s, '\'', "&apos;");
  }

  lemma EscapesConcat(a: string, b: string)
    ensures EscapeXml(a + b) == EscapeXml(a) + EscapeXml(b)
  {
    hide Replaced;
    var a1, b1 := Replaced(a, '&', "&amp;"), Replaced(b, '&', "&amp;");
    var a2, b2 := Replaced(a1, '<', "&lt;"), Replaced(b1, '<', "&lt;");
    var a3, b3 := Replaced(a2, '>', "&gt;"), Replaced(b2, '>', "&gt;");
    ReplacedConcat(a, b, '&', "&amp;");
    ReplacedConcat(a1, b1, '<', "&lt;");
    ReplacedConcat(a2, b2, '>', "&gt;");
    ReplacedConcat(a3, b3, '"', "&quot;");
    ReplacedConcat(Replaced(a3, '"', "&quot;"), Replaced(b3, '"', "&quot;"), '\'', "&apos;");
  }

  // The five passes escape each character once: no escape is escaped again.
  lemma {:induction false} OnePass(s: string)
    ensures EscapeXml(s) == EachEscaped(s)
  {
    hide EscapeXml, Escaped;
    if s == "" {
      NothingEscaped();
    } else {
      assert s == [s[0]] + s[1..];
      EscapesConcat([s[0]], s[1..]);
      EscapesOne(s[0]);
      OnePass(s[1..]);
    }
  }

  lemma NothingEscaped()
    ensures EscapeXml("") == ""
  {
  }

  // Wherever it stands, one of the five characters becomes its entity and any other stays.
  lemma EscapedInPlace(a: string, c: char, b: string)
    ensures EscapeXml(a + [c] + b) ==
            EscapeXml(a)
            + (match c
               case '&' => "&amp;"
               case '<' => "&lt;"
               case '>' => "&gt;"
               case '"' => "&quot;"
               case '\'' => "&apos;"
               case _ => [c])
            + EscapeXml(b)
  {
    hide EscapeXml;
    EscapesConcat(a + [c], b);
    EscapesConcat(a, [c]);
    EscapesOne(c);
  }

  lemma ReferenceRead(c: char, rest: string)
    ensures Referenced(Escaped(c) + rest) == if Entity(c).Some? then Some(c) else None
    ensures Escaped(c) != "" && (Entity(c).None? ==> (Escaped(c) + rest)[0] == c)
  {
    var text := Escaped(c) + rest;
    assert text[0] == Escaped(c)[0];
    if Entity(c).Some? {
      assert text[1] == Escaped(c)[1] && text[2] == Escaped(c)[2];
      assert Escaped(c) <= text;
    }
  }

  // A reader of the drawing gets every label back, and meets no markup inside it.
  lemma {:induction false} XmlRoundTrip(s: string)
    ensures ReadText(EscapeXml(s)) == Some(s)
  {
    hide EscapeXml, Referenced, Entity;
    OnePass(s);
    if s != "" {
      OnePass(s[1..]);
      XmlRoundTrip(s[1..]);
      var rest := EscapeXml(s[1..]);
      var text := Escaped(s[0]) + rest;
      ReferenceRead(s[0], rest);
      assert text[|Escaped(s[0])|..] == rest;
      assert text == EscapeXml(s) && text != "";
      assert s == [s[0]] + s[1..];
    }
  }
}
