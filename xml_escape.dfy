/**
  `MarkdownToEpub._escape_xml`: the escaping applied to every book title,
  author, publisher and chapter title before it is placed in generated markup.
  It produces the five predefined entities of XML 1.0 (section 4.6).
*/
module XmlEscape {
  import opened Wrappers
  import opened PyText

  /** The five replacements, in the order `_escape_xml` chains them: `&` first. */
  const Entities: seq<(char, string)> :=
    [('&', "&amp;"), ('<', "&lt;"), ('>', "&gt;"), ('"', "&quot;"), ('\'', "&apos;")]

  /** A character that must not appear raw in escaped text. */
  predicate IsMarkup(c: char) {
    c == '&' || c == '<' || c == '>' || c == '"' || c == '\''
  }

  /** `_escape_xml(text)`: five chained `str.replace` calls. */
  function EscapeXml(text: string): string {
    Replace(Replace(Replace(Replace(Replace(text, "&", "&amp;"), "<", "&lt;"), ">", "&gt;"), "\"", "&quot;"), "'", "&apos;")
  }

  /** Decodes escaped text: each entity gives back its character; a raw `<`, `>`, `"`, `'` or a stray `&` is rejected. */
  function Unescape(t: string): Option<string>
    decreases |t|
  {
    if t == [] then Some([])
    else if t[0] == '&' then
      if "&amp;" <= t then Cons('&', Unescape(t[5..]))
      else if "&lt;" <= t then Cons('<', Unescape(t[4..]))
      else if "&gt;" <= t then Cons('>', Unescape(t[4..]))
      else if "&quot;" <= t then Cons('"', Unescape(t[6..]))
      else if "&apos;" <= t then Cons('\'', Unescape(t[6..]))
      else None
    else if IsMarkup(t[0]) then None
    else Cons(t[0], Unescape(t[1..]))
  }

  function Cons(c: char, rest: Option<string>): Option<string> {
    match rest
    case None => None
    case Some(s) => Some([c] + s)
  }

  /** No raw `<`, `>`, `"` or `'` anywhere in `t`. */
  predicate NoRawMarkup(t: string) {
    forall i :: 0 <= i < |t| ==> t[i] != '<' && t[i] != '>' && t[i] != '"' && t[i] != '\''
  }

  predicate BeginsEntity(u: string) {
    exists k :: 0 <= k < |Entities| && Entities[k].1 <= u
  }

  /** Every `&` in `t` is the start of one of the five entities. */
  predicate AmpersandsBeginEntities(t: string) {
    forall i :: 0 <= i < |t| && t[i] == '&' ==> BeginsEntity(t[i..])
  }

  lemma EntitiesSafe()
    ensures SequentiallySafe(Entities)
  {
  }

  /** The chained replaces are one pass that rewrites each of the five characters to its entity. */
  lemma EscapeIsSinglePass(text: string)
    ensures EscapeXml(text) == Translit(text, Entities)
  {
    var p := Lift(Entities);
    assert p == [("&", "&amp;"), ("<", "&lt;"), (">", "&gt;"), ("\"", "&quot;"), ("'", "&apos;")];
    var t1 := ApplyAll(p[..1], text);
    assert t1 == Replace(text, "&", "&amp;") by {
      assert p[..1][..0] == [] && p[..1][0] == p[0];
      assert ApplyAll(p[..1][..0], text) == text;
    }
    var t2 := ApplyAll(p[..2], text);
    assert t2 == Replace(t1, "<", "&lt;") by { assert p[..2][..1] == p[..1]; }
    var t3 := ApplyAll(p[..3], text);
    assert t3 == Replace(t2, ">", "&gt;") by { assert p[..3][..2] == p[..2]; }
    var t4 := ApplyAll(p[..4], text);
    assert t4 == Replace(t3, "\"", "&quot;") by { assert p[..4][..3] == p[..3]; }
    assert ApplyAll(p, text) == Replace(t4, "'", "&apos;") by { assert p[..4] == p[..|p| - 1]; }
    EntitiesSafe();
    ApplyAllIsTranslit(Entities, text);
  }

  lemma EntityOf(x: char)
    ensures x == '&' ==> Subst(Entities, x) == "&amp;"
    ensures x == '<' ==> Subst(Entities, x) == "&lt;"
    ensures x == '>' ==> Subst(Entities, x) == "&gt;"
    ensures x == '"' ==> Subst(Entities, x) == "&quot;"
    ensures x == '\'' ==> Subst(Entities, x) == "&apos;"
    ensures !IsMarkup(x) ==> Subst(Entities, x) == [x]
  {
    EntitiesSafe();
    if x == '&' { SubstKey(Entities, 0); }
    else if x == '<' { SubstKey(Entities, 1); }
    else if x == '>' { SubstKey(Entities, 2); }
    else if x == '"' { SubstKey(Entities, 3); }
    else if x == '\'' { SubstKey(Entities, 4); }
    else { SubstNotKey(Entities, x); }
  }

  lemma {:induction false} UnescapeTranslit(s: string)
    ensures Unescape(Translit(s, Entities)) == Some(s)
    decreases |s|
  {
    if s != [] {
      var x := s[0];
      var rest := Translit(s[1..], Entities);
      UnescapeTranslit(s[1..]);
      EntityOf(x);
      var e := Subst(Entities, x);
      var t := e + rest;
      assert t[|e|..] == rest;
      assert e <= t;
      assert t[..|e|] == e;
      assert |e| >= 4 ==> t[1] == e[1] && t[2] == e[2];
      if x == '&' {
        assert Unescape(t) == Cons('&', Unescape(t[5..]));
      } else if x == '<' {
        assert !("&amp;" <= t);
        assert Unescape(t) == Cons('<', Unescape(t[4..]));
      } else if x == '>' {
        assert !("&amp;" <= t) && !("&lt;" <= t);
        assert Unescape(t) == Cons('>', Unescape(t[4..]));
      } else if x == '"' {
        assert !("&amp;" <= t) && !("&lt;" <= t) && !("&gt;" <= t);
        assert Unescape(t) == Cons('"', Unescape(t[6..]));
      } else if x == '\'' {
        assert !("&amp;" <= t) && !("&lt;" <= t) && !("&gt;" <= t) && !("&quot;" <= t);
        assert Unescape(t) == Cons('\'', Unescape(t[6..]));
      } else {
        assert t[0] == x;
        assert Unescape(t) == Cons(x, Unescape(t[1..]));
      }
      assert s == [x] + s[1..];
    }
  }

  /** Round trip: decoding the escaped text gives back the original text. */
  lemma EscapeRoundTrip(text: string)
    ensures Unescape(EscapeXml(text)) == Some(text)
  {
    EscapeIsSinglePass(text);
    UnescapeTranslit(text);
  }

  lemma {:induction false} DecodableIsWellFormed(t: string)
    requires Unescape(t).Some?
    ensures NoRawMarkup(t) && AmpersandsBeginEntities(t)
    decreases |t|
  {
    if t != [] {
      var n := if t[0] != '&' then 1
               else if "&amp;" <= t then 5
               else if "&lt;" <= t || "&gt;" <= t then 4
               else 6;
      DecodableIsWellFormed(t[n..]);
      var head := t[..n];
      assert t == head + t[n..];
      forall i | 0 <= i < |t|
        ensures t[i] != '<' && t[i] != '>' && t[i] != '"' && t[i] != '\''
        ensures t[i] == '&' ==> BeginsEntity(t[i..])
      {
        if i >= n {
          assert t[i] == t[n..][i - n];
          assert t[i..] == t[n..][i - n..];
        } else if i == 0 {
          if t[0] == '&' {
            if "&amp;" <= t { assert Entities[0].1 <= t[0..]; }
            else if "&lt;" <= t { assert Entities[1].1 <= t[0..]; }
            else if "&gt;" <= t { assert Entities[2].1 <= t[0..]; }
            else if "&quot;" <= t { assert Entities[3].1 <= t[0..]; }
            else { assert Entities[4].1 <= t[0..]; }
          }
        } else {
          assert t[i] == head[i];
        }
      }
    }
  }

  /** Escaped text holds no raw `<`, `>`, `"` or `'`, and every `&` in it begins an entity. */
  lemma EscapedIsWellFormed(text: string)
    ensures NoRawMarkup(EscapeXml(text)) && AmpersandsBeginEntities(EscapeXml(text))
  {
    EscapeRoundTrip(text);
    DecodableIsWellFormed(EscapeXml(text));
  }

  lemma {:induction false} TranslitGrows(s: string)
    ensures |Translit(s, Entities)| >= |s|
    ensures (exists i :: 0 <= i < |s| && IsMarkup(s[i])) ==> |Translit(s, Entities)| > |s|
    decreases |s|
  {
    if s != [] {
      EntityOf(s[0]);
      TranslitGrows(s[1..]);
      if exists i :: 0 <= i < |s| && IsMarkup(s[i]) {
        var i :| 0 <= i < |s| && IsMarkup(s[i]);
        if i > 0 {
          assert s[1..][i - 1] == s[i];
        }
      }
    }
  }

  /** Text is returned unchanged exactly when it holds none of the five characters. */
  lemma EscapeUnchangedIff(text: string)
    ensures EscapeXml(text) == text <==> forall i :: 0 <= i < |text| ==> !IsMarkup(text[i])
  {
    EscapeIsSinglePass(text);
    TranslitGrows(text);
    if forall i :: 0 <= i < |text| ==> !IsMarkup(text[i]) {
      assert forall k :: 0 <= k < |Entities| ==> IsMarkup(Entities[k].0);
      TranslitIdentity(text, Entities);
    }
  }
}
