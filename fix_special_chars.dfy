/**
  `fix_special_chars`: the clean-up run over a Markdown text before it is
  handed to the PDF tool. Ten fixed substring replacements, applied one after
  another in the order the `replacements` dictionary lists them, turn
  typographic characters into plain ASCII.
*/
module SpecialChars {
  import opened PyText

  /** The `replacements` dictionary, in its listed order (a `dict` keeps insertion order). */
  const Replacements: seq<(string, string)> := [
    ("\U{201C}", "\""),   // left double quotation mark
    ("\U{201D}", "\""),   // right double quotation mark
    ("\U{2018}", "'"),    // left single quotation mark
    ("\U{2019}", "'"),    // right single quotation mark
    ("\U{2014}", "--"),   // em dash
    ("\U{2013}", "-"),    // en dash
    ("\U{2026}", "..."),  // ellipsis
    ("\U{A0}", " "),      // no-break space
    ("\U{2022}", "*"),    // bullet
    ("\\n", " ")          // a backslash followed by the letter n (not a line break)
  ]

  /** The nine entries whose keys are single characters, as a character table. */
  const CharTable: seq<(char, string)> := [
    ('\U{201C}', "\""), ('\U{201D}', "\""), ('\U{2018}', "'"), ('\U{2019}', "'"),
    ('\U{2014}', "--"), ('\U{2013}', "-"), ('\U{2026}', "..."), ('\U{A0}', " "), ('\U{2022}', "*")
  ]

  const LiteralNewline: string := "\\n"

  /** `fix_special_chars(content)`: `content = content.replace(old, new)` for each entry in turn. */
  method FixSpecialChars(content: string) returns (fixed: string)
    ensures fixed == ApplyAll(Replacements, content)
    ensures fixed == Clean(content)
  {
    fixed := content;
    for i := 0 to |Replacements|
      invariant fixed == ApplyAll(Replacements[..i], content)
    {
      assert Replacements[..i + 1][..i] == Replacements[..i];
      fixed := Replace(fixed, Replacements[i].0, Replacements[i].1);
    }
    assert Replacements[..|Replacements|] == Replacements;
    SequentialIsSinglePass(content);
  }

  /**
    The same rewriting as one left-to-right pass: a backslash followed by `n`
    becomes a space, each of the nine characters becomes its ASCII text, and
    every other character is kept.
  */
  function Clean(s: string): string
    decreases |s|
  {
    if s == [] then []
    else if LiteralNewline <= s then " " + Clean(s[2..])
    else Subst(CharTable, s[0]) + Clean(s[1..])
  }

  predicate IsKeyChar(c: char) {
    IsKey(CharTable, c)
  }

  /** None of the ten keys occurs in `t`. */
  predicate HasNoKeys(t: string) {
    forall k :: 0 <= k < |Replacements| ==> !Occurs(t, Replacements[k].0)
  }

  /** The replacement texts are plain ASCII and none of them contains a key character, a backslash or an `n`. */
  predicate PlainText(t: string) {
    t != [] && forall i :: 0 <= i < |t| ==> t[i] as int < 128 && t[i] != '\\' && t[i] != 'n'
  }

  lemma CharTableFacts()
    ensures SequentiallySafe(CharTable)
    ensures Lift(CharTable) == Replacements[..9]
    ensures forall k :: 0 <= k < |CharTable| ==> PlainText(CharTable[k].1) && CharTable[k].0 as int >= 128
  {
  }

  /** What the nine-entry table gives for one character. */
  lemma {:induction false} SubstFacts(x: char)
    ensures !IsKeyChar(x) ==> Subst(CharTable, x) == [x]
    ensures IsKeyChar(x) ==> PlainText(Subst(CharTable, x)) && x as int >= 128
  {
    CharTableFacts();
    if IsKeyChar(x) {
      var k :| 0 <= k < |CharTable| && CharTable[k].0 == x;
      SubstKey(CharTable, k);
    } else {
      SubstNotKey(CharTable, x);
    }
  }

  /** No key character is ASCII, so plain text holds none of them. */
  lemma PlainHasNoKeyChar(t: string)
    requires PlainText(t)
    ensures forall i :: 0 <= i < |t| ==> !IsKeyChar(t[i])
  {
    CharTableFacts();
  }

  lemma {:induction false} NewlineStep(s: string)
    ensures Replace(Translit(s, CharTable), LiteralNewline, " ") == Clean(s)
    decreases |s|
  {
    var t := Translit(s, CharTable);
    if s == [] {
    } else if LiteralNewline <= s {
      SubstFacts('\\');
      SubstFacts('n');
      assert s[0] == '\\' && s[1] == 'n';
      assert s[1..][0] == 'n' && s[1..][1..] == s[2..];
      assert Translit(s[1..], CharTable) == "n" + Translit(s[2..], CharTable);
      assert t == "\\" + ("n" + Translit(s[2..], CharTable));
      assert t[..2] == LiteralNewline && t[2..] == Translit(s[2..], CharTable);
      NewlineStep(s[2..]);
    } else {
      var x := s[0];
      var piece := Subst(CharTable, x);
      var r := Translit(s[1..], CharTable);
      SubstFacts(x);
      NewlineStep(s[1..]);
      if x != '\\' {
        assert '\\' !in piece;
        ReplaceSkipsPrefix(piece, r, LiteralNewline, " ");
      } else {
        assert piece == "\\";
        if r == [] {
          assert t == "\\";
        } else {
          var y := s[1];
          assert s[1..] == [y] + s[2..];
          SubstFacts(y);
          assert y != 'n';
          assert r == Subst(CharTable, y) + Translit(s[2..], CharTable);
          assert r[0] != 'n';
          assert t[..2] != LiteralNewline;
          assert t[1..] == r;
        }
      }
    }
  }

  /** The ten replacements applied in order are the single pass `Clean`. */
  lemma SequentialIsSinglePass(s: string)
    ensures ApplyAll(Replacements, s) == Clean(s)
  {
    CharTableFacts();
    assert Replacements[..|Replacements| - 1] == Replacements[..9];
    ApplyAllIsTranslit(CharTable, s);
    NewlineStep(s);
  }

  lemma {:induction false} CleanStartsWithN(s: string)
    requires Clean(s) != [] && Clean(s)[0] == 'n'
    ensures s != [] && s[0] == 'n'
  {
    if !(LiteralNewline <= s) {
      SubstFacts(s[0]);
    }
  }

  lemma {:induction false} CleanHasNoKeyChar(s: string)
    ensures forall i :: 0 <= i < |Clean(s)| ==> !IsKeyChar(Clean(s)[i])
    decreases |s|
  {
    if s != [] {
      var n := if LiteralNewline <= s then 2 else 1;
      var piece := if n == 2 then " " else Subst(CharTable, s[0]);
      CleanHasNoKeyChar(s[n..]);
      SubstFacts(s[0]);
      if IsKeyChar(s[0]) || n == 2 {
        PlainHasNoKeyChar(piece);
      }
      var c := Clean(s);
      assert c == piece + Clean(s[n..]);
      forall i | 0 <= i < |c| ensures !IsKeyChar(c[i]) {
        if i >= |piece| {
          assert c[i] == Clean(s[n..])[i - |piece|];
        } else {
          assert c[i] == piece[i];
        }
      }
    }
  }

  lemma {:induction false} OccursPair(t: string, a: char, b: char)
    ensures Occurs(t, [a, b]) <==> exists i :: 0 <= i < |t| - 1 && t[i] == a && t[i + 1] == b
    decreases |t|
  {
    if |t| >= 2 {
      OccursPair(t[1..], a, b);
      var u := t[1..];
      var p := exists i :: 0 <= i < |t| - 1 && t[i] == a && t[i + 1] == b;
      var q := exists i :: 0 <= i < |u| - 1 && u[i] == a && u[i + 1] == b;
      assert q ==> p by {
        if q {
          var i :| 0 <= i < |u| - 1 && u[i] == a && u[i + 1] == b;
          assert t[i + 1] == a && t[i + 2] == b;
        }
      }
      assert p ==> t[..2] == [a, b] || q by {
        if p {
          var i :| 0 <= i < |t| - 1 && t[i] == a && t[i + 1] == b;
          if i > 0 {
            assert u[i - 1] == a && u[i] == b;
          } else {
            assert t[..2] == [a, b];
          }
        }
      }
      assert t[..2] == [a, b] ==> p by {
        if t[..2] == [a, b] {
          assert t[0] == a && t[1] == b;
        }
      }
    }
  }

  lemma {:induction false} CleanHasNoLiteralNewline(s: string)
    ensures !Occurs(Clean(s), LiteralNewline)
    decreases |s|
  {
    var c := Clean(s);
    OccursPair(c, '\\', 'n');
    if s != [] {
      var n := if LiteralNewline <= s then 2 else 1;
      var piece := if n == 2 then " " else Subst(CharTable, s[0]);
      var rest := Clean(s[n..]);
      CleanHasNoLiteralNewline(s[n..]);
      OccursPair(rest, '\\', 'n');
      SubstFacts(s[0]);
      assert c == piece + rest;
      forall i | 0 <= i < |c| - 1 ensures !(c[i] == '\\' && c[i + 1] == 'n') {
        if i >= |piece| {
          assert c[i] == rest[i - |piece|] && c[i + 1] == rest[i + 1 - |piece|];
        } else if i + 1 < |piece| {
          assert c[i] == piece[i] && c[i + 1] == piece[i + 1];
        } else if c[i] == '\\' && c[i + 1] == 'n' {
          assert piece == "\\" && n == 1 && s[0] == '\\';
          assert rest[0] == 'n';
          CleanStartsWithN(s[1..]);
          assert false;
        }
      }
    }
  }

  /** The result contains none of the ten replaced sequences. */
  lemma CleanHasNoKeys(s: string)
    ensures HasNoKeys(Clean(s))
  {
    var c := Clean(s);
    CleanHasNoKeyChar(s);
    CleanHasNoLiteralNewline(s);
    CharTableFacts();
    forall k | 0 <= k < 9 ensures !Occurs(c, Replacements[k].0) {
      assert Replacements[k].0 == [CharTable[k].0];
      OccursChar(c, CharTable[k].0);
      assert IsKeyChar(CharTable[k].0);
    }
  }

  /** A text that contains none of the keys is returned unchanged. */
  lemma {:induction false} CleanIdentity(t: string)
    requires HasNoKeys(t)
    ensures Clean(t) == t
    decreases |t|
  {
    if t != [] {
      assert !Occurs(t, LiteralNewline) by { assert Replacements[9].0 == LiteralNewline; }
      assert !(LiteralNewline <= t);
      CharTableFacts();
      assert !IsKeyChar(t[0]) by {
        forall k | 0 <= k < 9 ensures CharTable[k].0 != t[0] {
          assert Replacements[k].0 == [CharTable[k].0];
          OccursChar(t, CharTable[k].0);
        }
      }
      SubstFacts(t[0]);
      assert HasNoKeys(t[1..]) by {
        forall k | 0 <= k < |Replacements| ensures !Occurs(t[1..], Replacements[k].0) {
          assert !Occurs(t, Replacements[k].0);
        }
      }
      CleanIdentity(t[1..]);
      assert t == [t[0]] + t[1..];
    }
  }

  /** Running the clean-up twice gives the same text as running it once. */
  lemma Idempotent(s: string)
    ensures Clean(Clean(s)) == Clean(s)
    ensures ApplyAll(Replacements, ApplyAll(Replacements, s)) == ApplyAll(Replacements, s)
  {
    CleanHasNoKeys(s);
    CleanIdentity(Clean(s));
    SequentialIsSinglePass(s);
    SequentialIsSinglePass(Clean(s));
  }

  /**
    `Clean` with the character table as a parameter. It is the same function
    (`CleanIsCleanBy`); the concatenation proof is done on this form so that
    the verifier does not unfold the nine-entry table at every step.
  */
  function CleanBy(s: string, table: seq<(char, string)>): string
    decreases |s|
  {
    if s == [] then []
    else if LiteralNewline <= s then " " + CleanBy(s[2..], table)
    else Subst(table, s[0]) + CleanBy(s[1..], table)
  }

  lemma {:induction false} CleanIsCleanBy(s: string)
    ensures Clean(s) == CleanBy(s, CharTable)
    decreases |s|
  {
    if s != [] {
      if LiteralNewline <= s {
        CleanIsCleanBy(s[2..]);
      } else {
        CleanIsCleanBy(s[1..]);
      }
    }
  }

  /** Cleaning splits over a concatenation unless the cut falls inside a backslash-n. */
  lemma CleanConcat(a: string, b: string)
    requires !(a != [] && a[|a| - 1] == '\\' && b != [] && b[0] == 'n')
    ensures Clean(a + b) == Clean(a) + Clean(b)
  {
    CleanByConcat(a, b, CharTable);
    CleanIsCleanBy(a + b);
    CleanIsCleanBy(a);
    CleanIsCleanBy(b);
  }

  lemma {:induction false} CleanByConcat(a: string, b: string, table: seq<(char, string)>)
    requires !(a != [] && a[|a| - 1] == '\\' && b != [] && b[0] == 'n')
    ensures CleanBy(a + b, table) == CleanBy(a, table) + CleanBy(b, table)
    decreases |a|
  {
    var ab := a + b;
    if a == [] {
      assert ab == b;
    } else if LiteralNewline <= a {
      assert LiteralNewline <= ab;
      assert ab[2..] == a[2..] + b;
      assert a[2..] != [] ==> a[2..][|a[2..]| - 1] == a[|a| - 1];
      CleanByConcat(a[2..], b, table);
    } else {
      NoNewlineAtJoin(a, b);
      assert ab[0] == a[0] && ab[1..] == a[1..] + b;
      assert a[1..] != [] ==> a[1..][|a[1..]| - 1] == a[|a| - 1];
      CleanByConcat(a[1..], b, table);
    }
  }

  lemma NoNewlineAtJoin(a: string, b: string)
    requires a != [] && !(LiteralNewline <= a)
    requires !(a[|a| - 1] == '\\' && b != [] && b[0] == 'n')
    ensures !(LiteralNewline <= a + b)
  {
    var ab := a + b;
    assert LiteralNewline == ['\\', 'n'];
    if |a| >= 2 {
      assert ab[..2] == a[..2];
      assert a[..2] != LiteralNewline;
    } else if b != [] {
      assert ab[0] == a[0] == a[|a| - 1] && ab[1] == b[0];
      if a[0] != '\\' {
        assert ab[0] != LiteralNewline[0];
      } else {
        assert ab[1] != LiteralNewline[1];
      }
    } else {
      assert |ab| < 2;
    }
  }

  /**
    Each key becomes its fixed ASCII text wherever it stands, and the text
    around it is cleaned independently: the em dash becomes `--`, the ellipsis
    `...`, a backslash-n one space.
  */
  lemma EachKeyBecomesItsText(a: string, b: string, k: nat)
    requires k < |Replacements|
    ensures Clean(a + Replacements[k].0 + b) == Clean(a) + Replacements[k].1 + Clean(b)
  {
    var key := Replacements[k].0;
    CleanOfKey(k);
    CleanConcat(a + key, b);
    CleanConcat(a, key);
  }

  /** A key on its own cleans to its text; it neither starts with `n` nor ends with a backslash. */
  lemma CleanOfKey(k: nat)
    requires k < |Replacements|
    ensures var key := Replacements[k].0; key != [] && key[0] != 'n' && key[|key| - 1] != '\\'
    ensures Clean(Replacements[k].0) == Replacements[k].1
  {
    var key := Replacements[k].0;
    CharTableFacts();
    if k < 9 {
      assert key == [CharTable[k].0];
      SubstKey(CharTable, k);
      assert Clean(key) == CharTable[k].1 + Clean([]);
    } else {
      assert Clean(key) == " " + Clean([]);
    }
  }

  /** Any other character, except a backslash or an `n`, is kept where it stands. */
  lemma OtherCharsKept(a: string, b: string, x: char)
    requires !IsKeyChar(x) && x != '\\' && x != 'n'
    ensures Clean(a + [x] + b) == Clean(a) + [x] + Clean(b)
  {
    CleanConcat(a + [x], b);
    CleanConcat(a, [x]);
    SubstFacts(x);
    assert Clean([x]) == [x] + Clean([]);
  }
}
