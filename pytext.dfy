/**
  The operations on Python `str` values that the converter and the clean-up
  script rely on: `isspace` (which is also the regular-expression class `\s`),
  `in`, `replace`, `strip`, `''.join`, `int()` of a digit string and the
  decimal formats `f"{n}"` and `f"{n:02d}"`. A `str` is a `seq<char>` of code
  points.
*/
module PyText {

  /** `c.isspace()`; the class `\s` of a `str` pattern matches the same characters. */
  predicate IsSpace(c: char) {
    ('\t' <= c <= '\r') || ('\U{1C}' <= c <= '\U{1F}') || c == ' ' || c == '\U{85}' || c == '\U{A0}'
    || c == '\U{1680}' || ('\U{2000}' <= c <= '\U{200A}') || c == '\U{2028}' || c == '\U{2029}'
    || c == '\U{202F}' || c == '\U{205F}' || c == '\U{3000}'
  }

  /** An ASCII decimal digit. */
  predicate IsDigit(c: char) {
    '0' <= c <= '9'
  }

  predicate AllSpace(s: string) {
    forall i :: 0 <= i < |s| ==> IsSpace(s[i])
  }

  predicate AllDigits(s: string) {
    forall i :: 0 <= i < |s| ==> IsDigit(s[i])
  }

  /** `sub in s`: `sub` occurs in `s` as a contiguous piece. */
  predicate Occurs(s: string, sub: string)
    decreases |s|
  {
    |sub| <= |s| && (s[..|sub|] == sub || (s != [] && Occurs(s[1..], sub)))
  }

  lemma {:induction false} OccursChar(s: string, c: char)
    ensures Occurs(s, [c]) <==> c in s
    decreases |s|
  {
    if s != [] {
      OccursChar(s[1..], c);
      assert s == [s[0]] + s[1..];
    }
  }

  // ---------------------------------------------------------------- replace

  /**
    `s.replace(pat, repl)` for a non-empty `pat`: scanning from the left, each
    non-overlapping occurrence of `pat` is replaced; the replacement text is
    not scanned again.
  */
  function Replace(s: string, pat: string, repl: string): string
    requires pat != []
    decreases |s|
  {
    if |s| < |pat| then s
    else if s[..|pat|] == pat then repl + Replace(s[|pat|..], pat, repl)
    else [s[0]] + Replace(s[1..], pat, repl)
  }

  /** Replacing a pattern that does not occur changes nothing. */
  lemma {:induction false} ReplaceAbsent(s: string, pat: string, repl: string)
    requires pat != []
    requires !Occurs(s, pat)
    ensures Replace(s, pat, repl) == s
    decreases |s|
  {
    if |s| >= |pat| {
      ReplaceAbsent(s[1..], pat, repl);
      assert s == [s[0]] + s[1..];
    }
  }

  /** Replacing one character distributes over concatenation. */
  lemma {:induction false} ReplaceCharConcat(a: string, b: string, c: char, repl: string)
    ensures Replace(a + b, [c], repl) == Replace(a, [c], repl) + Replace(b, [c], repl)
    decreases |a|
  {
    if a != [] {
      ReplaceCharConcat(a[1..], b, c, repl);
      assert (a + b)[1..] == a[1..] + b;
      assert (a + b)[..1] == a[..1];
    } else {
      assert a + b == b;
    }
  }

  /**
    A prefix that holds no copy of the pattern's first character is passed
    through unchanged, whatever follows it.
  */
  lemma {:induction false} ReplaceSkipsPrefix(a: string, b: string, pat: string, repl: string)
    requires pat != [] && pat[0] !in a
    ensures Replace(a + b, pat, repl) == a + Replace(b, pat, repl)
    decreases |a|
  {
    if a == [] {
      assert a + b == b;
    } else if |a + b| < |pat| {
      assert |b| < |pat|;
    } else {
      var ab := a + b;
      assert a == [a[0]] + a[1..];
      assert ab[0] == a[0] != pat[0];
      assert ab[..|pat|][0] == ab[0];
      assert ab[1..] == a[1..] + b;
      ReplaceSkipsPrefix(a[1..], b, pat, repl);
      assert Replace(ab, pat, repl) == [a[0]] + Replace(a[1..] + b, pat, repl);
    }
  }

  // ------------------------------------------- tables of replacements

  /** The replacements of `pairs` applied one after another, each over the whole string. */
  function ApplyAll(pairs: seq<(string, string)>, s: string): string
    requires forall i :: 0 <= i < |pairs| ==> pairs[i].0 != []
  {
    if pairs == [] then s
    else Replace(ApplyAll(pairs[..|pairs| - 1], s), pairs[|pairs| - 1].0, pairs[|pairs| - 1].1)
  }

  /** A table whose keys are single characters, written as (string, string) pairs. */
  function Lift(table: seq<(char, string)>): seq<(string, string)> {
    seq(|table|, i requires 0 <= i < |table| => ([table[i].0], table[i].1))
  }

  /** The text the table gives for `x`, or `x` itself when `x` is not a key. */
  function Subst(table: seq<(char, string)>, x: char): string {
    if table == [] then [x]
    else if table[|table| - 1].0 == x then table[|table| - 1].1
    else Subst(table[..|table| - 1], x)
  }

  predicate IsKey(table: seq<(char, string)>, x: char) {
    exists i :: 0 <= i < |table| && table[i].0 == x
  }

  /** A single left-to-right pass that rewrites every character through the table. */
  function Translit(s: string, table: seq<(char, string)>): string
    decreases |s|
  {
    if s == [] then [] else Subst(table, s[0]) + Translit(s[1..], table)
  }

  /**
    The keys are distinct and no key appears in the text of an EARLIER entry,
    so a later replacement never rewrites what an earlier one produced.
  */
  predicate SequentiallySafe(table: seq<(char, string)>) {
    forall i, j :: 0 <= i < j < |table| ==> table[i].0 != table[j].0 && table[j].0 !in table[i].1
  }

  lemma {:induction false} SubstNotKey(table: seq<(char, string)>, x: char)
    requires !IsKey(table, x)
    ensures Subst(table, x) == [x]
  {
    if table != [] {
      var n := |table| - 1;
      assert table[n].0 != x;
      assert !IsKey(table[..n], x) by {
        forall i | 0 <= i < n ensures table[..n][i].0 != x {
          assert table[..n][i] == table[i];
        }
      }
      SubstNotKey(table[..n], x);
    }
  }

  lemma {:induction false} SubstKey(table: seq<(char, string)>, k: nat)
    requires k < |table| && SequentiallySafe(table)
    ensures Subst(table, table[k].0) == table[k].1
  {
    var n := |table| - 1;
    if k < n {
      assert table[..n][k] == table[k];
      assert SequentiallySafe(table[..n]) by {
        forall i, j | 0 <= i < j < n
          ensures table[..n][i].0 != table[..n][j].0 && table[..n][j].0 !in table[..n][i].1
        {
          assert table[..n][i] == table[i] && table[..n][j] == table[j];
        }
      }
      SubstKey(table[..n], k);
    }
  }

  /** The table's text for a non-key is the character itself; for a key, it is that key's entry. */
  lemma {:induction false} SubstAvoids(table: seq<(char, string)>, x: char, y: char)
    requires x != y
    requires forall i :: 0 <= i < |table| ==> y !in table[i].1
    ensures y !in Subst(table, x)
  {
    if table != [] {
      var n := |table| - 1;
      if table[n].0 != x {
        forall i | 0 <= i < n ensures y !in table[..n][i].1 {
          assert table[..n][i] == table[i];
        }
        SubstAvoids(table[..n], x, y);
      }
    }
  }

  lemma {:induction false} TranslitConcat(a: string, b: string, table: seq<(char, string)>)
    ensures Translit(a + b, table) == Translit(a, table) + Translit(b, table)
    decreases |a|
  {
    if a == [] {
      assert a + b == b;
    } else {
      assert (a + b)[0] == a[0] && (a + b)[1..] == a[1..] + b;
      TranslitConcat(a[1..], b, table);
    }
  }

  /** A string none of whose characters is a key passes through unchanged. */
  lemma {:induction false} TranslitIdentity(s: string, table: seq<(char, string)>)
    requires forall i :: 0 <= i < |s| ==> !IsKey(table, s[i])
    ensures Translit(s, table) == s
    decreases |s|
  {
    if s != [] {
      SubstNotKey(table, s[0]);
      TranslitIdentity(s[1..], table);
      assert s == [s[0]] + s[1..];
    }
  }

  /** The replace of one more key turns the table's pass into the longer table's pass. */
  lemma {:induction false} TranslitStep(s: string, table: seq<(char, string)>, e: (char, string))
    requires !IsKey(table, e.0)
    requires forall i :: 0 <= i < |table| ==> e.0 !in table[i].1
    ensures Replace(Translit(s, table), [e.0], e.1) == Translit(s, table + [e])
    decreases |s|
  {
    if s != [] {
      var x := s[0];
      ReplaceCharConcat(Subst(table, x), Translit(s[1..], table), e.0, e.1);
      TranslitStep(s[1..], table, e);
      assert (table + [e])[..|table|] == table;
      if x == e.0 {
        SubstNotKey(table, x);
        assert Replace([x], [e.0], e.1) == e.1 + Replace([], [e.0], e.1);
      } else {
        SubstAvoids(table, x, e.0);
        OccursChar(Subst(table, x), e.0);
        ReplaceAbsent(Subst(table, x), [e.0], e.1);
      }
    }
  }

  /**
    Applying the single-character replacements of a sequentially safe table
    one after another is the same as one pass that rewrites each character.
  */
  lemma {:induction false} ApplyAllIsTranslit(table: seq<(char, string)>, s: string)
    requires SequentiallySafe(table)
    ensures ApplyAll(Lift(table), s) == Translit(s, table)
  {
    if table == [] {
      TranslitIdentity(s, table);
    } else {
      var n := |table| - 1;
      var prefix := table[..n];
      assert Lift(table)[..n] == Lift(prefix);
      assert SequentiallySafe(prefix) by {
        forall i, j | 0 <= i < j < n
          ensures prefix[i].0 != prefix[j].0 && prefix[j].0 !in prefix[i].1
        {
          assert prefix[i] == table[i] && prefix[j] == table[j];
        }
      }
      ApplyAllIsTranslit(prefix, s);
      assert !IsKey(prefix, table[n].0) by {
        forall i | 0 <= i < n ensures prefix[i].0 != table[n].0 {
          assert prefix[i] == table[i];
        }
      }
      forall i | 0 <= i < n ensures table[n].0 !in prefix[i].1 {
        assert prefix[i] == table[i];
      }
      TranslitStep(s, prefix, table[n]);
      assert prefix + [table[n]] == table;
    }
  }

  // ------------------------------------------------------------------ strip

  /** The number of white-space characters at the start of `s`. */
  function LeadingSpaces(s: string): (n: nat)
    ensures n <= |s| && AllSpace(s[..n]) && (n == |s| || !IsSpace(s[n]))
    decreases |s|
  {
    if s != [] && IsSpace(s[0]) then
      var k := LeadingSpaces(s[1..]);
      assert s[..k + 1] == [s[0]] + s[1..][..k];
      k + 1
    else 0
  }

  /** The number of white-space characters at the end of `s`. */
  function TrailingSpaces(s: string): (n: nat)
    ensures n <= |s| && AllSpace(s[|s| - n..]) && (n == |s| || !IsSpace(s[|s| - n - 1]))
    decreases |s|
  {
    if s != [] && IsSpace(s[|s| - 1]) then
      var k := TrailingSpaces(s[..|s| - 1]);
      assert s[|s| - (k + 1)..] == s[..|s| - 1][|s| - 1 - k..] + [s[|s| - 1]];
      k + 1
    else 0
  }

  /**
    `s.strip()`: `s` with the white space at both ends removed; the result is a
    contiguous piece of `s`, only white space is cut, and it neither starts nor
    ends with white space.
  */
  function Strip(s: string): (r: string)
    ensures exists i, j :: 0 <= i <= j <= |s| && AllSpace(s[..i]) && r == s[i..j] && AllSpace(s[j..])
    ensures r == [] || (!IsSpace(r[0]) && !IsSpace(r[|r| - 1]))
  {
    var i := LeadingSpaces(s);
    var k := TrailingSpaces(s[i..]);
    var j := |s| - k;
    assert s[i..][|s[i..]| - k..] == s[j..];
    s[i..j]
  }

  // ------------------------------------------------------------------ concat

  /** `''.join(parts)` */
  function Concat(parts: seq<string>): string {
    if parts == [] then [] else Concat(parts[..|parts| - 1]) + parts[|parts| - 1]
  }

  // ------------------------------------------------------------------ numbers

  function DigitChar(d: nat): char
    requires d < 10
  {
    "0123456789"[d]
  }

  function DigitValue(c: char): nat
    requires IsDigit(c)
  {
    c as int - '0' as int
  }

  /** `int(s)` for a string of ASCII digits (leading zeros allowed). */
  function DigitsValue(s: string): nat
    requires AllDigits(s)
  {
    if s == [] then 0 else DigitsValue(s[..|s| - 1]) * 10 + DigitValue(s[|s| - 1])
  }

  /** `f"{n}"` (also `str(n)`): the decimal digits of `n`, without leading zeros. */
  function Decimal(n: nat): string
    decreases n
  {
    if n < 10 then [DigitChar(n)] else Decimal(n / 10) + [DigitChar(n % 10)]
  }

  /** `f"{n:02d}"`: the decimal digits of `n`, padded with zeros to at least two. */
  function Pad2(n: nat): string {
    if n < 10 then "0" + Decimal(n) else Decimal(n)
  }

  /** `int(str(n)) == n`: the decimal digits of `n` are digits, and read back as `n`. */
  lemma {:induction false} DecimalRoundTrip(n: nat)
    ensures |Decimal(n)| >= 1 && AllDigits(Decimal(n)) && DigitsValue(Decimal(n)) == n
    ensures n > 0 ==> Decimal(n)[0] != '0'
    decreases n
  {
    if n >= 10 {
      DecimalRoundTrip(n / 10);
      var d := Decimal(n);
      assert d[..|d| - 1] == Decimal(n / 10);
    }
  }

  /**
    `int(f"{n:02d}") == n`; the padded form has at least two digits, and a
    leading zero only when it is exactly two digits long.
  */
  lemma {:induction false} Pad2RoundTrip(n: nat)
    ensures |Pad2(n)| >= 2 && AllDigits(Pad2(n)) && DigitsValue(Pad2(n)) == n
    ensures |Pad2(n)| == 2 || Pad2(n)[0] != '0'
  {
    DecimalRoundTrip(n);
    if n < 10 {
      var p := Pad2(n);
      assert p == ['0', DigitChar(n)];
      assert p[..1] == "0";
    } else {
      DecimalRoundTrip(n / 10);
    }
  }

  /** Distinct numbers have distinct padded forms. */
  lemma Pad2Injective(m: nat, n: nat)
    requires Pad2(m) == Pad2(n)
    ensures m == n
  {
    Pad2RoundTrip(m);
    Pad2RoundTrip(n);
  }

  /** `re.match(r'\d+', s)`: the length of the longest run of digits at the start of `s`. */
  function DigitRun(s: string): (n: nat)
    ensures n <= |s| && AllDigits(s[..n]) && (n == |s| || !IsDigit(s[n]))
    decreases |s|
  {
    if s != [] && IsDigit(s[0]) then
      var k := DigitRun(s[1..]);
      assert s[..k + 1] == [s[0]] + s[1..][..k];
      k + 1
    else 0
  }
}
