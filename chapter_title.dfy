/**
  The chapter title taken in `_process_chapters`: the capture group of the
  first match of `^#\s+(.+)$` (multi-line mode) in the chapter's Markdown,
  or `Chapter <idx>` when nothing matches. `^` and `$` hold at line breaks,
  `\s` is the `isspace` class and so also matches line breaks, and `.`
  matches anything but a line break.
*/
module ChapterTitle {
  import opened Wrappers
  import opened PyText

  /** `^` in multi-line mode: the start of the text or just after a line break. */
  predicate LineStart(c: string, p: nat) {
    p <= |c| && (p == 0 || c[p - 1] == '\n')
  }

  /** Where the line holding position `q` ends: the next line break at or after `q`, or the end of the text. */
  function LineEnd(c: string, q: nat): (e: nat)
    requires q <= |c|
    ensures q <= e <= |c| && (e == |c| || c[e] == '\n')
    ensures forall i :: q <= i < e ==> c[i] != '\n'
    decreases |c| - q
  {
    if q == |c| || c[q] == '\n' then q else LineEnd(c, q + 1)
  }

  /**
    The pattern matches at `p` with its group starting at `q`: `#` at a line
    start, then `\s+` over `c[p+1..q]`, then `.+` from `q`, which needs one
    character other than a line break; `$` then holds at the end of that line.
  */
  predicate CapturesAt(c: string, p: nat, q: nat) {
    LineStart(c, p) && p < |c| && c[p] == '#' && p + 1 < q < |c| && SpacesBetween(c, p + 1, q) && c[q] != '\n'
  }

  /** `c[lo..hi]` is all white space. */
  predicate SpacesBetween(c: string, lo: nat, hi: nat) {
    hi <= |c| && forall i :: lo <= i < hi ==> IsSpace(c[i])
  }

  /** The largest position in `lo..hi` that does not hold a line break. */
  function LastNonBreak(c: string, lo: nat, hi: int): (r: Option<nat>)
    requires hi < |c|
    ensures r.Some? ==> lo <= r.value <= hi && c[r.value] != '\n'
    ensures r.Some? ==> forall q :: r.value < q <= hi ==> c[q] == '\n'
    ensures r.None? ==> forall q :: lo <= q <= hi ==> c[q] == '\n'
    decreases if hi < lo then 0 else hi - lo + 1
  {
    if hi < lo then None
    else if c[hi] != '\n' then Some(hi)
    else LastNonBreak(c, lo, hi - 1)
  }

  /** With `c[lo..m]` the longest white-space run from `lo`, the runs `\s+` can take are exactly those ending by `m`. */
  lemma SpaceRun(c: string, lo: nat, m: nat)
    requires lo <= m <= |c| && SpacesBetween(c, lo, m) && (m == |c| || !IsSpace(c[m]))
    ensures forall q: nat :: lo <= q <= |c| ==> (SpacesBetween(c, lo, q) <==> q <= m)
  {
  }

  /**
    The group start for a match at `p`: greedy `\s+` first takes the whole
    white-space run and gives characters back until `.+` can start, so the
    largest possible start is chosen.
  */
  function CaptureAt(c: string, p: nat): (r: Option<nat>)
    ensures r.Some? ==> CapturesAt(c, p, r.value)
    ensures r.Some? ==> forall q: nat :: CapturesAt(c, p, q) ==> q <= r.value
    ensures r.None? ==> forall q: nat :: !CapturesAt(c, p, q)
  {
    if LineStart(c, p) && p + 1 < |c| && c[p] == '#' then
      var n := LeadingSpaces(c[p + 1..]);
      var m := p + 1 + n;
      assert SpacesBetween(c, p + 1, m) by {
        forall i | p + 1 <= i < m ensures IsSpace(c[i]) {
          assert c[i] == c[p + 1..][..n][i - p - 1];
        }
      }
      assert m < |c| ==> c[m] == c[p + 1..][n];
      SpaceRun(c, p + 1, m);
      var hi := if m < |c| then m else |c| - 1;
      LastNonBreak(c, p + 2, hi)
    else None
  }

  /** The leftmost match at or after `from`, as the match start and the group start. */
  function MatchFrom(c: string, from: nat): (r: Option<(nat, nat)>)
    ensures r.Some? ==> from <= r.value.0 && CapturesAt(c, r.value.0, r.value.1)
    ensures r.Some? ==> forall q: nat :: CapturesAt(c, r.value.0, q) ==> q <= r.value.1
    ensures r.Some? ==> forall p: nat, q: nat :: from <= p < r.value.0 ==> !CapturesAt(c, p, q)
    ensures r.None? ==> forall p: nat, q: nat :: from <= p ==> !CapturesAt(c, p, q)
    decreases |c| - from
  {
    if from >= |c| then None
    else
      match CaptureAt(c, from)
      case Some(q) => Some((from, q))
      case None => MatchFrom(c, from + 1)
  }

  /**
    `re.search(r'^#\s+(.+)$', content, re.MULTILINE).group(1)`: the rest of
    the line from the group start of the leftmost match, the group starting as
    late as the white-space run allows; `None` when nothing matches.
  */
  function FindTitle(c: string): (r: Option<string>)
    ensures r.None? <==> forall p: nat, q: nat :: !CapturesAt(c, p, q)
    ensures r.Some? ==> exists p: nat, q: nat :: (CapturesAt(c, p, q) && r.value == c[q..LineEnd(c, q)]
                                                 && (forall p': nat, q': nat :: CapturesAt(c, p', q') ==> p <= p')
                                                 && (forall q': nat :: CapturesAt(c, p, q') ==> q' <= q))
    ensures r.Some? ==> r.value != [] && '\n' !in r.value
  {
    match MatchFrom(c, 0)
    case None => None
    case Some((p, q)) =>
      var e := LineEnd(c, q);
      assert forall i :: 0 <= i < e - q ==> c[q..e][i] == c[q + i];
      Some(c[q..e])
  }

  /** The title `_process_chapters` records: the heading text, or `Chapter <idx>` without one. */
  function ChapterTitleOf(text: string, idx: nat): (r: string)
    ensures r != [] && '\n' !in r
    ensures FindTitle(text).Some? ==> r == FindTitle(text).value
    ensures FindTitle(text).None? ==> r == "Chapter " + Decimal(idx)
  {
    match FindTitle(text)
    case Some(t) => t
    case None =>
      DecimalRoundTrip(idx);
      "Chapter " + Decimal(idx)
  }

  /** No line of `s` starts with `#`. */
  predicate NoHashLineStart(s: string) {
    forall i :: 0 <= i < |s| && LineStart(s, i) ==> s[i] != '#'
  }

  /**
    A level-one heading gives its text as the title when no earlier line starts
    with `#`: `#`, a run of white space (which may cross line breaks), then a
    title that starts with something other than white space and ends the line.
  */
  lemma HeadingTitle(pre: string, ws: string, t: string, rest: string)
    requires pre == [] || pre[|pre| - 1] == '\n'
    requires NoHashLineStart(pre)
    requires ws != [] && AllSpace(ws)
    requires t != [] && '\n' !in t && !IsSpace(t[0])
    requires rest == [] || rest[0] == '\n'
    ensures FindTitle(pre + "#" + ws + t + rest) == Some(t)
  {
    var c := pre + "#" + ws + t + rest;
    var p := |pre|;
    var q := p + 1 + |ws|;
    var e := q + |t|;
    assert c[p] == '#' && c[q] == t[0];
    assert c[q..e] == t;
    forall i | p + 1 <= i < q ensures IsSpace(c[i]) {
      assert c[i] == ws[i - p - 1];
    }
    forall i | q <= i < e ensures c[i] != '\n' {
      assert c[i] == t[i - q];
      assert t[i - q] in t;
    }
    forall i | 0 <= i < p && LineStart(c, i) ensures c[i] != '#' {
      assert c[i] == pre[i];
      assert i > 0 ==> c[i - 1] == pre[i - 1];
      assert LineStart(pre, i);
    }
    assert p > 0 ==> c[p - 1] == pre[p - 1];
    assert e < |c| ==> c[e] == rest[0];
    HeadingAt(c, p, q, e);
  }

  /**
    The same, stated on positions: `#` at the line start `p`, white space up to
    `q`, and the title `c[q..e]` up to the end of its line, with no earlier line
    starting with `#`.
  */
  lemma HeadingAt(c: string, p: nat, q: nat, e: nat)
    requires p + 1 < q < e <= |c|
    requires LineStart(c, p) && c[p] == '#' && SpacesBetween(c, p + 1, q) && !IsSpace(c[q])
    requires forall i :: q <= i < e ==> c[i] != '\n'
    requires e == |c| || c[e] == '\n'
    requires forall i :: 0 <= i < p && LineStart(c, i) ==> c[i] != '#'
    ensures FindTitle(c) == Some(c[q..e])
  {
    assert CapturesAt(c, p, q);
    forall q': nat ensures CapturesAt(c, p, q') ==> q' <= q {
      if q' > q {
        assert !SpacesBetween(c, p + 1, q') by {
          assert !IsSpace(c[q]);
        }
      }
    }
    forall p': nat, q': nat ensures CapturesAt(c, p', q') ==> p <= p' {
      if p' < p {
        assert !(LineStart(c, p') && c[p'] == '#');
      }
    }
    LineEndAt(c, q, e);
  }

  /** The line end is the first line break, so any `e` with no break before it and one at it is the line end. */
  lemma {:induction false} LineEndAt(c: string, q: nat, e: nat)
    requires q <= e <= |c| && (e == |c| || c[e] == '\n')
    requires forall i :: q <= i < e ==> c[i] != '\n'
    ensures LineEnd(c, q) == e
    decreases e - q
  {
    if q < e {
      LineEndAt(c, q + 1, e);
    }
  }

  /** A line starting `##` is a level-two heading: the pattern does not match there. */
  lemma DoubleHashNoMatch(c: string, p: nat)
    requires p + 1 < |c| && c[p] == '#' && c[p + 1] == '#'
    ensures forall q: nat :: !CapturesAt(c, p, q)
  {
    forall q: nat ensures !CapturesAt(c, p, q) {
      if p + 1 < q < |c| {
        assert c[p + 1..q][0] == '#';
      }
    }
  }

  /** Text with no `#` at all gets the fallback title. */
  lemma NoHeadingFallback(text: string, idx: nat)
    requires '#' !in text
    ensures ChapterTitleOf(text, idx) == "Chapter " + Decimal(idx)
  {
    forall p: nat, q: nat ensures !CapturesAt(text, p, q) {
      if p < |text| {
        assert text[p] in text;
      }
    }
  }

  /**
    `\s` also matches line breaks: a line holding only `#` (and white space)
    takes the next line that does not start with white space as the title.
  */
  lemma LoneHashTakesNextLine(pre: string, sp: string, blank: string, t: string, rest: string)
    requires pre == [] || pre[|pre| - 1] == '\n'
    requires NoHashLineStart(pre)
    requires AllSpace(sp) && AllSpace(blank)
    requires t != [] && '\n' !in t && !IsSpace(t[0])
    requires rest == [] || rest[0] == '\n'
    ensures FindTitle(pre + "#" + sp + "\n" + blank + t + rest) == Some(t)
  {
    var ws := sp + "\n" + blank;
    SpaceRunWithBreak(sp, blank);
    HeadingTitle(pre, ws, t, rest);
    Regroup(pre, "#", sp, "\n", blank, t, rest);
  }

  lemma SpaceRunWithBreak(sp: string, blank: string)
    requires AllSpace(sp) && AllSpace(blank)
    ensures var ws := sp + "\n" + blank; ws != [] && AllSpace(ws)
  {
    var ws := sp + "\n" + blank;
    forall i | 0 <= i < |ws| ensures IsSpace(ws[i]) {
      if i < |sp| {
        assert ws[i] == sp[i];
      } else if i == |sp| {
        assert ws[i] == '\n';
      } else {
        assert ws[i] == blank[i - |sp| - 1];
      }
    }
  }

  lemma Regroup<T>(a: seq<T>, b: seq<T>, c: seq<T>, d: seq<T>, e: seq<T>, f: seq<T>, g: seq<T>)
    ensures a + b + c + d + e + f + g == a + b + (c + d + e) + f + g
  {
  }
}
