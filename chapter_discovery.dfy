/**
  Chapter discovery, shared by `_process_chapters` and `_consolidate_chapters`:
  the files of the input directory whose names match `chapter-*.md` (or, when
  there are none, `chap-*.md`), sorted by the number that follows the prefix.
*/
module ChapterDiscovery {
  import opened Wrappers
  import opened PyText

  /** A file of the input directory: its name and the text a text-mode read of it returns. */
  datatype SourceFile = SourceFile(name: string, text: string)

  datatype DiscoveryError =
    | NoChapterFiles              // the `ValueError` raised when both globs are empty
    | UnnumberedName(name: string) // the sort key's `re.search` found nothing: `None.group(1)` raises

  const Primary: string := "chapter-"
  const Fallback: string := "chap-"

  // ------------------------------------------------------------------ glob

  /** `Path.glob(prefix + "*.md")` on one directory: the prefix, then anything, then `.md`. */
  predicate MatchesGlob(name: string, prefix: string) {
    |prefix| + 3 <= |name| && name[..|prefix|] == prefix && name[|name| - 3..] == ".md"
  }

  /** The matching files, in directory-listing order. */
  function Glob(dir: seq<SourceFile>, prefix: string): (r: seq<SourceFile>)
    ensures forall f :: f in r <==> f in dir && MatchesGlob(f.name, prefix)
    ensures |r| <= |dir|
  {
    if dir == [] then []
    else
      var rest := Glob(dir[1..], prefix);
      assert forall f :: f in dir <==> f == dir[0] || f in dir[1..];
      (if MatchesGlob(dir[0].name, prefix) then [dir[0]] else []) + rest
  }

  /** Globbing keeps listing order: it splits over a concatenation of listings. */
  lemma {:induction false} GlobAppend(a: seq<SourceFile>, b: seq<SourceFile>, prefix: string)
    ensures Glob(a + b, prefix) == Glob(a, prefix) + Glob(b, prefix)
    decreases |a|
  {
    if a != [] {
      assert (a + b)[1..] == a[1..] + b;
      GlobAppend(a[1..], b, prefix);
    } else {
      assert a + b == b;
    }
  }

  /** The glob of a listing with one more file: the earlier matches, then that file if its name matches. */
  lemma GlobSnoc(dir: seq<SourceFile>, f: SourceFile, prefix: string)
    ensures Glob(dir + [f], prefix) == Glob(dir, prefix) + (if MatchesGlob(f.name, prefix) then [f] else [])
  {
    GlobAppend(dir, [f], prefix);
    assert Glob([f], prefix) == (if MatchesGlob(f.name, prefix) then [f] else []) + Glob([], prefix);
  }

  // ------------------------------------------------------------------ sort key

  /** `prefix` stands at `i` in `name` and an ASCII digit follows: a place where `prefix(\d+)` matches. */
  predicate NumberedAt(name: string, prefix: string, i: nat) {
    i + |prefix| < |name| && name[i..i + |prefix|] == prefix && IsDigit(name[i + |prefix|])
  }

  /** The leftmost place at or after `from` where `prefix(\d+)` matches. */
  function SearchFrom(name: string, prefix: string, from: nat): (r: Option<nat>)
    ensures r.Some? ==> from <= r.value && NumberedAt(name, prefix, r.value)
    ensures r.Some? ==> forall j :: from <= j < r.value ==> !NumberedAt(name, prefix, j)
    ensures r.None? ==> forall j :: from <= j ==> !NumberedAt(name, prefix, j)
    decreases |name| - from
  {
    if from + |prefix| >= |name| then None
    else if NumberedAt(name, prefix, from) then Some(from)
    else SearchFrom(name, prefix, from + 1)
  }

  /**
    `int(re.search(prefix + r'(\d+)', name).group(1))`: the greedy digit run
    after the leftmost match, read as a decimal number; `None` when the
    search finds nothing.
  */
  function NumberAfter(name: string, prefix: string): (r: Option<nat>)
    ensures r.None? <==> forall j :: !NumberedAt(name, prefix, j)
  {
    match SearchFrom(name, prefix, 0)
    case None => None
    case Some(i) =>
      var digits := name[i + |prefix|..];
      Some(DigitsValue(digits[..DigitRun(digits)]))
  }

  /** The sort key; only consulted for files that carry a number. */
  function Key(f: SourceFile, prefix: string): nat {
    match NumberAfter(f.name, prefix)
    case None => 0
    case Some(n) => n
  }

  /** The sort key as the function `sorted` is given. */
  function KeyOf(prefix: string): SourceFile -> nat {
    f => Key(f, prefix)
  }

  predicate Numbered(f: SourceFile, prefix: string) {
    NumberAfter(f.name, prefix).Some?
  }

  /**
    The name of the first file (in listing order) whose key cannot be computed:
    `sorted` computes every key before it compares any, so that file raises.
  */
  function FirstUnnumbered(files: seq<SourceFile>, prefix: string): (r: Option<string>)
    ensures r.None? <==> forall i :: 0 <= i < |files| ==> Numbered(files[i], prefix)
    ensures r.Some? ==> exists i :: (0 <= i < |files| && files[i].name == r.value && !Numbered(files[i], prefix)
                                     && forall j :: 0 <= j < i ==> Numbered(files[j], prefix))
  {
    if files == [] then None
    else if !Numbered(files[0], prefix) then Some(files[0].name)
    else
      var r := FirstUnnumbered(files[1..], prefix);
      assert forall i :: 1 <= i < |files| ==> files[i] == files[1..][i - 1];
      if r.Some? then
        var i :| 0 <= i < |files[1..]| && files[1..][i].name == r.value && !Numbered(files[1..][i], prefix)
          && forall j :: 0 <= j < i ==> Numbered(files[1..][j], prefix);
        assert files[i + 1] == files[1..][i];
        r
      else r
  }

  // ------------------------------------------------------------------ stable sort

  predicate SortedBy(s: seq<SourceFile>, key: SourceFile -> nat) {
    forall i, j :: 0 <= i < j < |s| ==> key(s[i]) <= key(s[j])
  }

  /** The files of `s` whose key is `k`, in their order in `s`. */
  function WithKey(s: seq<SourceFile>, key: SourceFile -> nat, k: nat): seq<SourceFile> {
    if s == [] then [] else (if key(s[0]) == k then [s[0]] else []) + WithKey(s[1..], key, k)
  }

  /** Puts `x` before the first element whose key is not smaller than its own. */
  function Insert(x: SourceFile, s: seq<SourceFile>, key: SourceFile -> nat): seq<SourceFile> {
    if s == [] || key(x) <= key(s[0]) then [x] + s
    else [s[0]] + Insert(x, s[1..], key)
  }

  /** `sorted(files, key=...)`: an insertion sort, stable like Python's. */
  function SortBy(s: seq<SourceFile>, key: SourceFile -> nat): seq<SourceFile> {
    if s == [] then [] else Insert(s[0], SortBy(s[1..], key), key)
  }

  lemma {:induction false} InsertMultiset(x: SourceFile, s: seq<SourceFile>, key: SourceFile -> nat)
    ensures multiset(Insert(x, s, key)) == multiset{x} + multiset(s)
  {
    if s != [] && key(x) > key(s[0]) {
      InsertMultiset(x, s[1..], key);
      assert s == [s[0]] + s[1..];
    }
  }

  lemma {:induction false} InsertWithKey(x: SourceFile, s: seq<SourceFile>, key: SourceFile -> nat, k: nat)
    ensures WithKey(Insert(x, s, key), key, k) == (if key(x) == k then [x] else []) + WithKey(s, key, k)
  {
    var r := Insert(x, s, key);
    if s == [] || key(x) <= key(s[0]) {
      assert r == [x] + s && r[0] == x && r[1..] == s;
      assert WithKey(r, key, k) == (if key(x) == k then [x] else []) + WithKey(s, key, k);
    } else {
      var t := Insert(x, s[1..], key);
      InsertWithKey(x, s[1..], key, k);
      assert r == [s[0]] + t && r[0] == s[0] && r[1..] == t;
      var h := if key(s[0]) == k then [s[0]] else [];
      assert WithKey(r, key, k) == h + WithKey(t, key, k);
      assert WithKey(s, key, k) == h + WithKey(s[1..], key, k);
    }
  }

  lemma {:induction false} InsertSorted(x: SourceFile, s: seq<SourceFile>, key: SourceFile -> nat)
    requires SortedBy(s, key)
    ensures SortedBy(Insert(x, s, key), key)
  {
    var r := Insert(x, s, key);
    if s == [] || key(x) <= key(s[0]) {
      assert r[0] == x && r[1..] == s;
      forall i, j | 0 <= i < j < |r| ensures key(r[i]) <= key(r[j]) {
        if i > 0 {
          assert r[i] == s[i - 1] && r[j] == s[j - 1];
        } else {
          assert r[j] == s[j - 1];
        }
      }
    } else {
      var t := Insert(x, s[1..], key);
      assert SortedBy(s[1..], key) by {
        forall i, j | 0 <= i < j < |s[1..]| ensures key(s[1..][i]) <= key(s[1..][j]) {
          assert s[1..][i] == s[i + 1] && s[1..][j] == s[j + 1];
        }
      }
      InsertSorted(x, s[1..], key);
      InsertMultiset(x, s[1..], key);
      assert r[0] == s[0] && r[1..] == t;
      forall i, j | 0 <= i < j < |r| ensures key(r[i]) <= key(r[j]) {
        if i > 0 {
          assert r[i] == t[i - 1] && r[j] == t[j - 1];
        } else {
          var y := t[j - 1];
          assert r[j] == y;
          assert y in multiset(t);
          if y != x {
            assert y in multiset(s[1..]);
            var m :| 0 <= m < |s[1..]| && s[1..][m] == y;
            assert s[m + 1] == y;
          }
        }
      }
    }
  }

  /** The sort rearranges the files, orders them by key, and keeps equal keys in listing order. */
  lemma {:induction false} SortFacts(s: seq<SourceFile>, key: SourceFile -> nat)
    ensures multiset(SortBy(s, key)) == multiset(s)
    ensures SortedBy(SortBy(s, key), key)
    ensures forall k :: WithKey(SortBy(s, key), key, k) == WithKey(s, key, k)
  {
    if s != [] {
      var t := SortBy(s[1..], key);
      SortFacts(s[1..], key);
      InsertMultiset(s[0], t, key);
      InsertSorted(s[0], t, key);
      forall k ensures WithKey(SortBy(s, key), key, k) == WithKey(s, key, k) {
        InsertWithKey(s[0], t, key, k);
      }
      assert s == [s[0]] + s[1..];
    }
  }

  lemma {:induction false} WithKeyMembers(s: seq<SourceFile>, key: SourceFile -> nat, k: nat)
    ensures forall y :: y in WithKey(s, key, k) ==> y in s && key(y) == k
    ensures s != [] ==> WithKey(s, key, key(s[0])) != [] && WithKey(s, key, key(s[0]))[0] == s[0]
  {
    if s != [] {
      WithKeyMembers(s[1..], key, k);
    }
  }

  /**
    A sequence ordered by key in which the files of each key appear in the
    same order as in the input is unique, so this sort gives exactly what
    Python's stable `sorted` gives.
  */
  lemma {:induction false} StableSortUnique(a: seq<SourceFile>, b: seq<SourceFile>, key: SourceFile -> nat)
    requires SortedBy(a, key) && SortedBy(b, key)
    requires forall k :: WithKey(a, key, k) == WithKey(b, key, k)
    ensures a == b
    decreases |a|
  {
    if a == [] {
      if b != [] {
        WithKeyMembers(b, key, key(b[0]));
      }
    } else if b == [] {
      WithKeyMembers(a, key, key(a[0]));
    } else {
      var ka := key(a[0]);
      var kb := key(b[0]);
      WithKeyMembers(a, key, ka);
      WithKeyMembers(b, key, kb);
      WithKeyMembers(a, key, kb);
      WithKeyMembers(b, key, ka);
      assert kb <= ka by {
        var y := WithKey(b, key, ka)[0];
        assert y in WithKey(b, key, ka);
        var j :| 0 <= j < |b| && b[j] == y;
        if j > 0 { assert key(b[0]) <= key(b[j]); }
      }
      assert ka <= kb by {
        var y := WithKey(a, key, kb)[0];
        assert y in WithKey(a, key, kb);
        var j :| 0 <= j < |a| && a[j] == y;
        if j > 0 { assert key(a[0]) <= key(a[j]); }
      }
      assert a[0] == b[0];
      forall k ensures WithKey(a[1..], key, k) == WithKey(b[1..], key, k) {
        var h := if ka == k then [a[0]] else [];
        assert WithKey(a, key, k) == h + WithKey(a[1..], key, k);
        assert WithKey(b, key, k) == h + WithKey(b[1..], key, k);
        assert WithKey(a, key, k) == WithKey(b, key, k);
        assert (h + WithKey(a[1..], key, k))[|h|..] == WithKey(a[1..], key, k);
        assert (h + WithKey(b[1..], key, k))[|h|..] == WithKey(b[1..], key, k);
      }
      assert SortedBy(a[1..], key) by {
        forall i, j | 0 <= i < j < |a[1..]| ensures key(a[1..][i]) <= key(a[1..][j]) {
          assert a[1..][i] == a[i + 1] && a[1..][j] == a[j + 1];
        }
      }
      assert SortedBy(b[1..], key) by {
        forall i, j | 0 <= i < j < |b[1..]| ensures key(b[1..][i]) <= key(b[1..][j]) {
          assert b[1..][i] == b[i + 1] && b[1..][j] == b[j + 1];
        }
      }
      StableSortUnique(a[1..], b[1..], key);
      assert a == [a[0]] + a[1..] && b == [b[0]] + b[1..];
    }
  }

  // ------------------------------------------------------------------ discovery

  /** `sorted(files, key=...)` with the error its key function raises. */
  function SortNumbered(files: seq<SourceFile>, prefix: string): Result<seq<SourceFile>, DiscoveryError> {
    match FirstUnnumbered(files, prefix)
    case Some(name) => Failure(UnnumberedName(name))
    case None => Success(SortBy(files, KeyOf(prefix)))
  }

  /** The prefix whose files are used: `chapter-` when that glob matched anything, else `chap-`. */
  function ChosenPrefix(dir: seq<SourceFile>): string {
    if Glob(dir, Primary) != [] then Primary else Fallback
  }

  /**
    The chapter files: the sorted `chapter-*.md` files if there are any,
    otherwise the sorted `chap-*.md` files, otherwise `NoChapterFiles`.
  */
  function Discover(dir: seq<SourceFile>): (r: Result<seq<SourceFile>, DiscoveryError>)
    ensures (r.Failure? && r.error == NoChapterFiles) <==> Glob(dir, Primary) == [] && Glob(dir, Fallback) == []
    ensures r.Success? ==> r.value != []
  {
    var primary := Glob(dir, Primary);
    if primary != [] then
      SortFacts(primary, KeyOf(Primary));
      assert multiset(SortBy(primary, KeyOf(Primary))) != multiset{};
      SortNumbered(primary, Primary)
    else
      var fallback := Glob(dir, Fallback);
      SortFacts(fallback, KeyOf(Fallback));
      if fallback != [] then
        assert multiset(SortBy(fallback, KeyOf(Fallback))) != multiset{};
        SortNumbered(fallback, Fallback)
      else Failure(NoChapterFiles)
  }

  /**
    Discovery succeeds exactly when the chosen glob matched files and every one
    of them carries a number; it then returns those files reordered by number,
    stably; it fails with the name of the first unnumbered file otherwise.
  */
  lemma DiscoveryOutcome(dir: seq<SourceFile>)
    ensures var files := Glob(dir, ChosenPrefix(dir));
      Discover(dir).Success? <==> files != [] && forall i :: 0 <= i < |files| ==> Numbered(files[i], ChosenPrefix(dir))
    ensures var files := Glob(dir, ChosenPrefix(dir)); var p := ChosenPrefix(dir);
      Discover(dir).Success? ==>
        multiset(Discover(dir).value) == multiset(files)
        && SortedBy(Discover(dir).value, KeyOf(p))
        && forall k :: WithKey(Discover(dir).value, KeyOf(p), k) == WithKey(files, KeyOf(p), k)
    ensures var files := Glob(dir, ChosenPrefix(dir));
      Discover(dir).Failure? && Discover(dir).error.UnnumberedName? ==>
        exists i :: 0 <= i < |files| && files[i].name == Discover(dir).error.name && !Numbered(files[i], ChosenPrefix(dir))
  {
    var p := ChosenPrefix(dir);
    var files := Glob(dir, p);
    SortFacts(files, KeyOf(p));
    if Glob(dir, Primary) != [] {
      assert Discover(dir) == SortNumbered(files, p);
    } else if Glob(dir, Fallback) != [] {
      assert Discover(dir) == SortNumbered(files, p);
    } else {
      assert Discover(dir) == Failure(NoChapterFiles);
    }
  }

  /** Any stable ordering by number of the chosen files is the one discovery returns. */
  lemma DiscoverIsTheStableSort(dir: seq<SourceFile>, out: seq<SourceFile>)
    requires Discover(dir).Success?
    requires SortedBy(out, KeyOf(ChosenPrefix(dir)))
    requires forall k :: WithKey(out, KeyOf(ChosenPrefix(dir)), k) == WithKey(Glob(dir, ChosenPrefix(dir)), KeyOf(ChosenPrefix(dir)), k)
    ensures Discover(dir).value == out
  {
    var p := ChosenPrefix(dir);
    DiscoveryOutcome(dir);
    StableSortUnique(Discover(dir).value, out, KeyOf(p));
  }

  lemma {:induction false} DigitRunOf(digits: string, rest: string)
    requires AllDigits(digits)
    requires rest == [] || !IsDigit(rest[0])
    ensures DigitRun(digits + rest) == |digits|
  {
    if digits != [] {
      DigitRunOf(digits[1..], rest);
      assert (digits + rest)[1..] == digits[1..] + rest;
    } else {
      assert digits + rest == rest;
    }
  }

  /** The number in a name such as `chapter-07-intro.md` is the digit run after the prefix. */
  lemma KeyOfName(prefix: string, digits: string, rest: string)
    requires digits != [] && AllDigits(digits)
    requires rest == [] || !IsDigit(rest[0])
    ensures NumberAfter(prefix + digits + rest, prefix) == Some(DigitsValue(digits))
  {
    var name := prefix + digits + rest;
    assert name[..|prefix|] == prefix;
    assert name[|prefix|] == digits[0];
    assert NumberedAt(name, prefix, 0);
    assert SearchFrom(name, prefix, 0) == Some(0);
    var s := name[|prefix|..];
    assert s == digits + rest;
    DigitRunOf(digits, rest);
    assert s[..|digits|] == digits;
  }
}
