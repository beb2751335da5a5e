/**
  The EPUB assembly of `MarkdownToEpub`: the chapter records, the chapter
  pages, the package document's manifest and spine, the navigation
  document's table of contents and landmarks, the consolidated manuscript
  and the order of the entries in the ZIP container.
*/
module Epub {
  import opened Wrappers
  import opened PyText
  import opened XmlEscape
  import opened ChapterDiscovery
  import opened ChapterTitle

  // ------------------------------------------------------------------ configuration

  /** The configuration keys the build reads; `cover` and `publisher` may be absent. */
  datatype Config = Config(title: string, author: string, language: string, cover: Option<string>, publisher: Option<string>)

  /** `self.config.get('cover')` is truthy: the key is present and not empty. */
  predicate CoverConfigured(config: Config) {
    config.cover.Some? && config.cover.value != []
  }

  /** The manifest's test: the cover is configured and the file exists. */
  predicate CoverPresent(config: Config, coverExists: bool) {
    CoverConfigured(config) && coverExists
  }

  /** `self.config.get('publisher', self.config['author'])` */
  function Publisher(config: Config): (r: string)
    ensures config.publisher.None? ==> r == config.author
    ensures config.publisher.Some? ==> r == config.publisher.value
  {
    match config.publisher
    case Some(p) => p
    case None => config.author
  }

  // ------------------------------------------------------------------ helpers

  /** `[f(x) for x in s]` */
  function MapSeq<A, B>(s: seq<A>, f: A -> B): seq<B> {
    if s == [] then [] else MapSeq(s[..|s| - 1], f) + [f(s[|s| - 1])]
  }

  lemma {:induction false} MapSeqAt<A, B>(s: seq<A>, f: A -> B)
    ensures |MapSeq(s, f)| == |s|
    ensures forall i :: 0 <= i < |s| ==> MapSeq(s, f)[i] == f(s[i])
  {
    if s != [] {
      MapSeqAt(s[..|s| - 1], f);
    }
  }

  /** The entries of `lead + MapSeq(s, f)` after `lead` are `f` of the elements of `s`, in order. */
  lemma MapSeqAfter<A, B>(lead: seq<B>, s: seq<A>, f: A -> B)
    ensures |lead + MapSeq(s, f)| == |lead| + |s|
    ensures forall j :: 0 <= j < |s| ==> (lead + MapSeq(s, f))[|lead| + j] == f(s[j])
  {
    MapSeqAt(s, f);
  }

  lemma MapSeqStep<A, B>(s: seq<A>, f: A -> B, i: nat)
    requires i < |s|
    ensures MapSeq(s[..i + 1], f) == MapSeq(s[..i], f) + [f(s[i])]
  {
    assert s[..i + 1][..i] == s[..i];
  }

  /** The last component of a `/`-separated path: what follows its last `/`. */
  function Basename(p: string): string {
    if p == [] || p[|p| - 1] == '/' then []
    else Basename(p[..|p| - 1]) + [p[|p| - 1]]
  }

  /** The base name is the longest end of the path without a `/`. */
  lemma {:induction false} BasenameShape(p: string)
    ensures |Basename(p)| <= |p| && p[|p| - |Basename(p)|..] == Basename(p) && '/' !in Basename(p)
    ensures |Basename(p)| == |p| || p[|p| - |Basename(p)| - 1] == '/'
  {
    if p != [] && p[|p| - 1] != '/' {
      var q := p[..|p| - 1];
      BasenameShape(q);
      var r := Basename(q);
      assert q[|q| - |r|..] == r;
      assert p[|p| - |r| - 1..] == r + [p[|p| - 1]];
    }
  }

  lemma SuffixOmits<T>(s: seq<T>, j: nat, x: T)
    requires j <= |s| && x !in s
    ensures x !in s[j..]
  {
  }

  /** The position of the last `.` in `name` (`str.rfind`). */
  function LastDot(name: string): (r: Option<nat>)
    ensures r.Some? ==> r.value < |name| && name[r.value] == '.' && '.' !in name[r.value + 1..]
    ensures r.None? ==> '.' !in name
  {
    if name == [] then None
    else if name[|name| - 1] == '.' then Some(|name| - 1)
    else
      var r := LastDot(name[..|name| - 1]);
      assert name == name[..|name| - 1] + [name[|name| - 1]];
      if r.Some? then
        assert name[r.value + 1..] == name[..|name| - 1][r.value + 1..] + [name[|name| - 1]];
        r
      else r
  }

  /**
    `Path(cover).suffix.lstrip('.')`: what follows the last `.` of the final
    component, when that dot is neither its first nor its last character.
  */
  function CoverExt(path: string): (r: string)
    ensures '.' !in r && '/' !in r
  {
    var name := Basename(path);
    BasenameShape(path);
    match LastDot(name)
    case Some(i) =>
      if 0 < i < |name| - 1 then
        SuffixOmits(name, i + 1, '/');
        name[i + 1..]
      else []
    case None => []
  }

  /** Appending a component without `/` to a directory path that ends in `/` makes it the base name. */
  lemma {:induction false} BasenameAfterSlash(dir: string, name: string)
    requires dir == [] || dir[|dir| - 1] == '/'
    requires '/' !in name
    ensures Basename(dir + name) == name
    decreases |name|
  {
    if name != [] {
      var init := name[..|name| - 1];
      assert (dir + name)[..|dir + name| - 1] == dir + init;
      assert name[|name| - 1] in name;
      BasenameAfterSlash(dir, init);
      assert name == init + [name[|name| - 1]];
    } else {
      assert dir + name == dir;
    }
  }

  /** `rfind('.')` finds the only dot after which no other dot follows. */
  lemma LastDotAt(name: string, i: nat)
    requires i < |name| && name[i] == '.' && '.' !in name[i + 1..]
    ensures LastDot(name) == Some(i)
  {
    assert name[i] in name;
    var j := LastDot(name).value;
    NoDotAfter(name, i);
    NoDotAfter(name, j);
  }

  lemma NoDotAfter(name: string, i: nat)
    requires i < |name| && '.' !in name[i + 1..]
    ensures forall k :: i < k < |name| ==> name[k] != '.'
  {
    forall k | i < k < |name| ensures name[k] != '.' {
      assert name[k] == name[i + 1..][k - i - 1];
    }
  }

  /** A cover at `<dir>/<stem>.<ext>` has the extension `ext`, whatever dots the stem holds. */
  lemma CoverExtOf(dir: string, stem: string, ext: string)
    requires dir == [] || dir[|dir| - 1] == '/'
    requires stem != [] && ext != []
    requires '/' !in stem && '/' !in ext && '.' !in ext
    ensures CoverExt(dir + stem + "." + ext) == ext
  {
    var name := stem + "." + ext;
    assert dir + stem + "." + ext == dir + name;
    forall k | 0 <= k < |name| ensures name[k] != '/' {
      if k < |stem| {
        assert name[k] == stem[k];
        assert stem[k] in stem;
      } else if k > |stem| {
        assert name[k] == ext[k - |stem| - 1];
        assert ext[k - |stem| - 1] in ext;
      }
    }
    BasenameAfterSlash(dir, name);
    assert name[|stem| + 1..] == ext;
    LastDotAt(name, |stem|);
  }

  /**
    The extension is empty exactly when the final component's last dot is
    missing, leads the component or ends it; otherwise it is what follows that dot.
  */
  lemma CoverExtEmptyIff(path: string)
    ensures var name := Basename(path);
      CoverExt(path) == [] <==> !exists i :: 0 < i < |name| - 1 && name[i] == '.' && '.' !in name[i + 1..]
    ensures var name := Basename(path);
      forall i :: 0 < i < |name| - 1 && name[i] == '.' && '.' !in name[i + 1..] ==> CoverExt(path) == name[i + 1..]
  {
    var name := Basename(path);
    forall i | 0 < i < |name| - 1 && name[i] == '.' && '.' !in name[i + 1..] ensures CoverExt(path) == name[i + 1..] {
      LastDotAt(name, i);
    }
    match LastDot(name)
    case None =>
      forall i | 0 < i < |name| - 1 ensures name[i] != '.' {
        assert name[i] in name;
      }
    case Some(j) =>
      if 0 < j < |name| - 1 {
        assert name[j + 1..] != [];
      }
  }

  /** The cover's media type: `image/jpeg` for `jpg`, `image/<ext>` otherwise. */
  function CoverMediaType(ext: string): (r: string)
    ensures |r| >= 6 && r[..6] == "image/"
    ensures r == "image/jpeg" <==> ext == "jpg" || ext == "jpeg"
    ensures ext != "jpg" ==> r == "image/" + ext
  {
    if ext != "jpg" then
      assert ("image/" + ext)[6..] == ext;
      "image/" + ext
    else "image/jpeg"
  }

  // ------------------------------------------------------------------ chapter records

  /** One entry of `self.chapters`. */
  datatype Chapter = Chapter(id: string, href: string, title: string, filename: string)

  /** `f"chapter-{idx:02d}.xhtml"` */
  function XhtmlName(idx: nat): string {
    "chapter-" + Pad2(idx) + ".xhtml"
  }

  function ChapterRecord(idx: nat, f: SourceFile): Chapter {
    Chapter("chap" + Pad2(idx), "Text/" + XhtmlName(idx), ChapterTitleOf(f.text, idx), XhtmlName(idx))
  }

  /** `[f(i, x) for i, x in enumerate(s, 1)]` */
  function MapNumbered<A, B>(s: seq<A>, f: (nat, A) -> B): seq<B> {
    if s == [] then [] else MapNumbered(s[..|s| - 1], f) + [f(|s|, s[|s| - 1])]
  }

  lemma {:induction false} MapNumberedAt<A, B>(s: seq<A>, f: (nat, A) -> B)
    ensures |MapNumbered(s, f)| == |s|
    ensures forall i :: 0 <= i < |s| ==> MapNumbered(s, f)[i] == f(i + 1, s[i])
  {
    if s != [] {
      var prev := s[..|s| - 1];
      MapNumberedAt(prev, f);
      assert forall i :: 0 <= i < |prev| ==> prev[i] == s[i];
    }
  }

  /** The records `_process_chapters` appends for the discovered files, numbered 1, 2, ... in order. */
  function Records(files: seq<SourceFile>): seq<Chapter> {
    MapNumbered(files, ChapterRecord)
  }

  /** There is one record per file, the i-th (from 0) built from file i as chapter i + 1. */
  lemma RecordsAt(files: seq<SourceFile>)
    ensures |Records(files)| == |files|
    ensures forall i :: 0 <= i < |files| ==> Records(files)[i] == ChapterRecord(i + 1, files[i])
  {
    MapNumberedAt(files, ChapterRecord);
  }

  lemma RecordsStep(files: seq<SourceFile>, i: nat)
    requires i < |files|
    ensures Records(files[..i + 1]) == Records(files[..i]) + [ChapterRecord(i + 1, files[i])]
  {
    assert files[..i + 1][..i] == files[..i];
  }

  /** The i-th record (from 0) is chapter i + 1: id `chapNN`, page `Text/chapter-NN.xhtml`. */
  predicate WellNumbered(chs: seq<Chapter>) {
    forall i :: 0 <= i < |chs| ==>
      chs[i].id == "chap" + Pad2(i + 1) && chs[i].href == "Text/" + XhtmlName(i + 1) && chs[i].filename == XhtmlName(i + 1)
  }

  /**
    The records are numbered 1..n in discovery order whatever numbers the file
    names carry: each id reads back as its position, ids are pairwise distinct,
    and each title comes from its own file.
  */
  lemma RecordFacts(files: seq<SourceFile>)
    ensures |Records(files)| == |files| && WellNumbered(Records(files))
    ensures forall i :: 0 <= i < |files| ==>
      AllDigits(Records(files)[i].id[4..]) && DigitsValue(Records(files)[i].id[4..]) == i + 1
    ensures forall i, j :: 0 <= i < j < |files| ==> Records(files)[i].id != Records(files)[j].id
    ensures forall i :: 0 <= i < |files| ==> Records(files)[i].title == ChapterTitleOf(files[i].text, i + 1)
  {
    RecordsAt(files);
    RecordIdsRead(Records(files));
  }

  /** In well-numbered records each id reads back as its position, so no two ids are equal. */
  lemma RecordIdsRead(chs: seq<Chapter>)
    requires WellNumbered(chs)
    ensures forall i :: 0 <= i < |chs| ==> AllDigits(chs[i].id[4..]) && DigitsValue(chs[i].id[4..]) == i + 1
    ensures forall i, j :: 0 <= i < j < |chs| ==> chs[i].id != chs[j].id
  {
    forall i | 0 <= i < |chs|
      ensures AllDigits(chs[i].id[4..]) && DigitsValue(chs[i].id[4..]) == i + 1
    {
      RecordIdDigits(chs[i], i + 1);
    }
    forall i, j | 0 <= i < j < |chs| ensures chs[i].id != chs[j].id {
      RecordIdDigits(chs[i], i + 1);
      RecordIdDigits(chs[j], j + 1);
    }
  }


  /** The id of record `idx` is `chap` and the two-digit form of `idx`, which reads back as `idx`. */
  lemma RecordIdDigits(ch: Chapter, idx: nat)
    requires ch.id == "chap" + Pad2(idx)
    ensures ch.id[4..] == Pad2(idx)
    ensures AllDigits(ch.id[4..]) && DigitsValue(ch.id[4..]) == idx
  {
    Pad2RoundTrip(idx);
  }


  // ------------------------------------------------------------------ chapter pages

  /** The values `_generate_xhtml` fills its page template with; the fixed markup around them is not modelled. */
  datatype XhtmlPage = XhtmlPage(language: string, title: string, body: string)

  /** `_generate_xhtml(title, body)`: the `<title>` text is the escaped title, the body goes in unchanged. */
  function ChapterPage(language: string, title: string, body: string): XhtmlPage {
    XhtmlPage(language, EscapeXml(title), body)
  }

  /**
    The page's `<title>` element holds text with no raw markup character,
    whose every `&` begins an entity, and which decodes back to the title.
  */
  lemma ChapterPageTitle(language: string, title: string, body: string)
    ensures var page := ChapterPage(language, title, body);
      NoRawMarkup(page.title) && AmpersandsBeginEntities(page.title) && Unescape(page.title) == Some(title)
    ensures ChapterPage(language, title, body).body == body && ChapterPage(language, title, body).language == language
  {
    EscapeRoundTrip(title);
    EscapedIsWellFormed(title);
  }

  /** Where `_process_chapters` writes chapter `idx`, relative to the staging directory. */
  function PagePath(idx: nat): string {
    "OEBPS/Text/" + XhtmlName(idx)
  }

  /** The page `_process_chapters` writes for chapter `idx` read from `f`. */
  function PageOf(language: string, convert: string -> string): (nat, SourceFile) -> XhtmlPage {
    (idx: nat, f: SourceFile) => ChapterPage(language, ChapterTitleOf(f.text, idx), convert(f.text))
  }

  /** The staged files after `page(i, files[i - 1])` has been written at `path(i)` over `m`, for i = 1, 2, ... in turn. */
  function Stage(m: map<string, XhtmlPage>, files: seq<SourceFile>, path: nat -> string, page: (nat, SourceFile) -> XhtmlPage): map<string, XhtmlPage> {
    if files == [] then m
    else
      var n := |files|;
      Stage(m, files[..n - 1], path, page)[path(n) := page(n, files[n - 1])]
  }

  /** The staged files after the chapter pages for `files` have been written over `m`, one after another. */
  function StagePages(m: map<string, XhtmlPage>, language: string, files: seq<SourceFile>, convert: string -> string): map<string, XhtmlPage> {
    Stage(m, files, PagePath, PageOf(language, convert))
  }

  lemma StagePagesStep(m: map<string, XhtmlPage>, language: string, files: seq<SourceFile>, convert: string -> string, i: nat)
    requires i < |files|
    ensures StagePages(m, language, files[..i + 1], convert)
      == StagePages(m, language, files[..i], convert)[PagePath(i + 1) := ChapterPage(language, ChapterTitleOf(files[i].text, i + 1), convert(files[i].text))]
  {
    assert files[..i + 1][..i] == files[..i];
  }

  lemma PagePathInjective(i: nat, j: nat)
    requires PagePath(i) == PagePath(j)
    ensures i == j
  {
    assert PagePath(i)[19..] == Pad2(i) + ".xhtml";
    assert PagePath(j)[19..] == Pad2(j) + ".xhtml";
    var a := Pad2(i);
    var b := Pad2(j);
    assert (a + ".xhtml")[..|a + ".xhtml"| - 6] == a;
    assert (b + ".xhtml")[..|b + ".xhtml"| - 6] == b;
    Pad2Injective(i, j);
  }

  lemma PagePathsDistinct(n: nat)
    ensures forall i: nat, j: nat :: 1 <= i < j <= n ==> PagePath(i) != PagePath(j)
  {
    forall i: nat, j: nat | 1 <= i < j <= n ensures PagePath(i) != PagePath(j) {
      if PagePath(i) == PagePath(j) {
        PagePathInjective(i, j);
      }
    }
  }

  lemma {:induction false} StagedAt(m: map<string, XhtmlPage>, files: seq<SourceFile>, path: nat -> string, page: (nat, SourceFile) -> XhtmlPage)
    requires forall i: nat, j: nat :: 1 <= i < j <= |files| ==> path(i) != path(j)
    ensures forall i: nat :: 1 <= i <= |files| ==>
      path(i) in Stage(m, files, path, page) && Stage(m, files, path, page)[path(i)] == page(i, files[i - 1])
  {
    if files != [] {
      var n := |files|;
      var prev := files[..n - 1];
      StagedAt(m, prev, path, page);
      assert forall j :: 0 <= j < n - 1 ==> prev[j] == files[j];
    }
  }

  lemma {:induction false} StagedOthers(m: map<string, XhtmlPage>, files: seq<SourceFile>, path: nat -> string, page: (nat, SourceFile) -> XhtmlPage)
    ensures forall p :: (forall i: nat :: 1 <= i <= |files| ==> p != path(i)) ==>
      (p in Stage(m, files, path, page) <==> p in m)
      && (p in m ==> Stage(m, files, path, page)[p] == m[p])
  {
    if files != [] {
      StagedOthers(m, files[..|files| - 1], path, page);
    }
  }

  /**
    Chapter i (from 1) is staged at `OEBPS/Text/chapter-NN.xhtml` as the page
    built from its own title and converted text; every other path keeps what it held.
  */
  lemma StagedPages(m: map<string, XhtmlPage>, language: string, files: seq<SourceFile>, convert: string -> string)
    ensures forall i: nat :: 1 <= i <= |files| ==>
      PagePath(i) in StagePages(m, language, files, convert)
      && StagePages(m, language, files, convert)[PagePath(i)]
         == ChapterPage(language, ChapterTitleOf(files[i - 1].text, i), convert(files[i - 1].text))
  {
    PagePathsDistinct(|files|);
    StagedAt(m, files, PagePath, PageOf(language, convert));
  }

  lemma StagedElsewhere(m: map<string, XhtmlPage>, language: string, files: seq<SourceFile>, convert: string -> string)
    ensures forall p :: (forall i: nat :: 1 <= i <= |files| ==> p != PagePath(i)) ==>
      (p in StagePages(m, language, files, convert) <==> p in m)
      && (p in m ==> StagePages(m, language, files, convert)[p] == m[p])
  {
    StagedOthers(m, files, PagePath, PageOf(language, convert));
  }

  // ------------------------------------------------------------------ package document

  datatype ManifestItem = ManifestItem(id: string, href: string, mediaType: string, properties: Option<string>)

  const NavItem := ManifestItem("nav", "nav.xhtml", "application/xhtml+xml", Some("nav"))
  const CssItem := ManifestItem("css", "Styles/stylesheet.css", "text/css", None)
  const CoverPageItem := ManifestItem("cover", "Text/cover.xhtml", "application/xhtml+xml", None)

  function CoverImageItem(cover: string): ManifestItem {
    var ext := CoverExt(cover);
    ManifestItem("cover-image", "Images/cover." + ext, CoverMediaType(ext), Some("cover-image"))
  }

  function ChapterItem(ch: Chapter): ManifestItem {
    ManifestItem(ch.id, ch.href, "application/xhtml+xml", None)
  }

  function IdOf(ch: Chapter): string {
    ch.id
  }

  /** The manifest `_generate_content_opf` lists. */
  function ManifestOf(config: Config, chs: seq<Chapter>, coverExists: bool): seq<ManifestItem> {
    [NavItem, CssItem]
    + (if CoverPresent(config, coverExists) then [CoverImageItem(config.cover.value), CoverPageItem] else [])
    + MapSeq(chs, ChapterItem)
  }

  /** The spine as written: the cover page whenever a cover is configured, then the chapters. */
  function SpineAsWritten(config: Config, chs: seq<Chapter>): seq<string> {
    (if CoverConfigured(config) then ["cover"] else []) + MapSeq(chs, IdOf)
  }

  /** The spine with the manifest's own test for the cover. */
  function Spine(config: Config, chs: seq<Chapter>, coverExists: bool): seq<string> {
    (if CoverPresent(config, coverExists) then ["cover"] else []) + MapSeq(chs, IdOf)
  }

  /** The `<meta name="cover">` reference as written: always present. */
  function CoverMetaAsWritten(config: Config, coverExists: bool): Option<string> {
    Some("cover-image")
  }

  /** The `<meta name="cover">` reference, emitted only with the cover image it names. */
  function CoverMeta(config: Config, coverExists: bool): Option<string> {
    if CoverPresent(config, coverExists) then Some("cover-image") else None
  }

  predicate HasId(m: seq<ManifestItem>, id: string) {
    exists k :: 0 <= k < |m| && m[k].id == id
  }

  /** The values `content.opf` is filled with; the fixed metadata text around them is not modelled. */
  datatype PackageDocument = PackageDocument(
    language: string,
    identifier: string,
    title: string,
    creator: string,
    publisher: string,
    date: string,
    modified: string,
    coverMeta: Option<string>,
    manifest: seq<ManifestItem>,
    spine: seq<string>)

  /** The position of the first chapter item in the manifest. */
  function ChapterBase(config: Config, coverExists: bool): nat {
    if CoverPresent(config, coverExists) then 4 else 2
  }

  /**
    The manifest is `nav`, `css`, then `cover-image` and `cover` exactly when
    the cover is configured and exists, then one item per chapter in record order.
  */
  lemma ManifestLayout(config: Config, chs: seq<Chapter>, coverExists: bool)
    ensures var m := ManifestOf(config, chs, coverExists); var b := ChapterBase(config, coverExists);
      |m| == b + |chs| && m[0] == NavItem && m[1] == CssItem
      && (CoverPresent(config, coverExists) ==>
            m[2] == CoverImageItem(config.cover.value) && m[3] == CoverPageItem
            && m[2].id == "cover-image" && m[2].href == "Images/cover." + CoverExt(config.cover.value)
            && m[2].mediaType == CoverMediaType(CoverExt(config.cover.value)))
      && forall j :: 0 <= j < |chs| ==> m[b + j] == ChapterItem(chs[j])
  {
    MapSeqAt(chs, ChapterItem);
  }

  lemma ChapterIdShape(chs: seq<Chapter>, j: nat)
    requires WellNumbered(chs) && j < |chs|
    ensures |chs[j].id| >= 6 && chs[j].id[..4] == "chap"
    ensures chs[j].id != "nav" && chs[j].id != "css" && chs[j].id != "cover" && chs[j].id != "cover-image"
  {
    Pad2RoundTrip(j + 1);
    assert chs[j].id[1] == 'h';
  }

  /** Well-numbered records have pairwise distinct ids, none of them a fixed item's id. */
  lemma ChapterIdsDistinct(chs: seq<Chapter>)
    requires WellNumbered(chs)
    ensures forall j, k :: 0 <= j < k < |chs| ==> chs[j].id != chs[k].id
    ensures forall j :: 0 <= j < |chs| ==> IsChapterId(chs[j].id)
  {
    forall j, k | 0 <= j < k < |chs| ensures chs[j].id != chs[k].id {
      ChapterIdShape(chs, k);
      ChapterIdShape(chs, j);
      if chs[j].id == chs[k].id {
        assert chs[j].id[4..] == Pad2(j + 1) && chs[k].id[4..] == Pad2(k + 1);
        Pad2Injective(j + 1, k + 1);
      }
    }
    forall j | 0 <= j < |chs| ensures IsChapterId(chs[j].id) {
      ChapterIdShape(chs, j);
    }
  }

  predicate IsChapterId(id: string) {
    id != "nav" && id != "css" && id != "cover" && id != "cover-image"
  }

  /** The manifest ids are pairwise distinct. */
  lemma ManifestIdsUnique(config: Config, chs: seq<Chapter>, coverExists: bool)
    requires WellNumbered(chs)
    ensures var m := ManifestOf(config, chs, coverExists);
      forall j, k :: 0 <= j < k < |m| ==> m[j].id != m[k].id
  {
    var m := ManifestOf(config, chs, coverExists);
    var b := ChapterBase(config, coverExists);
    ManifestLayout(config, chs, coverExists);
    ChapterIdsDistinct(chs);
    forall j, k | 0 <= j < k < |m| ensures m[j].id != m[k].id {
      if k >= b {
        assert m[k].id == chs[k - b].id;
        if j >= b {
          assert m[j].id == chs[j - b].id;
        }
      }
    }
  }

  /** Every chapter id is a manifest id. */
  lemma ChapterIdsInManifest(config: Config, chs: seq<Chapter>, coverExists: bool)
    ensures forall j :: 0 <= j < |chs| ==> HasId(ManifestOf(config, chs, coverExists), chs[j].id)
  {
    var m := ManifestOf(config, chs, coverExists);
    var b := ChapterBase(config, coverExists);
    ManifestLayout(config, chs, coverExists);
    forall j | 0 <= j < |chs| ensures HasId(m, chs[j].id) {
      assert m[b + j].id == chs[j].id;
    }
  }

  /** Without the cover file the manifest has neither a `cover` nor a `cover-image` item. */
  lemma NoCoverItems(config: Config, chs: seq<Chapter>, coverExists: bool)
    requires WellNumbered(chs) && !CoverPresent(config, coverExists)
    ensures !HasId(ManifestOf(config, chs, coverExists), "cover")
    ensures !HasId(ManifestOf(config, chs, coverExists), "cover-image")
  {
    var m := ManifestOf(config, chs, coverExists);
    ManifestLayout(config, chs, coverExists);
    ChapterIdsDistinct(chs);
    forall k | 0 <= k < |m| ensures m[k].id != "cover" && m[k].id != "cover-image" {
      if k >= 2 {
        assert m[k].id == chs[k - 2].id;
      }
    }
  }

  /** With the cover file the manifest has both cover items. */
  lemma CoverItems(config: Config, chs: seq<Chapter>, coverExists: bool)
    requires CoverPresent(config, coverExists)
    ensures HasId(ManifestOf(config, chs, coverExists), "cover")
    ensures HasId(ManifestOf(config, chs, coverExists), "cover-image")
  {
    ManifestLayout(config, chs, coverExists);
    assert ManifestOf(config, chs, coverExists)[2].id == "cover-image";
    assert ManifestOf(config, chs, coverExists)[3].id == "cover";
  }

  /** Entry i of a spine that lists `lead` before the chapters. */
  lemma SpineAt(lead: seq<string>, chs: seq<Chapter>, i: nat)
    ensures |MapSeq(chs, IdOf)| == |chs|
    ensures i < |lead| + |chs| ==> (lead + MapSeq(chs, IdOf))[i] == if i < |lead| then lead[i] else chs[i - |lead|].id
  {
    MapSeqAt(chs, IdOf);
  }

  /** As written, every spine `idref` names a manifest item exactly when the cover is unset or its file exists. */
  lemma SpineResolvesIff(config: Config, chs: seq<Chapter>, coverExists: bool)
    requires WellNumbered(chs)
    ensures (forall r :: r in SpineAsWritten(config, chs) ==> HasId(ManifestOf(config, chs, coverExists), r))
      <==> (!CoverConfigured(config) || coverExists)
  {
    var m := ManifestOf(config, chs, coverExists);
    var lead := if CoverConfigured(config) then ["cover"] else [];
    var s := SpineAsWritten(config, chs);
    SpineAt(lead, chs, 0);
    if !CoverConfigured(config) || coverExists {
      ChapterIdsInManifest(config, chs, coverExists);
      if CoverConfigured(config) {
        CoverItems(config, chs, coverExists);
      }
      forall r | r in s ensures HasId(m, r) {
        var i :| 0 <= i < |s| && s[i] == r;
        SpineAt(lead, chs, i);
      }
    } else {
      NoCoverItems(config, chs, coverExists);
      SpineAt(lead, chs, 0);
      assert s[0] in s;
    }
  }

  /** The counterexample: a configured cover whose file is missing leaves the spine naming an item that does not exist. */
  lemma CoverIdrefDangles(config: Config, chs: seq<Chapter>)
    requires WellNumbered(chs) && CoverConfigured(config)
    ensures SpineAsWritten(config, chs)[0] == "cover"
    ensures !HasId(ManifestOf(config, chs, false), "cover")
  {
    NoCoverItems(config, chs, false);
  }

  /** With the manifest's test, every spine `idref` names a manifest item. */
  lemma CorrectedSpineResolves(config: Config, chs: seq<Chapter>, coverExists: bool)
    ensures forall r :: r in Spine(config, chs, coverExists) ==> HasId(ManifestOf(config, chs, coverExists), r)
  {
    var m := ManifestOf(config, chs, coverExists);
    var lead := if CoverPresent(config, coverExists) then ["cover"] else [];
    var s := Spine(config, chs, coverExists);
    SpineAt(lead, chs, 0);
    ChapterIdsInManifest(config, chs, coverExists);
    if CoverPresent(config, coverExists) {
      CoverItems(config, chs, coverExists);
    }
    forall r | r in s ensures HasId(m, r) {
      var i :| 0 <= i < |s| && s[i] == r;
      SpineAt(lead, chs, i);
    }
  }

  /** As written, the cover meta names `cover-image` even when the manifest has no such item. */
  lemma CoverMetaDangles(config: Config, chs: seq<Chapter>, coverExists: bool)
    requires WellNumbered(chs) && !CoverPresent(config, coverExists)
    ensures CoverMetaAsWritten(config, coverExists) == Some("cover-image")
    ensures !HasId(ManifestOf(config, chs, coverExists), "cover-image")
  {
    NoCoverItems(config, chs, coverExists);
  }

  /** The corrected cover meta is present exactly with the cover, and then names a manifest item. */
  lemma CorrectedCoverMetaResolves(config: Config, chs: seq<Chapter>, coverExists: bool)
    ensures CoverMeta(config, coverExists).Some? <==> CoverPresent(config, coverExists)
    ensures CoverMeta(config, coverExists).Some? ==> HasId(ManifestOf(config, chs, coverExists), CoverMeta(config, coverExists).value)
  {
    if CoverPresent(config, coverExists) {
      CoverItems(config, chs, coverExists);
    }
  }

  /** What `_generate_content_opf` writes, with the corrected spine and cover meta. */
  function PackageOf(config: Config, bookId: string, chs: seq<Chapter>, coverExists: bool, today: string, now: string): PackageDocument {
    PackageDocument(
      config.language, "urn:uuid:" + bookId, EscapeXml(config.title), EscapeXml(config.author),
      EscapeXml(Publisher(config)), today, now + "Z", CoverMeta(config, coverExists),
      ManifestOf(config, chs, coverExists), Spine(config, chs, coverExists))
  }

  /**
    The package document has pairwise distinct manifest ids, and its spine and
    cover meta name only items of its manifest.
  */
  lemma PackageConsistent(config: Config, bookId: string, chs: seq<Chapter>, coverExists: bool, today: string, now: string)
    requires WellNumbered(chs)
    ensures var d := PackageOf(config, bookId, chs, coverExists, today, now);
      (forall j, k :: 0 <= j < k < |d.manifest| ==> d.manifest[j].id != d.manifest[k].id)
      && (forall r :: r in d.spine ==> HasId(d.manifest, r))
      && (d.coverMeta.Some? ==> HasId(d.manifest, d.coverMeta.value))
  {
    ManifestIdsUnique(config, chs, coverExists);
    CorrectedSpineResolves(config, chs, coverExists);
    CorrectedCoverMetaResolves(config, chs, coverExists);
  }

  // ------------------------------------------------------------------ navigation document

  /** One `<li><a href=...>label</a></li>` of the table of contents; the label is markup text. */
  datatype TocEntry = TocEntry(href: string, text: string)

  /** One entry of the landmarks list, with its `epub:type`. */
  datatype Landmark = Landmark(kind: string, href: string, text: string)

  datatype NavDocument = NavDocument(language: string, toc: seq<TocEntry>, landmarks: seq<Landmark>)

  const CoverTocEntry := TocEntry("Text/cover.xhtml", "Cover")
  const CoverLandmark := Landmark("cover", "Text/cover.xhtml", "Cover")
  const TocLandmark := Landmark("toc", "nav.xhtml", "Table of Contents")

  function TocOf(ch: Chapter): TocEntry {
    TocEntry(ch.href, EscapeXml(ch.title))
  }

  /** The table of contents as written: the cover whenever it is configured, then the chapters. */
  function TocAsWritten(config: Config, chs: seq<Chapter>): seq<TocEntry> {
    (if CoverConfigured(config) then [CoverTocEntry] else []) + MapSeq(chs, TocOf)
  }

  /** The table of contents with the manifest's test for the cover. */
  function Toc(config: Config, chs: seq<Chapter>, coverExists: bool): seq<TocEntry> {
    (if CoverPresent(config, coverExists) then [CoverTocEntry] else []) + MapSeq(chs, TocOf)
  }

  function BodyLandmarks(chs: seq<Chapter>): seq<Landmark> {
    if chs != [] then [Landmark("bodymatter", chs[0].href, "Start Reading")] else []
  }

  /** The landmarks as written: the cover whenever it is configured, the table of contents, the first chapter. */
  function LandmarksAsWritten(config: Config, chs: seq<Chapter>): seq<Landmark> {
    (if CoverConfigured(config) then [CoverLandmark] else []) + [TocLandmark] + BodyLandmarks(chs)
  }

  /** The landmarks with the manifest's test for the cover. */
  function Landmarks(config: Config, chs: seq<Chapter>, coverExists: bool): seq<Landmark> {
    (if CoverPresent(config, coverExists) then [CoverLandmark] else []) + [TocLandmark] + BodyLandmarks(chs)
  }

  /** The href of the manifest item with identifier `id`. */
  predicate ItemHref(m: seq<ManifestItem>, id: string, href: string) {
    exists k :: 0 <= k < |m| && m[k].id == id && m[k].href == href
  }

  /** The link of entry i of a table of contents that lists `lead` before the chapters. */
  lemma TocHrefAt(lead: seq<TocEntry>, chs: seq<Chapter>, i: nat)
    ensures |lead + MapSeq(chs, TocOf)| == |lead| + |chs|
    ensures i < |lead| + |chs| ==> (lead + MapSeq(chs, TocOf))[i].href == if i < |lead| then lead[i].href else chs[i - |lead|].href
  {
    MapSeqAt(chs, TocOf);
  }

  /**
    The table of contents follows the spine: entry i links to the page of the
    manifest item that spine entry i names.
  */
  lemma TocFollowsSpine(config: Config, chs: seq<Chapter>, coverExists: bool)
    ensures var t := Toc(config, chs, coverExists); var s := Spine(config, chs, coverExists);
      |t| == |s| && forall i :: 0 <= i < |s| ==> ItemHref(ManifestOf(config, chs, coverExists), s[i], t[i].href)
  {
    var lead := if CoverPresent(config, coverExists) then ["cover"] else [];
    var tocLead := if CoverPresent(config, coverExists) then [CoverTocEntry] else [];
    SpineAt(lead, chs, 0);
    TocHrefAt(tocLead, chs, 0);
    var s := Spine(config, chs, coverExists);
    forall i | 0 <= i < |s| ensures ItemHref(ManifestOf(config, chs, coverExists), s[i], Toc(config, chs, coverExists)[i].href) {
      TocEntryFollows(config, chs, coverExists, i);
    }
  }

  /** Entry i of the table of contents links to the page of the item spine entry i names. */
  lemma TocEntryFollows(config: Config, chs: seq<Chapter>, coverExists: bool, i: nat)
    requires i < |Spine(config, chs, coverExists)|
    ensures i < |Toc(config, chs, coverExists)|
    ensures ItemHref(ManifestOf(config, chs, coverExists), Spine(config, chs, coverExists)[i], Toc(config, chs, coverExists)[i].href)
  {
    var m := ManifestOf(config, chs, coverExists);
    var t := Toc(config, chs, coverExists);
    var s := Spine(config, chs, coverExists);
    var lead := if CoverPresent(config, coverExists) then ["cover"] else [];
    var tocLead := if CoverPresent(config, coverExists) then [CoverTocEntry] else [];
    SpineAt(lead, chs, i);
    TocHrefAt(tocLead, chs, i);
    ManifestLayout(config, chs, coverExists);
    if i < |lead| {
      assert m[3].id == s[i] && m[3].href == t[i].href;
    } else {
      var k := ChapterBase(config, coverExists) + i - |lead|;
      assert m[k] == ChapterItem(chs[i - |lead|]);
      assert m[k].id == s[i] && m[k].href == t[i].href;
    }
  }


  /** A chapter's table-of-contents entry links to its page, and its label holds no raw markup and decodes back to its title. */
  lemma TocLabel(ch: Chapter)
    ensures TocOf(ch).href == ch.href
    ensures Unescape(TocOf(ch).text) == Some(ch.title) && NoRawMarkup(TocOf(ch).text)
  {
    EscapeRoundTrip(ch.title);
    EscapedIsWellFormed(ch.title);
  }

  /** The chapters' entries come last in the table of contents, one per record in order. */
  lemma TocChapters(config: Config, chs: seq<Chapter>, coverExists: bool)
    ensures var t := Toc(config, chs, coverExists); var b := |t| - |chs|;
      b >= 0 && forall j :: 0 <= j < |chs| ==> t[b + j] == TocOf(chs[j])
  {
    var tocLead := if CoverPresent(config, coverExists) then [CoverTocEntry] else [];
    MapSeqAfter(tocLead, chs, TocOf);
  }

  /** Without a configured cover, or with its file present, the lists as written are the corrected ones. */
  lemma AsWrittenAgrees(config: Config, chs: seq<Chapter>, coverExists: bool)
    requires !CoverConfigured(config) || coverExists
    ensures SpineAsWritten(config, chs) == Spine(config, chs, coverExists)
    ensures TocAsWritten(config, chs) == Toc(config, chs, coverExists)
    ensures LandmarksAsWritten(config, chs) == Landmarks(config, chs, coverExists)
  {
  }

  /**
    The landmarks always hold the table of contents, and hold a `bodymatter`
    entry exactly when there are chapters; it then points at the first chapter's page.
  */
  lemma LandmarkFacts(config: Config, chs: seq<Chapter>, coverExists: bool)
    ensures TocLandmark in Landmarks(config, chs, coverExists)
    ensures CoverLandmark in Landmarks(config, chs, coverExists) <==> CoverPresent(config, coverExists)
    ensures (exists l :: l in Landmarks(config, chs, coverExists) && l.kind == "bodymatter") <==> chs != []
    ensures forall l :: l in Landmarks(config, chs, coverExists) && l.kind == "bodymatter" ==> l.href == chs[0].href
  {
    var ls := Landmarks(config, chs, coverExists);
    if chs != [] {
      assert ls[|ls| - 1].kind == "bodymatter";
    }
  }

  // ------------------------------------------------------------------ consolidation

  const Separator: string := "\n\n---\n\n"

  function StripText(f: SourceFile): string {
    Strip(f.text)
  }

  /** `sep.join(parts)` */
  function Joined(parts: seq<string>, sep: string): string {
    if parts == [] then []
    else if |parts| == 1 then parts[0]
    else Joined(parts[..|parts| - 1], sep) + sep + parts[|parts| - 1]
  }

  lemma ConcatAppend(parts: seq<string>, x: string)
    ensures Concat(parts + [x]) == Concat(parts) + x
  {
    assert (parts + [x])[..|parts|] == parts;
  }

  /** Appending the separator (after the first part) and the next part extends the join by one part. */
  lemma JoinStep(before: seq<string>, parts: seq<string>, x: string, sep: string)
    requires Concat(before) == Joined(parts, sep)
    ensures Concat(before + (if parts != [] then [sep] else []) + [x]) == Joined(parts + [x], sep)
  {
    var ps := parts + [x];
    if parts != [] {
      assert ps[..|ps| - 1] == parts && ps[|ps| - 1] == x;
      assert Joined(ps, sep) == Joined(parts, sep) + sep + x;
      ConcatAppend(before, sep);
      ConcatAppend(before + [sep], x);
    } else {
      assert ps == [x];
      assert before + [] + [x] == before + [x];
      ConcatAppend(before, x);
    }
  }

  function TotalLength(parts: seq<string>): nat {
    if parts == [] then 0 else TotalLength(parts[..|parts| - 1]) + |parts[|parts| - 1]|
  }

  /** n parts give n - 1 separators: the joined text is as long as the parts plus n - 1 separators. */
  lemma {:induction false} JoinedLength(parts: seq<string>, sep: string)
    requires parts != []
    ensures |Joined(parts, sep)| == TotalLength(parts) + (|parts| - 1) * |sep|
  {
    if |parts| > 1 {
      JoinedLength(parts[..|parts| - 1], sep);
    } else {
      assert parts[..0] == [];
    }
  }

  /** Joining splits at any part: what comes before, a separator, then what comes after. */
  lemma {:induction false} JoinedSplit(a: seq<string>, b: seq<string>, sep: string)
    requires a != [] && b != []
    ensures Joined(a + b, sep) == Joined(a, sep) + sep + Joined(b, sep)
    decreases |b|
  {
    var ab := a + b;
    if |b| == 1 {
      assert ab[..|ab| - 1] == a && ab[|ab| - 1] == b[0];
      assert Joined(ab, sep) == Joined(a, sep) + sep + b[0];
    } else {
      var b' := b[..|b| - 1];
      JoinedSplit(a, b', sep);
      assert ab[..|ab| - 1] == a + b' && ab[|ab| - 1] == b[|b| - 1];
      assert Joined(ab, sep) == Joined(a + b', sep) + sep + b[|b| - 1];
      assert Joined(b, sep) == Joined(b', sep) + sep + b[|b| - 1];
    }
  }

  // ------------------------------------------------------------------ packaging

  datatype Compression = Stored | Deflated

  datatype ZipEntry = ZipEntry(path: string, compression: Compression)

  function DeflatedEntry(p: string): ZipEntry {
    ZipEntry(p, Deflated)
  }

  /** The staged files other than any named `mimetype`, in walk order. */
  function OtherFiles(walk: seq<string>): seq<string> {
    if walk == [] then []
    else
      var rest := OtherFiles(walk[..|walk| - 1]);
      var last := walk[|walk| - 1];
      if Basename(last) == "mimetype" then rest else rest + [last]
  }

  /** A path is among the other files exactly when it was walked and is not named `mimetype`. */
  lemma {:induction false} OtherFilesMembers(walk: seq<string>)
    ensures forall p :: p in OtherFiles(walk) <==> p in walk && Basename(p) != "mimetype"
  {
    if walk != [] {
      var prev := walk[..|walk| - 1];
      OtherFilesMembers(prev);
      assert walk == prev + [walk[|walk| - 1]];
    }
  }

  /** The entries `_package_epub` writes: `mimetype` stored, then the other files deflated. */
  function PackageEntries(walk: seq<string>): seq<ZipEntry> {
    [ZipEntry("mimetype", Stored)] + MapSeq(OtherFiles(walk), DeflatedEntry)
  }

  lemma OtherFilesStep(walk: seq<string>, i: nat)
    requires i < |walk|
    ensures OtherFiles(walk[..i + 1]) == OtherFiles(walk[..i]) + (if Basename(walk[i]) == "mimetype" then [] else [walk[i]])
  {
    assert walk[..i + 1][..i] == walk[..i];
  }

  lemma MapSeqAppend<A, B>(s: seq<A>, f: A -> B, x: A)
    ensures MapSeq(s + [x], f) == MapSeq(s, f) + [f(x)]
  {
    assert (s + [x])[..|s|] == s;
  }

  /**
    The archive starts with `mimetype`, stored; every later entry is deflated
    and none is named `mimetype`; and a staged file gets a deflated entry
    exactly when its name is not `mimetype`.
  */
  lemma PackageEntriesFacts(walk: seq<string>)
    ensures var entries := PackageEntries(walk);
      |entries| >= 1 && entries[0] == ZipEntry("mimetype", Stored)
      && (forall i :: 1 <= i < |entries| ==> entries[i].compression == Deflated && Basename(entries[i].path) != "mimetype")
      && (forall p :: p in walk && Basename(p) != "mimetype" <==> ZipEntry(p, Deflated) in entries[1..])
  {
    var entries := PackageEntries(walk);
    var others := OtherFiles(walk);
    OtherFilesMembers(walk);
    MapSeqAt(others, DeflatedEntry);
    assert entries[1..] == MapSeq(others, DeflatedEntry);
    forall p ensures p in walk && Basename(p) != "mimetype" <==> ZipEntry(p, Deflated) in entries[1..] {
      if ZipEntry(p, Deflated) in entries[1..] {
        var k :| 0 <= k < |others| && entries[1..][k] == ZipEntry(p, Deflated);
        assert others[k] == p;
      }
      if p in others {
        var k :| 0 <= k < |others| && others[k] == p;
        assert entries[1..][k] == ZipEntry(p, Deflated);
      }
    }
    forall i | 1 <= i < |entries| ensures entries[i].compression == Deflated && Basename(entries[i].path) != "mimetype" {
      assert entries[i] == DeflatedEntry(others[i - 1]);
      assert others[i - 1] in others;
    }
  }

  // ------------------------------------------------------------------ the converter

  class MarkdownToEpub {
    const config: Config
    /** `str(uuid.uuid4())`, given by the caller. */
    const bookId: string
    var chapters: seq<Chapter>
    /** The chapter pages written into the staging directory, by relative path. */
    var pages: map<string, XhtmlPage>
    var packageDoc: Option<PackageDocument>
    var navigation: Option<NavDocument>

    constructor (config: Config, bookId: string)
      ensures this.config == config && this.bookId == bookId
      ensures chapters == [] && pages == map[] && packageDoc == None && navigation == None
    {
      this.config := config;
      this.bookId := bookId;
      chapters := [];
      pages := map[];
      packageDoc := None;
      navigation := None;
    }

    /**
      `_process_chapters`: discover the chapter files, then for each one, in
      order, take its title, convert it, write its page and append its record.
      `convert` stands for the Markdown converter.
    */
    method ProcessChapters(dir: seq<SourceFile>, convert: string -> string) returns (outcome: Outcome<DiscoveryError>)
      modifies this
      ensures Discover(dir).Failure? ==>
        outcome == Fail(Discover(dir).error) && chapters == old(chapters) && pages == old(pages)
      ensures Discover(dir).Success? ==>
        outcome == Pass
        && chapters == old(chapters) + Records(Discover(dir).value)
        && pages == StagePages(old(pages), config.language, Discover(dir).value, convert)
      ensures packageDoc == old(packageDoc) && navigation == old(navigation)
    {
      var found := Discover(dir);
      if found.Failure? {
        return Fail(found.error);
      }
      AddChapters(found.value, convert);
      outcome := Pass;
    }

    /** The loop of `_process_chapters` over the discovered files. */
    method AddChapters(files: seq<SourceFile>, convert: string -> string)
      modifies this
      ensures chapters == old(chapters) + Records(files)
      ensures pages == StagePages(old(pages), config.language, files, convert)
      ensures packageDoc == old(packageDoc) && navigation == old(navigation)
    {
      for i := 0 to |files|
        invariant chapters == old(chapters) + Records(files[..i])
        invariant pages == StagePages(old(pages), config.language, files[..i], convert)
        invariant packageDoc == old(packageDoc) && navigation == old(navigation)
      {
        RecordsStep(files, i);
        StagePagesStep(old(pages), config.language, files, convert, i);
        var idx := i + 1;
        var content := files[i].text;
        var title := ChapterTitleOf(content, idx);
        var html := convert(content);
        var filename := XhtmlName(idx);
        var page := ChapterPage(config.language, title, html);
        var record := Chapter("chap" + Pad2(idx), "Text/" + filename, title, filename);
        assert record == ChapterRecord(idx, files[i]);
        assert "OEBPS/Text/" + filename == PagePath(idx);
        pages := pages["OEBPS/Text/" + filename := page];
        chapters := chapters + [record];
      }
      assert files[..|files|] == files;
    }

    /** The manifest list of `_generate_content_opf`. */
    method BuildManifest(coverExists: bool) returns (manifest: seq<ManifestItem>)
      ensures manifest == ManifestOf(config, chapters, coverExists)
    {
      manifest := [NavItem, CssItem];
      if CoverConfigured(config) && coverExists {
        manifest := manifest + [CoverImageItem(config.cover.value), CoverPageItem];
      }
      var head := manifest;
      ghost var coverItems := if CoverPresent(config, coverExists) then [CoverImageItem(config.cover.value), CoverPageItem] else [];
      assert head == [NavItem, CssItem] + coverItems;
      for i := 0 to |chapters|
        invariant manifest == head + MapSeq(chapters[..i], ChapterItem)
      {
        assert chapters[..i + 1][..i] == chapters[..i];
        manifest := manifest + [ChapterItem(chapters[i])];
      }
      assert chapters[..|chapters|] == chapters;
      assert manifest == [NavItem, CssItem] + coverItems + MapSeq(chapters, ChapterItem);
    }

    /** The spine list of `_generate_content_opf`, listing the cover page only when the manifest does. */
    method BuildSpine(coverExists: bool) returns (spine: seq<string>)
      ensures spine == Spine(config, chapters, coverExists)
    {
      spine := [];
      if CoverConfigured(config) && coverExists {
        spine := spine + ["cover"];
      }
      var head := spine;
      for i := 0 to |chapters|
        invariant spine == head + MapSeq(chapters[..i], IdOf)
      {
        assert chapters[..i + 1][..i] == chapters[..i];
        spine := spine + [chapters[i].id];
      }
      assert chapters[..|chapters|] == chapters;
    }

    /**
      `_generate_content_opf`: the package document for the current chapters.
      `coverExists` is the existence test on the cover path; `today` and `now`
      are the two formatted clock readings.
    */
    method GenerateContentOpf(coverExists: bool, today: string, now: string)
      modifies this
      ensures packageDoc == Some(PackageOf(config, bookId, chapters, coverExists, today, now))
      ensures chapters == old(chapters) && pages == old(pages) && navigation == old(navigation)
    {
      var manifest := BuildManifest(coverExists);
      var spine := BuildSpine(coverExists);
      var publisher := Publisher(config);
      packageDoc := Some(PackageDocument(
        config.language, "urn:uuid:" + bookId, EscapeXml(config.title), EscapeXml(config.author),
        EscapeXml(publisher), today, now + "Z", CoverMeta(config, coverExists), manifest, spine));
    }

    /** The table-of-contents list of `_generate_nav_xhtml`, listing the cover page only when the manifest does. */
    method BuildToc(coverExists: bool) returns (toc: seq<TocEntry>)
      ensures toc == Toc(config, chapters, coverExists)
    {
      toc := [];
      if CoverConfigured(config) && coverExists {
        toc := toc + [CoverTocEntry];
      }
      var head := toc;
      for i := 0 to |chapters|
        invariant toc == head + MapSeq(chapters[..i], TocOf)
      {
        assert chapters[..i + 1][..i] == chapters[..i];
        toc := toc + [TocEntry(chapters[i].href, EscapeXml(chapters[i].title))];
      }
      assert chapters[..|chapters|] == chapters;
    }

    /** The landmarks list of `_generate_nav_xhtml`, listing the cover page only when the manifest does. */
    method BuildLandmarks(coverExists: bool) returns (landmarks: seq<Landmark>)
      ensures landmarks == Landmarks(config, chapters, coverExists)
    {
      landmarks := [];
      if CoverConfigured(config) && coverExists {
        landmarks := landmarks + [CoverLandmark];
      }
      landmarks := landmarks + [TocLandmark];
      if chapters != [] {
        landmarks := landmarks + [Landmark("bodymatter", chapters[0].href, "Start Reading")];
      }
    }

    /**
      `_generate_nav_xhtml`: the navigation document for the current chapters.
      `coverExists` is the manifest's existence test on the cover path.
    */
    method GenerateNavXhtml(coverExists: bool)
      modifies this
      ensures navigation == Some(NavDocument(config.language, Toc(config, chapters, coverExists), Landmarks(config, chapters, coverExists)))
      ensures chapters == old(chapters) && pages == old(pages) && packageDoc == old(packageDoc)
    {
      var toc := BuildToc(coverExists);
      var landmarks := BuildLandmarks(coverExists);
      navigation := Some(NavDocument(config.language, toc, landmarks));
    }

    /**
      `_consolidate_chapters`: the discovered chapters' stripped texts joined
      by a horizontal rule; the text is what is written to the output file.
    */
    method ConsolidateChapters(dir: seq<SourceFile>) returns (r: Result<string, DiscoveryError>)
      ensures Discover(dir).Failure? ==> r == Failure(Discover(dir).error)
      ensures Discover(dir).Success? ==> r == Success(Joined(MapSeq(Discover(dir).value, StripText), Separator))
    {
      var found := Discover(dir);
      if found.Failure? {
        return Failure(found.error);
      }
      var files := found.value;
      var consolidated: seq<string> := [];
      for i := 0 to |files|
        invariant Concat(consolidated) == Joined(MapSeq(files[..i], StripText), Separator)
      {
        var idx := i + 1;
        var content := Strip(files[i].text);
        ghost var before := consolidated;
        if idx > 1 {
          consolidated := consolidated + [Separator];
        }
        consolidated := consolidated + [content];
        MapSeqStep(files, StripText, i);
        MapSeqAt(files[..i], StripText);
        JoinStep(before, MapSeq(files[..i], StripText), content, Separator);
      }
      assert files[..|files|] == files;
      r := Success(Concat(consolidated));
    }

    /**
      `_package_epub`: `walk` is the staged files' paths relative to the
      staging directory, in `os.walk` order.
    */
    method PackageEpub(walk: seq<string>) returns (entries: seq<ZipEntry>)
      ensures entries == PackageEntries(walk)
      ensures |entries| >= 1 && entries[0] == ZipEntry("mimetype", Stored)
      ensures forall i :: 1 <= i < |entries| ==> entries[i].compression == Deflated && Basename(entries[i].path) != "mimetype"
      ensures forall p :: p in walk && Basename(p) != "mimetype" <==> ZipEntry(p, Deflated) in entries[1..]
    {
      entries := [ZipEntry("mimetype", Stored)];
      ghost var head := entries;
      for i := 0 to |walk|
        invariant entries == head + MapSeq(OtherFiles(walk[..i]), DeflatedEntry)
      {
        ghost var kept := OtherFiles(walk[..i]);
        OtherFilesStep(walk, i);
        if Basename(walk[i]) == "mimetype" {
          assert OtherFiles(walk[..i + 1]) == kept;
          continue;
        }
        MapSeqAppend(kept, DeflatedEntry, walk[i]);
        entries := entries + [ZipEntry(walk[i], Deflated)];
        assert OtherFiles(walk[..i + 1]) == kept + [walk[i]];
        assert entries == head + (MapSeq(kept, DeflatedEntry) + [DeflatedEntry(walk[i])]);
      }
      assert walk[..|walk|] == walk;
      PackageEntriesFacts(walk);
    }
  }
}
