/**
 * The format-side logic of `utils.py` that does not touch a file:
 * choosing the document type from a file name, cleaning the text blocks
 * read from a PDF page, and the rule by which the `.txt` and `.docx`
 * writers drop blank segments.
 *
 * File paths follow POSIX `os.path.splitext`: `/` is the only separator.
 */
module DocumentFormats {
  import opened Wrappers
  import opened Strings

  // ---------------------------------------------------------------------
  // get_document_type
  // ---------------------------------------------------------------------

  datatype DocType = Docx | Pdf | Txt

  /** The type string `get_document_type` returns. */
  function TypeName(t: DocType): string {
    match t
    case Docx => "docx"
    case Pdf => "pdf"
    case Txt => "txt"
  }

  /** `s.rfind(c)`: the last index holding `c`, or -1. */
  function RFind(s: string, c: char): (r: int)
    ensures -1 <= r < |s|
    ensures r >= 0 ==> s[r] == c
    ensures forall i :: r < i < |s| ==> s[i] != c
  {
    if s == [] then -1
    else if s[|s| - 1] == c then |s| - 1
    else RFind(s[..|s| - 1], c)
  }

  /**
   * `os.path.splitext(path)[1]`: from the last dot of the last path
   * component to the end, provided something other than a dot precedes
   * that dot within the component (so `.profile` has no extension).
   */
  function Extension(path: string): (ext: string)
    ensures ext == [] || (ext[0] == '.' && '.' !in ext[1..] && '/' !in ext)
    ensures |ext| <= |path| && ext == path[|path| - |ext|..]
  {
    var sep := RFind(path, '/');
    var dot := RFind(path, '.');
    if dot > sep && HasStem(path, sep, dot) then
      assert forall i :: dot < i < |path| ==> path[i] != '.' && path[i] != '/';
      path[dot..]
    else []
  }

  /** Something other than a dot lies strictly between `sep` and `dot`. */
  predicate HasStem(path: string, sep: int, dot: int)
    requires -1 <= sep && dot <= |path|
  {
    exists k :: sep + 1 <= k < dot && path[k] != '.'
  }

  /** `get_document_type`: the lowered extension picks the type; any other extension is an error. */
  function GetDocumentType(path: string): (r: Result<DocType, string>)
    ensures r.Ok? <==> LowerStr(Extension(path)) in {".docx", ".pdf", ".txt"}
    ensures r.Ok? ==> LowerStr(Extension(path)) == "." + TypeName(r.value)
    ensures r.Err? ==> r.error == "Unsupported file format: " + LowerStr(Extension(path))
  {
    var ext := LowerStr(Extension(path));
    if ext == ".docx" then Ok(Docx)
    else if ext == ".pdf" then Ok(Pdf)
    else if ext == ".txt" then Ok(Txt)
    else Err("Unsupported file format: " + ext)
  }

  /** A name whose last component has a stem and a final extension: only that last extension is taken. */
  lemma ExtensionOfName(stem: string, e: string)
    requires stem != [] && stem[|stem| - 1] != '/' && stem[|stem| - 1] != '.'
    requires '.' !in e && '/' !in e
    ensures Extension(stem + "." + e) == "." + e
  {
    var p := stem + "." + e;
    var d := |stem|;
    assert p[d] == '.';
    assert forall i :: d < i < |p| ==> p[i] == e[i - d - 1];
    assert RFind(p, '.') == d;
    assert RFind(p, '/') < d - 1 by {
      assert p[d - 1] == stem[d - 1];
    }
    assert p[d - 1] == stem[d - 1];
    assert p[d..] == "." + e;
  }

  /** A file named after a type, in any case, is recognised as that type. */
  lemma DocumentTypeOfName(stem: string, e: string, t: DocType)
    requires stem != [] && stem[|stem| - 1] != '/' && stem[|stem| - 1] != '.'
    requires '.' !in e && '/' !in e
    requires LowerStr(e) == TypeName(t)
    ensures GetDocumentType(stem + "." + e) == Ok(t)
  {
    var p := stem + "." + e;
    ExtensionOfName(stem, e);
    LowerStrCons('.', e);
    TypeFromExtension(p, t);
  }

  /** A file `stem.e` is accepted exactly when `e` is one of the three type names, in any case. */
  lemma DocumentTypeOfNameIff(stem: string, e: string)
    requires stem != [] && stem[|stem| - 1] != '/' && stem[|stem| - 1] != '.'
    requires '.' !in e && '/' !in e
    ensures GetDocumentType(stem + "." + e).Ok? <==> LowerStr(e) in {"docx", "pdf", "txt"}
  {
    ExtensionOfName(stem, e);
    LowerStrCons('.', e);
    var l := LowerStr(e);
    var ext := "." + l;
    assert LowerStr(Extension(stem + "." + e)) == ext;
    assert ext[1..] == l;
    assert ".docx"[1..] == "docx" && ".pdf"[1..] == "pdf" && ".txt"[1..] == "txt";
  }

  lemma LowerStrCons(c: char, s: string)
    ensures LowerStr([c] + s) == [Lower(c)] + LowerStr(s)
  {
  }

  lemma DotTypeName(t: DocType)
    ensures "." + TypeName(t) == match t case Docx => ".docx" case Pdf => ".pdf" case Txt => ".txt"
  {
  }

  lemma TypeFromExtension(path: string, t: DocType)
    requires LowerStr(Extension(path)) == "." + TypeName(t)
    ensures GetDocumentType(path) == Ok(t)
  {
    DotTypeName(t);
  }

  /** `a.txt.PDF` is a PDF: the last extension decides, ignoring case. */
  lemma LastExtensionDecides()
    ensures GetDocumentType("a.txt.PDF") == Ok(Pdf)
  {
    var e := "PDF";
    assert LowerStr(e) == "pdf" by {
      var l := LowerStr(e);
      assert l[0] == Lower('P') == 'p';
      assert l[1] == Lower('D') == 'd';
      assert l[2] == Lower('F') == 'f';
    }
    assert "a.txt.PDF" == "a.txt" + "." + e;
    DocumentTypeOfName("a.txt", e, Pdf);
  }

  /** A name made only of a leading dot and a word has no extension, so it is refused. */
  lemma DotFileIsRefused(e: string)
    requires '.' !in e && '/' !in e
    ensures GetDocumentType("." + e) == Err("Unsupported file format: ")
  {
    var p := "." + e;
    assert p[0] == '.';
    assert forall i :: 0 < i < |p| ==> p[i] == e[i - 1] && e[i - 1] in e;
    assert RFind(p, '.') == 0;
    assert Extension(p) == [];
    assert LowerStr([]) == [];
    assert "Unsupported file format: " + [] == "Unsupported file format: ";
  }

  /** A name with no dot at all has no extension, so it is refused. */
  lemma NoExtensionIsRefused(path: string)
    requires '.' !in path
    ensures GetDocumentType(path) == Err("Unsupported file format: ")
  {
    assert forall i :: 0 <= i < |path| ==> path[i] in path;
    assert RFind(path, '.') == -1;
    assert LowerStr([]) == [];
    assert "Unsupported file format: " + [] == "Unsupported file format: ";
  }

  lemma RFindOfLower(s: string, c: char)
    requires c == '.' || c == '/'
    ensures RFind(LowerStr(s), c) == RFind(s, c)
  {
    var l := LowerStr(s);
    assert forall i :: 0 <= i < |s| ==> (l[i] == c <==> s[i] == c);
  }

  lemma ExtensionOfLower(path: string)
    ensures Extension(LowerStr(path)) == LowerStr(Extension(path))
  {
    var l := LowerStr(path);
    RFindOfLower(path, '.');
    RFindOfLower(path, '/');
    var sep := RFind(path, '/');
    var dot := RFind(path, '.');
    if dot > sep {
      HasStemOfLower(path, sep, dot);
      if HasStem(path, sep, dot) {
        assert LowerStr(path[dot..]) == l[dot..];
      }
    }
  }

  lemma HasStemOfLower(path: string, sep: int, dot: int)
    requires -1 <= sep && dot <= |path|
    ensures HasStem(LowerStr(path), sep, dot) <==> HasStem(path, sep, dot)
  {
    var l := LowerStr(path);
    assert forall k :: 0 <= k < |path| ==> (l[k] != '.' <==> path[k] != '.');
  }

  lemma LowerStrIdempotent(s: string)
    ensures LowerStr(LowerStr(s)) == LowerStr(s)
  {
  }

  /** The type does not depend on the case of the name. */
  lemma DocumentTypeIgnoresCase(path: string)
    ensures GetDocumentType(LowerStr(path)) == GetDocumentType(path)
  {
    ExtensionOfLower(path);
    LowerStrIdempotent(Extension(path));
  }

  // ---------------------------------------------------------------------
  // extract_pdf_content: block clean-up
  // ---------------------------------------------------------------------

  /** `re.sub(r'\s+', ' ', s)`: each run of whitespace becomes one space. */
  function CollapseSpaces(s: string): (r: string)
    ensures |r| <= |s|
    ensures r == [] <==> s == []
    decreases |s|
  {
    if s == [] then []
    else if IsSpace(s[0]) then " " + CollapseSpaces(s[LeadSpan(s)..])
    else [s[0]] + CollapseSpaces(s[1..])
  }

  /** Whitespace survives collapsing only as single spaces, none followed by more whitespace. */
  predicate SpacesCollapsed(r: string) {
    forall i :: 0 <= i < |r| && IsSpace(r[i]) ==> r[i] == ' ' && (i + 1 == |r| || !IsSpace(r[i + 1]))
  }

  lemma {:induction false} CollapseSpacesSingle(s: string)
    ensures SpacesCollapsed(CollapseSpaces(s))
    decreases |s|
  {
    if s != [] {
      if IsSpace(s[0]) {
        var t := s[LeadSpan(s)..];
        CollapseSpacesSingle(t);
        assert t != [] ==> CollapseSpaces(t)[0] == t[0];
      } else {
        CollapseSpacesSingle(s[1..]);
      }
    }
  }

  /**
   * `re.sub(r'\s+', ' ', text).strip()`: the same as `' '.join(text.split())`,
   * so the block's words, in order, separated by single spaces.
   */
  function CleanBlock(text: string): (r: string)
    ensures r == Join(SplitWords(text))
    ensures r == [] <==> IsBlank(text)
    ensures r != [] ==> !IsSpace(r[0]) && !IsSpace(r[|r| - 1])
    ensures SingleSpaced(r)
  {
    CleanBlockIsJoin(text);
    SplitWordsAreWords(text);
    JoinEnds(SplitWords(text));
    JoinSingleSpaced(SplitWords(text));
    SplitWordsEmpty(text);
    Strip(CollapseSpaces(text))
  }

  lemma {:induction false} CollapseWord(w: string, rest: string)
    requires !HasSpace(w)
    ensures CollapseSpaces(w + rest) == w + CollapseSpaces(rest)
    decreases |w|
  {
    if w != [] {
      assert !IsSpace(w[0]);
      assert (w + rest)[0] == w[0];
      assert (w + rest)[1..] == w[1..] + rest;
      assert !HasSpace(w[1..]) by {
        forall i | 0 <= i < |w[1..]| ensures !IsSpace(w[1..][i]) {
          assert w[1..][i] == w[i + 1];
        }
      }
      CollapseWord(w[1..], rest);
      assert w == [w[0]] + w[1..];
    } else {
      assert w + rest == rest;
    }
  }

  /** One space when `s` ends in whitespace, otherwise nothing. */
  function TrailingSpace(s: string): string {
    if s != [] && IsSpace(s[|s| - 1]) then " " else ""
  }

  /** A block that starts with a word collapses to its joined words, plus one space if it ends in whitespace. */
  lemma {:induction false} CollapseFromWord(s: string)
    requires s == [] || !IsSpace(s[0])
    ensures CollapseSpaces(s) == Join(SplitWords(s)) + TrailingSpace(s)
    decreases |s|, 1
  {
    if s != [] {
      var k := WordSpan(s);
      var w, rest := s[..k], s[k..];
      assert s == w + rest;
      assert !HasSpace(w) by {
        forall i | 0 <= i < |w| ensures !IsSpace(w[i]) { assert w[i] == s[i]; }
      }
      CollapseWord(w, rest);
      SplitWordsFirst(w, rest);
      CollapseAfterWord(rest);
      JoinCons(w, SplitWords(rest));
      TrailingSpaceAfterWord(w, rest);
      Regroup(w, Spaced(SplitWords(rest)), TrailingSpace(rest));
    }
  }

  /** A space before each of the words, joined: what follows a word in a collapsed block. */
  function Spaced(ws: seq<string>): string {
    if ws == [] then "" else " " + Join(ws)
  }

  /** What follows a word collapses to a space before each further word, plus the trailing space. */
  lemma {:induction false} CollapseAfterWord(rest: string)
    requires rest == [] || IsSpace(rest[0])
    ensures CollapseSpaces(rest) == Spaced(SplitWords(rest)) + TrailingSpace(rest)
    decreases |rest|, 0
  {
    if rest != [] {
      var a := LeadSpan(rest);
      var r2 := rest[a..];
      CollapseLeading(rest);
      SplitWordsSkipsSpaces(rest);
      assert CollapseSpaces(rest) == " " + CollapseSpaces(r2);
      if r2 != [] {
        SplitWordsEmpty(r2);
        TrailingSpaceOfSuffix(rest, a);
        CollapseFromWord(r2);
        Regroup(" ", Join(SplitWords(r2)), TrailingSpace(r2));
      } else {
        BlankCollapse(rest);
      }
    }
  }

  /** `' '.join([w] + ws)`: the first word, then a space before each further word. */
  lemma JoinCons(w: string, ws: seq<string>)
    ensures Join([w] + ws) == w + Spaced(ws)
  {
    assert ([w] + ws)[1..] == ws;
    if ws == [] {
      assert w + "" == w;
    }
  }

  lemma BlankCollapse(rest: string)
    requires rest != [] && LeadSpan(rest) == |rest|
    ensures CollapseSpaces(rest) == Spaced(SplitWords(rest)) + TrailingSpace(rest)
  {
    assert rest[|rest|..] == [];
    assert TrailingSpace(rest) == " ";
  }

  lemma TrailingSpaceAfterWord(w: string, rest: string)
    requires w != [] && !HasSpace(w)
    ensures TrailingSpace(w + rest) == TrailingSpace(rest)
  {
    if rest == [] {
      assert w + rest == w;
    } else {
      assert (w + rest)[|w + rest| - 1] == rest[|rest| - 1];
    }
  }

  lemma TrailingSpaceOfSuffix(s: string, a: nat)
    requires a < |s|
    ensures TrailingSpace(s[a..]) == TrailingSpace(s)
  {
    assert s[a..][|s| - a - 1] == s[|s| - 1];
  }

  lemma Regroup(a: string, b: string, c: string)
    ensures a + (b + c) == (a + b) + c
  {
  }

  /** Leading whitespace collapses to one space, or to nothing when there is none. */
  lemma CollapseLeading(s: string)
    ensures CollapseSpaces(s) == (if LeadSpan(s) == 0 then "" else " ") + CollapseSpaces(s[LeadSpan(s)..])
  {
    if LeadSpan(s) == 0 {
      assert s[0..] == s;
    }
  }

  /** Words joined and padded with whitespace strip back to the joined words. */
  lemma StripJoined(pad: string, ws: seq<string>, tail: string)
    requires IsBlank(pad) && IsBlank(tail) && AreWords(ws)
    ensures Strip(pad + (Join(ws) + tail)) == Join(ws)
  {
    JoinEnds(ws);
    StripPadded(pad, Join(ws), tail);
    assert pad + (Join(ws) + tail) == pad + Join(ws) + tail;
  }

  /** A collapsed block is its joined words with at most one space on either side. */
  lemma CollapseShape(s: string) returns (pad: string, tail: string)
    ensures IsBlank(pad) && IsBlank(tail)
    ensures CollapseSpaces(s) == pad + (Join(SplitWords(s)) + tail)
  {
    var r := s[LeadSpan(s)..];
    CollapseLeading(s);
    CollapseFromWord(r);
    SplitWordsSkipsSpaces(s);
    pad := if LeadSpan(s) == 0 then "" else " ";
    tail := TrailingSpace(r);
  }

  lemma CleanBlockIsJoin(s: string)
    ensures Strip(CollapseSpaces(s)) == Join(SplitWords(s))
  {
    var pad, tail := CollapseShape(s);
    SplitWordsAreWords(s);
    StripJoined(pad, SplitWords(s), tail);
  }

  /** Cleaning a cleaned block changes nothing. */
  lemma CleanBlockIdempotent(s: string)
    ensures CleanBlock(CleanBlock(s)) == CleanBlock(s)
  {
    SplitWordsAreWords(s);
    SplitJoin(SplitWords(s));
  }

  /** Cleaning keeps the block's words, in order. */
  lemma CleanBlockKeepsWords(s: string)
    ensures SplitWords(CleanBlock(s)) == SplitWords(s)
  {
    SplitWordsAreWords(s);
    SplitJoin(SplitWords(s));
  }

  /** The texts one page contributes: each block cleaned, the empty ones dropped. */
  function PageTexts(blocks: seq<string>): (r: seq<string>)
    ensures |r| <= |blocks|
    ensures forall t :: t in r ==> t != [] && exists b :: b in blocks && t == CleanBlock(b)
  {
    if blocks == [] then []
    else
      var rest := PageTexts(blocks[..|blocks| - 1]);
      var b := blocks[|blocks| - 1];
      var t := CleanBlock(b);
      assert forall x :: x in blocks[..|blocks| - 1] ==> x in blocks;
      if t != [] then rest + [t] else rest
  }

  /** The texts of a whole document: page by page, in order. */
  function PdfTexts(pages: seq<seq<string>>): seq<string>
  {
    if pages == [] then []
    else PdfTexts(pages[..|pages| - 1]) + PageTexts(pages[|pages| - 1])
  }

  /** The block loop of `extract_pdf_content` for one page. */
  method CleanPage(blocks: seq<string>) returns (texts: seq<string>)
    ensures texts == PageTexts(blocks)
  {
    texts := [];
    var b := 0;
    while b < |blocks|
      invariant 0 <= b <= |blocks|
      invariant texts == PageTexts(blocks[..b])
    {
      var text := CleanBlock(blocks[b]);
      if text != [] {
        texts := texts + [text];
      }
      assert blocks[..b + 1][..b] == blocks[..b];
      b := b + 1;
    }
    assert blocks[..b] == blocks;
  }

  /** The text half of `extract_pdf_content`, over the text of every block of every page. */
  method ExtractPdfTexts(pages: seq<seq<string>>) returns (texts: seq<string>)
    ensures texts == PdfTexts(pages)
  {
    texts := [];
    var p := 0;
    while p < |pages|
      invariant 0 <= p <= |pages|
      invariant texts == PdfTexts(pages[..p])
    {
      var pageTexts := CleanPage(pages[p]);
      texts := texts + pageTexts;
      assert pages[..p + 1][..p] == pages[..p];
      p := p + 1;
    }
    assert pages[..p] == pages;
  }

  /** Block order is kept: the texts of two runs of blocks are the texts of each, concatenated. */
  lemma {:induction false} PageTextsAppend(a: seq<string>, b: seq<string>)
    ensures PageTexts(a + b) == PageTexts(a) + PageTexts(b)
    decreases |b|
  {
    if b == [] {
      assert a + b == a;
    } else {
      var b' := b[..|b| - 1];
      assert (a + b)[..|a + b| - 1] == a + b';
      assert (a + b)[|a + b| - 1] == b[|b| - 1];
      PageTextsAppend(a, b');
    }
  }

  /** One block gives its cleaned text, or nothing when it is blank. */
  lemma PageTextsSingle(b: string)
    ensures PageTexts([b]) == if IsBlank(b) then [] else [CleanBlock(b)]
  {
    assert [b][..0] == [];
  }

  /** Every text taken from a PDF is a non-empty, cleaned block. */
  lemma {:induction false} PdfTextsAreClean(pages: seq<seq<string>>)
    ensures forall t :: t in PdfTexts(pages) ==>
      t != [] && !IsSpace(t[0]) && !IsSpace(t[|t| - 1]) && SingleSpaced(t) && CleanBlock(t) == t
  {
    if pages != [] {
      PdfTextsAreClean(pages[..|pages| - 1]);
      forall b | b in pages[|pages| - 1] {
        CleanBlockIdempotent(b);
      }
    }
  }

  // ---------------------------------------------------------------------
  // save_txt and save_docx: blank segments are dropped
  // ---------------------------------------------------------------------

  /** The segments whose `strip()` is non-empty, in order. */
  function NonBlank(texts: seq<string>): (r: seq<string>)
    ensures |r| <= |texts|
  {
    if texts == [] then []
    else
      var rest := NonBlank(texts[..|texts| - 1]);
      var t := texts[|texts| - 1];
      if Strip(t) != [] then rest + [t] else rest
  }

  /** Every non-blank segment survives as often as it occurs, and no blank one does. */
  lemma {:induction false} NonBlankCounts(texts: seq<string>, t: string)
    ensures multiset(NonBlank(texts))[t] == if IsBlank(t) then 0 else multiset(texts)[t]
  {
    if texts != [] {
      var init, last := texts[..|texts| - 1], texts[|texts| - 1];
      NonBlankCounts(init, t);
      InitLast(texts);
      assert multiset(texts) == multiset(init) + multiset{last};
      if Strip(last) != [] {
        assert multiset(NonBlank(texts)) == multiset(NonBlank(init)) + multiset{last};
      }
    }
  }

  /** Order is kept: selecting from two runs of segments is selecting from each, concatenated. */
  lemma {:induction false} NonBlankAppend(a: seq<string>, b: seq<string>)
    ensures NonBlank(a + b) == NonBlank(a) + NonBlank(b)
    decreases |b|
  {
    if b == [] {
      assert a + b == a;
    } else {
      var b' := b[..|b| - 1];
      assert (a + b)[..|a + b| - 1] == a + b';
      NonBlankAppend(a, b');
    }
  }

  /** One more segment considered: it is kept exactly when it is not blank. */
  lemma NonBlankNext(texts: seq<string>, i: nat)
    requires i < |texts|
    ensures NonBlank(texts[..i + 1])
            == if Strip(texts[i]) != [] then NonBlank(texts[..i]) + [texts[i]] else NonBlank(texts[..i])
  {
    assert texts[..i + 1][..i] == texts[..i];
  }

  /** The lines written to the `.txt` file for the given segments: each followed by a newline. */
  function Lines(texts: seq<string>): (r: seq<string>)
    ensures |r| == |texts|
  {
    if texts == [] then [] else Lines(texts[..|texts| - 1]) + [texts[|texts| - 1] + "\n"]
  }

  /** Line `i` is segment `i` and a newline. */
  lemma {:induction false} LinesAt(texts: seq<string>, i: nat)
    requires i < |texts|
    ensures Lines(texts)[i] == texts[i] + "\n"
  {
    if i < |texts| - 1 {
      LinesAt(texts[..|texts| - 1], i);
    }
  }

  /** One step of the `save_txt` loop keeps the lines written so far equal to those of the prefix. */
  lemma LinesNext(texts: seq<string>, i: nat, writes: seq<string>)
    requires i < |texts| && writes == Lines(NonBlank(texts[..i]))
    ensures (if Strip(texts[i]) != [] then writes + [texts[i] + "\n"] else writes) == Lines(NonBlank(texts[..i + 1]))
  {
    NonBlankNext(texts, i);
    if Strip(texts[i]) != [] {
      var kept := NonBlank(texts[..i]) + [texts[i]];
      assert kept[..|kept| - 1] == NonBlank(texts[..i]);
    }
  }

  /** `save_txt`: the sequence of strings handed to `file.write`, in order. */
  method SaveTxt(texts: seq<string>) returns (writes: seq<string>)
    ensures writes == Lines(NonBlank(texts))
  {
    writes := [];
    for i := 0 to |texts|
      invariant writes == Lines(NonBlank(texts[..i]))
    {
      var text := texts[i];
      LinesNext(texts, i, writes);
      if Strip(text) != [] {
        writes := writes + [text + "\n"];
      }
    }
    assert texts[..|texts|] == texts;
  }

  /** A body element of the `.docx` file. */
  datatype DocxBlock<T> = Paragraph(text: string) | Picture(image: T)

  /** One paragraph per segment, in order. */
  function Paragraphs<T>(texts: seq<string>): (r: seq<DocxBlock<T>>)
    ensures |r| == |texts|
  {
    if texts == [] then [] else Paragraphs(texts[..|texts| - 1]) + [Paragraph(texts[|texts| - 1])]
  }

  /** Paragraph `i` holds segment `i`. */
  lemma {:induction false} ParagraphsAt<T>(texts: seq<string>, i: nat)
    requires i < |texts|
    ensures Paragraphs<T>(texts)[i] == Paragraph(texts[i])
  {
    if i < |texts| - 1 {
      ParagraphsAt<T>(texts[..|texts| - 1], i);
    }
  }

  /** One picture per image, in order. */
  function Pictures<T>(images: seq<T>): (r: seq<DocxBlock<T>>)
    ensures |r| == |images|
  {
    if images == [] then [] else Pictures(images[..|images| - 1]) + [Picture(images[|images| - 1])]
  }

  /** Picture `i` holds image `i`. */
  lemma {:induction false} PicturesAt<T>(images: seq<T>, i: nat)
    requires i < |images|
    ensures Pictures(images)[i] == Picture(images[i])
  {
    if i < |images| - 1 {
      PicturesAt(images[..|images| - 1], i);
    }
  }

  lemma PicturesNext<T>(images: seq<T>, j: nat)
    requires j < |images|
    ensures Pictures(images[..j + 1]) == Pictures(images[..j]) + [Picture(images[j])]
  {
    assert images[..j + 1][..j] == images[..j];
  }

  /** One step of the paragraph loop of `save_docx`. */
  lemma ParagraphsNext<T>(texts: seq<string>, i: nat, body: seq<DocxBlock<T>>)
    requires i < |texts| && body == Paragraphs(NonBlank(texts[..i]))
    ensures (if Strip(texts[i]) != [] then body + [Paragraph(texts[i])] else body) == Paragraphs<T>(NonBlank(texts[..i + 1]))
  {
    NonBlankNext(texts, i);
    if Strip(texts[i]) != [] {
      var kept := NonBlank(texts[..i]) + [texts[i]];
      assert kept[..|kept| - 1] == NonBlank(texts[..i]);
    }
  }

  /** The paragraph loop of `save_docx`. */
  method AddParagraphs<T>(texts: seq<string>) returns (body: seq<DocxBlock<T>>)
    ensures body == Paragraphs(NonBlank(texts))
  {
    body := [];
    for i := 0 to |texts|
      invariant body == Paragraphs(NonBlank(texts[..i]))
    {
      var text := texts[i];
      ParagraphsNext(texts, i, body);
      if Strip(text) != [] {
        body := body + [Paragraph(text)];
      }
    }
    assert texts[..|texts|] == texts;
  }

  /** `save_docx`: the document body, a paragraph per non-blank segment and then a picture per image. */
  method SaveDocx<T>(texts: seq<string>, images: seq<T>) returns (body: seq<DocxBlock<T>>)
    ensures body == Paragraphs(NonBlank(texts)) + Pictures(images)
  {
    body := AddParagraphs(texts);
    ghost var paragraphs := body;
    for j := 0 to |images|
      invariant body == paragraphs + Pictures(images[..j])
    {
      PicturesNext(images, j);
      body := body + [Picture(images[j])];
    }
    assert images[..|images|] == images;
  }
}
