/**
 * search-implementation2.js: two walks over two separate trees that fill one index. First
 * the PDF tree below PDF_DIRECTORY is crawled, one record per readable PDF, each linking to
 * the HTML rendering at the same relative place below HTML_DIRECTORY; then the HTML tree is
 * crawled for listing pages (index.html, one record per anchor).
 *
 * Both walks stand at a directory given by its path segments below the walk's root. Directory
 * entries never contain '/', so path.relative(PDF_DIRECTORY, dirPath) is those segments joined
 * with '/', and path.join(HTML_DIRECTORY, …), with HTML_DIRECTORY the current directory "./",
 * normalises to the segments joined with '/'.
 */
module SearchImplementation2 {
  import opened Strings
  import opened Corpus

  /** The position of an entry inside the directory at `rel`. */
  function Below(rel: seq<string>, name: string): seq<string>
  {
    rel + [name]
  }

  /** The normalised path of the place `segments` below HTML_DIRECTORY. */
  function HtmlPath(segments: seq<string>): string
  {
    JoinWith(segments, "/")
  }

  /** The link of the PDF `name` in the PDF directory at `rel`: the same place in the HTML tree. */
  function HtmlFilePath(rel: seq<string>, name: string): string
  {
    HtmlPath(rel + [ReplaceFirst(name, ".pdf", ".html")])
  }

  /** The record a PDF contributes, or none when reading or parsing it fails. */
  function PdfRecords(rel: seq<string>, name: string, data: FileData): seq<Document>
  {
    var text := PdfText(data);
    if text.None? then []
    else [Document(ReplaceFirst(name, ".pdf", ""), HtmlFilePath(rel, name), text)]
  }

  /** The loop body of crawlPDFDirectory. Every failure is caught inside the loop or below it. */
  function PdfClassify(rel: seq<string>, e: Node): Action
  {
    if e.Dir? then (if Descends(e.name) then Descend else Emit([]))
    else if EndsWith(e.name, ".pdf") then Emit(PdfRecords(rel, e.name, e.data))
    else Emit([])
  }

  /** The loop body of collectIndexFiles: reading index.html is not guarded inside the loop. */
  function IndexClassify(rel: seq<string>, e: Node): Action
  {
    if e.Dir? then (if Descends(e.name) then Descend else Emit([]))
    else if e.name == "index.html" then
      (if e.data.readable then Emit(ListingRecords(HtmlPath(rel + [e.name]), e.data)) else Abort)
    else Emit([])
  }

  /** What crawlPDFDirectory appends for the directory `dir` at `rel` below PDF_DIRECTORY. */
  function PdfPhase(rel: seq<string>, dir: Node): seq<Document>
  {
    Crawl(PdfClassify, Below, rel, dir)
  }

  /** What collectIndexFiles appends for the directory `dir` at `rel` below HTML_DIRECTORY. */
  function IndexPhase(rel: seq<string>, dir: Node): seq<Document>
  {
    Crawl(IndexClassify, Below, rel, dir)
  }

  /** The whole index: every PDF record, then every listing record. */
  function Index(pdfRoot: Node, htmlRoot: Node): seq<Document>
  {
    PdfPhase([], pdfRoot) + IndexPhase([], htmlRoot)
  }

  /** The state generateSearchIndex shares with its two nested walks. */
  class Generator {
    var searchIndex: seq<Document>

    constructor ()
      ensures searchIndex == []
    {
      searchIndex := [];
    }

    method CrawlPdfDirectory(rel: seq<string>, dir: Node)
      modifies this
      ensures searchIndex == old(searchIndex) + PdfPhase(rel, dir)
      decreases dir, 0
    {
      if !(dir.Dir? && dir.listable) {
        return;  // fs.readdir throws; the catch logs it
      }
      var entries := dir.entries;
      var i := 0;
      ghost var total := searchIndex + PdfPhase(rel, dir);
      assert entries[i..] == entries;
      while i < |entries|
        invariant 0 <= i <= |entries|
        invariant total == old(searchIndex) + PdfPhase(rel, dir)
        invariant total == searchIndex + CrawlEntries(PdfClassify, Below, rel, entries[i..])
      {
        CrawlEntriesLoopStep(PdfClassify, Below, rel, entries, i, searchIndex, total);
        VisitPdfEntry(rel, entries[i]);
        i := i + 1;
      }
      assert entries[i..] == [];
    }

    /** The loop body of crawlPDFDirectory for one entry; it never leaves the loop. */
    method VisitPdfEntry(rel: seq<string>, entry: Node)
      modifies this
      ensures searchIndex == old(searchIndex) + EntryRecords(PdfClassify, Below, rel, entry)
      decreases entry, 1
    {
      if entry.Dir? {
        if Descends(entry.name) {
          CrawlPdfDirectory(rel + [entry.name], entry);
        }
      } else if EndsWith(entry.name, ".pdf") {
        var pdfData := PdfText(entry.data);
        if pdfData.Some? {
          var relativePath := rel;
          var htmlFilePath := HtmlPath(relativePath + [ReplaceFirst(entry.name, ".pdf", ".html")]);
          searchIndex := searchIndex + [Document(ReplaceFirst(entry.name, ".pdf", ""), htmlFilePath, pdfData)];
        }
        // otherwise the inner catch logs the failure and the loop goes on
      }
    }

    method CollectIndexFiles(rel: seq<string>, dir: Node)
      modifies this
      ensures searchIndex == old(searchIndex) + IndexPhase(rel, dir)
      decreases dir, 0
    {
      if !(dir.Dir? && dir.listable) {
        return;  // fs.readdir throws; the catch logs it
      }
      var entries := dir.entries;
      var i := 0;
      ghost var total := searchIndex + IndexPhase(rel, dir);
      assert entries[i..] == entries;
      while i < |entries|
        invariant 0 <= i <= |entries|
        invariant total == old(searchIndex) + IndexPhase(rel, dir)
        invariant total == searchIndex + CrawlEntries(IndexClassify, Below, rel, entries[i..])
      {
        CrawlEntriesLoopStep(IndexClassify, Below, rel, entries, i, searchIndex, total);
        var aborted := VisitIndexEntry(rel, entries[i]);
        if aborted {
          return;  // the exception leaves the loop; the catch logs it
        }
        i := i + 1;
      }
      assert entries[i..] == [];
    }

    /** The loop body of collectIndexFiles for one entry; `aborted` when reading index.html throws. */
    method VisitIndexEntry(rel: seq<string>, entry: Node) returns (aborted: bool)
      modifies this
      ensures aborted == IndexClassify(rel, entry).Abort?
      ensures searchIndex == old(searchIndex) + EntryRecords(IndexClassify, Below, rel, entry)
      decreases entry, 1
    {
      aborted := false;
      var fullPath := HtmlPath(rel + [entry.name]);
      if entry.Dir? {
        if Descends(entry.name) {
          CollectIndexFiles(rel + [entry.name], entry);
        }
      } else if entry.name == "index.html" {
        if !entry.data.readable {
          aborted := true;  // fs.readFile throws
          return;
        }
        var titles := ExtractTitlesFromIndex(entry.data);
        var path := ReplaceFirst(fullPath, "index.html", "");
        var docs := seq(|titles|, k requires 0 <= k < |titles| => Document(titles[k], path, None));
        assert docs == ListingRecords(fullPath, entry.data);
        searchIndex := searchIndex + docs;
      }
    }
  }

  /** generateSearchIndex: the PDF phase from PDF_DIRECTORY, then the listing phase from HTML_DIRECTORY. */
  method GenerateSearchIndex(pdfRoot: Node, htmlRoot: Node) returns (searchIndex: seq<Document>)
    ensures searchIndex == Index(pdfRoot, htmlRoot)
  {
    var generator := new Generator();
    generator.CrawlPdfDirectory([], pdfRoot);
    generator.CollectIndexFiles([], htmlRoot);
    searchIndex := generator.searchIndex;
  }

  // ---------------------------------------------------------------------------
  // Properties of the two phases.
  // ---------------------------------------------------------------------------

  predicate HasContent(d: Document)
  {
    d.content.Some?
  }

  predicate IsListing(d: Document)
  {
    d.content.None?
  }

  /**
   * Every record of the PDF phase is the record of one readable PDF file of the tree: the
   * file's name without ".pdf" as title, the HTML rendering at the same place as path, and the
   * PDF's text as content.
   */
  lemma PdfPhaseHasContent(rel: seq<string>, dir: Node)
    ensures forall d <- PdfPhase(rel, dir) :: d.content.Some?
    ensures forall d <- PdfPhase(rel, dir) :: exists place, name, data ::
      && InTree(Below, rel, dir, place, File(name, data))
      && EndsWith(name, ".pdf") && PdfText(data).Some?
      && d == Document(ReplaceFirst(name, ".pdf", ""), HtmlFilePath(place, name), PdfText(data))
  {
    assert EmitsOnly(PdfClassify, HasContent);
    CrawlOnly(PdfClassify, Below, HasContent, rel, dir);
    forall d | d in PdfPhase(rel, dir)
      ensures exists place, name, data ::
        && InTree(Below, rel, dir, place, File(name, data))
        && EndsWith(name, ".pdf") && PdfText(data).Some?
        && d == Document(ReplaceFirst(name, ".pdf", ""), HtmlFilePath(place, name), PdfText(data))
    {
      CrawlFrom(PdfClassify, Below, rel, dir, d);
      var place: seq<string>, e: Node :| InTree(Below, rel, dir, place, e) && Emitted(PdfClassify, place, e, d);
      assert e == File(e.name, e.data);
    }
  }

  /** No record of the listing phase carries content. */
  lemma IndexPhaseHasNoContent(rel: seq<string>, dir: Node)
    ensures forall d <- IndexPhase(rel, dir) :: d.content.None?
  {
    forall at: seq<string>, e: Node, d: Document | IndexClassify(at, e).Emit? && d in IndexClassify(at, e).docs
      ensures IsListing(d)
    {
      if e.File? && e.name == "index.html" {
        ListingRecordsContent(HtmlPath(at + [e.name]), e.data, d);
      }
    }
    CrawlOnly(IndexClassify, Below, IsListing, rel, dir);
  }

  /**
   * The two phases do not interleave: the records with content (the PDFs) form a prefix of the
   * index, and every record after them is a listing record.
   */
  lemma PhasesInOrder(pdfRoot: Node, htmlRoot: Node)
    ensures var r := Index(pdfRoot, htmlRoot);
      var k := |PdfPhase([], pdfRoot)|;
      && (forall i :: 0 <= i < k ==> r[i].content.Some?)
      && (forall i :: k <= i < |r| ==> r[i].content.None?)
  {
    var p := PdfPhase([], pdfRoot);
    var q := IndexPhase([], htmlRoot);
    PdfPhaseHasContent([], pdfRoot);
    IndexPhaseHasNoContent([], htmlRoot);
    var r := p + q;
    forall i | 0 <= i < |p|
      ensures r[i].content.Some?
    {
      assert r[i] == p[i] && p[i] in p;
    }
    forall i | |p| <= i < |r|
      ensures r[i].content.None?
    {
      assert r[i] == q[i - |p|] && q[i - |p|] in q;
    }
  }

  /** Once a listing record appears, no PDF record follows. */
  lemma NoPdfAfterListing(pdfRoot: Node, htmlRoot: Node, i: int, j: int)
    requires 0 <= i < j < |Index(pdfRoot, htmlRoot)|
    requires Index(pdfRoot, htmlRoot)[i].content.None?
    ensures Index(pdfRoot, htmlRoot)[j].content.None?
  {
    PhasesInOrder(pdfRoot, htmlRoot);
  }

  /**
   * Re-rooting: a readable PDF named stem + ".pdf" (the stem not mentioning ".pdf") at `rel`
   * below PDF_DIRECTORY is indexed under its stem, linking to stem + ".html" at the same
   * relative place below HTML_DIRECTORY.
   */
  lemma PdfRelinked(rel: seq<string>, stem: string, data: FileData, text: string)
    requires !Includes(stem, ".pdf") && PdfText(data) == Some(text)
    ensures EntryRecords(PdfClassify, Below, rel, File(stem + ".pdf", data))
         == [Document(stem, HtmlPath(rel + [stem + ".html"]), Some(text))]
    ensures HtmlPath(rel + [stem + ".html"])
         == if rel == [] then stem + ".html" else HtmlPath(rel) + "/" + stem + ".html"
  {
    var name := stem + ".pdf";
    assert name[|name| - 4..] == ".pdf";
    ReplaceExtension(stem, ".pdf", "");
    ReplaceExtension(stem, ".pdf", ".html");
    assert stem + "" == stem;
    JoinWithSnoc(rel, stem + ".html", "/");
  }

  /** A hidden directory or node_modules below the PDF directory contributes nothing, whatever it holds. */
  lemma PdfPrunedDirectoryIgnored(rel: seq<string>, es1: seq<Node>, name: string, sub: Node, es2: seq<Node>)
    requires !Descends(name) && sub.Dir? && sub.name == name
    ensures CrawlEntries(PdfClassify, Below, rel, es1 + [sub] + es2) == CrawlEntries(PdfClassify, Below, rel, es1 + es2)
  {
    CrawlEntriesSkip(PdfClassify, Below, rel, es1, sub, es2);
  }

  /** The PDF phase never aborts a directory: sibling entries are always processed. */
  lemma PdfPhaseNeverAborts(rel: seq<string>, e: Node)
    ensures !PdfClassify(rel, e).Abort?
  {
  }

  /** A PDF that cannot be read or parsed, and any file that is not a PDF, contributes nothing. */
  lemma PdfSkipped(rel: seq<string>, es1: seq<Node>, name: string, data: FileData, es2: seq<Node>)
    requires !EndsWith(name, ".pdf") || PdfText(data).None?
    ensures CrawlEntries(PdfClassify, Below, rel, es1 + [File(name, data)] + es2)
         == CrawlEntries(PdfClassify, Below, rel, es1 + es2)
  {
    CrawlEntriesSkip(PdfClassify, Below, rel, es1, File(name, data), es2);
  }

  /** The PDF phase yields each directory's records in listing order. */
  lemma PdfTraversalOrder(rel: seq<string>, es1: seq<Node>, es2: seq<Node>)
    ensures CrawlEntries(PdfClassify, Below, rel, es1 + es2)
         == CrawlEntries(PdfClassify, Below, rel, es1) + CrawlEntries(PdfClassify, Below, rel, es2)
  {
    CrawlEntriesAppend(PdfClassify, Below, rel, es1, es2);
  }

  /**
   * A listing page at `rel` below HTML_DIRECTORY links to its directory: "" at the root, the
   * directory's path and a '/' below it (when no segment mentions "index.html").
   */
  lemma ListingLinksDirectory(rel: seq<string>, data: FileData)
    requires data.readable && !Includes(HtmlPath(rel), "index.html")
    ensures var docs := EntryRecords(IndexClassify, Below, rel, File("index.html", data));
      && |docs| == |data.anchors|
      && forall k :: 0 <= k < |docs| ==>
           docs[k] == Document(Trim(data.anchors[k]), if rel == [] then "" else HtmlPath(rel) + "/", None)
  {
    JoinWithSnoc(rel, "index.html", "/");
    if rel == [] {
      assert OccursAt("index.html", "index.html", 0);
      IndexOfIs("index.html", "index.html", 0, 0);
      assert ReplaceFirst("index.html", "index.html", "") == "";
    } else {
      ListingPathIsDirectory(HtmlPath(rel));
    }
  }

  /** A hidden directory or node_modules below the HTML directory contributes nothing, whatever it holds. */
  lemma IndexPrunedDirectoryIgnored(rel: seq<string>, es1: seq<Node>, name: string, sub: Node, es2: seq<Node>)
    requires !Descends(name) && sub.Dir? && sub.name == name
    ensures CrawlEntries(IndexClassify, Below, rel, es1 + [sub] + es2) == CrawlEntries(IndexClassify, Below, rel, es1 + es2)
  {
    CrawlEntriesSkip(IndexClassify, Below, rel, es1, sub, es2);
  }

  /** An unreadable index.html drops the rest of its directory in the listing phase. */
  lemma UnreadableIndexAborts(rel: seq<string>, es1: seq<Node>, data: FileData, es2: seq<Node>)
    requires NoAbort(IndexClassify, rel, es1) && !data.readable
    ensures CrawlEntries(IndexClassify, Below, rel, es1 + [File("index.html", data)] + es2)
         == CrawlEntries(IndexClassify, Below, rel, es1)
  {
    CrawlEntriesAbort(IndexClassify, Below, rel, es1, File("index.html", data), es2);
  }

  /** PDFs in the HTML tree, and every file but index.html, contribute nothing to the listing phase. */
  lemma NonIndexFileSkipped(rel: seq<string>, es1: seq<Node>, name: string, data: FileData, es2: seq<Node>)
    requires name != "index.html"
    ensures CrawlEntries(IndexClassify, Below, rel, es1 + [File(name, data)] + es2)
         == CrawlEntries(IndexClassify, Below, rel, es1 + es2)
  {
    CrawlEntriesSkip(IndexClassify, Below, rel, es1, File(name, data), es2);
  }
}
