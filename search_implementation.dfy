/**
 * search_implementation.js: one depth-first walk from the working directory that indexes
 * listing pages (index.html, one record per anchor) and PDF files (one record each, linking
 * to the HTML rendering next to the PDF).
 */
module SearchImplementation {
  import opened Strings
  import opened Corpus

  /** The record a PDF file contributes, or none when reading or parsing it fails. */
  function PdfRecords(fullPath: string, name: string, data: FileData): seq<Document>
  {
    var text := PdfText(data);
    if text.None? then []
    else [Document(ReplaceFirst(name, ".pdf", ""), ReplaceFirst(fullPath, ".pdf", ".html"), text)]
  }

  /** The `if / else if` chain of the loop body, for the entry `e` of directory `dirPath`. */
  function Classify(dirPath: string, e: Node): Action
  {
    var fullPath := Join(dirPath, e.name);
    if e.Dir? then (if Descends(e.name) then Descend else Emit([]))
    else if e.name == "index.html" then
      (if e.data.readable then Emit(ListingRecords(fullPath, e.data)) else Abort)
    else if EndsWith(e.name, ".pdf") then Emit(PdfRecords(fullPath, e.name, e.data))
    else Emit([])
  }

  /** The records crawlDirectory(dirPath) appends for the directory `dir`. */
  function Records(dirPath: string, dir: Node): seq<Document>
  {
    Crawl(Classify, Join, dirPath, dir)
  }

  /** The state generateSearchIndex shares with its nested crawlDirectory. */
  class Generator {
    var searchIndex: seq<Document>

    constructor ()
      ensures searchIndex == []
    {
      searchIndex := [];
    }

    method CrawlDirectory(dirPath: string, dir: Node)
      modifies this
      ensures searchIndex == old(searchIndex) + Records(dirPath, dir)
      decreases dir, 0
    {
      if !(dir.Dir? && dir.listable) {
        return;  // fs.readdir throws; the catch logs it
      }
      var entries := dir.entries;
      var i := 0;
      ghost var total := searchIndex + Records(dirPath, dir);
      assert entries[i..] == entries;
      while i < |entries|
        invariant 0 <= i <= |entries|
        invariant total == old(searchIndex) + Records(dirPath, dir)
        invariant total == searchIndex + CrawlEntries(Classify, Join, dirPath, entries[i..])
      {
        CrawlEntriesLoopStep(Classify, Join, dirPath, entries, i, searchIndex, total);
        var aborted := VisitEntry(dirPath, entries[i]);
        if aborted {
          return;  // the exception leaves the loop; the catch logs it
        }
        i := i + 1;
      }
      assert entries[i..] == [];
    }

    /**
     * The body of the loop for one entry; `aborted` tells whether it threw out of the loop
     * (reading index.html failed), in which case nothing was pushed.
     */
    method VisitEntry(dirPath: string, entry: Node) returns (aborted: bool)
      modifies this
      ensures aborted == Classify(dirPath, entry).Abort?
      ensures searchIndex == old(searchIndex) + EntryRecords(Classify, Join, dirPath, entry)
      decreases entry, 1
    {
      aborted := false;
      var fullPath := Join(dirPath, entry.name);
      if entry.Dir? {
        DirectoryEntry(dirPath, entry);
        if Descends(entry.name) {
          CrawlDirectory(fullPath, entry);
        }
      } else if entry.name == "index.html" {
        ListingEntry(dirPath, entry);
        if !entry.data.readable {
          aborted := true;  // fs.readFile throws
          return;
        }
        var titles := ExtractTitlesFromIndex(entry.data);
        var path := ReplaceFirst(fullPath, "index.html", "");
        var docs := seq(|titles|, k requires 0 <= k < |titles| => Document(titles[k], path, None));
        assert docs == ListingRecords(fullPath, entry.data);
        searchIndex := searchIndex + docs;
      } else if EndsWith(entry.name, ".pdf") {
        PdfEntry(dirPath, entry);
        var pdfData := PdfText(entry.data);
        if pdfData.Some? {
          var htmlPath := ReplaceFirst(fullPath, ".pdf", ".html");
          searchIndex := searchIndex + [Document(ReplaceFirst(entry.name, ".pdf", ""), htmlPath, pdfData)];
        }
        // otherwise the inner catch logs the failure and the loop goes on
      } else {
        OtherEntry(dirPath, entry);
      }
    }
  }

  /** How each kind of entry is classified, one kind at a time. */
  lemma DirectoryEntry(dirPath: string, e: Node)
    requires e.Dir?
    ensures !Classify(dirPath, e).Abort?
    ensures EntryRecords(Classify, Join, dirPath, e)
         == if Descends(e.name) then Records(Join(dirPath, e.name), e) else []
  {
  }

  lemma ListingEntry(dirPath: string, e: Node)
    requires e.File? && e.name == "index.html"
    ensures Classify(dirPath, e).Abort? <==> !e.data.readable
    ensures e.data.readable ==> EntryRecords(Classify, Join, dirPath, e) == ListingRecords(Join(dirPath, e.name), e.data)
  {
  }

  lemma PdfEntry(dirPath: string, e: Node)
    requires e.File? && e.name != "index.html" && EndsWith(e.name, ".pdf")
    ensures !Classify(dirPath, e).Abort?
    ensures EntryRecords(Classify, Join, dirPath, e) == PdfRecords(Join(dirPath, e.name), e.name, e.data)
  {
  }

  lemma OtherEntry(dirPath: string, e: Node)
    requires e.File? && e.name != "index.html" && !EndsWith(e.name, ".pdf")
    ensures !Classify(dirPath, e).Abort? && EntryRecords(Classify, Join, dirPath, e) == []
  {
  }

  /** generateSearchIndex: the index written out for the tree below `startDir`. */
  method GenerateSearchIndex(startDir: string, root: Node) returns (searchIndex: seq<Document>)
    ensures searchIndex == Records(startDir, root)
  {
    var generator := new Generator();
    generator.CrawlDirectory(startDir, root);
    searchIndex := generator.searchIndex;
  }

  // ---------------------------------------------------------------------------
  // Properties of the walk.
  // ---------------------------------------------------------------------------

  /** A hidden directory or node_modules is never descended into: its contents do not matter. */
  lemma PrunedDirectoryIgnored(dirPath: string, name: string, es1: seq<Node>, sub1: Node, sub2: Node, es2: seq<Node>)
    requires !Descends(name) && sub1.Dir? && sub2.Dir? && sub1.name == name && sub2.name == name
    ensures CrawlEntries(Classify, Join, dirPath, es1 + [sub1] + es2)
         == CrawlEntries(Classify, Join, dirPath, es1 + es2)
    ensures CrawlEntries(Classify, Join, dirPath, es1 + [sub1] + es2)
         == CrawlEntries(Classify, Join, dirPath, es1 + [sub2] + es2)
  {
    CrawlEntriesSkip(Classify, Join, dirPath, es1, sub1, es2);
    CrawlEntriesReplaceInert(Classify, Join, dirPath, es1, sub1, sub2, es2);
  }

  /** Any other directory contributes exactly the records of its own crawl. */
  lemma SubdirectoryRecords(dirPath: string, sub: Node)
    requires sub.Dir? && Descends(sub.name)
    ensures EntryRecords(Classify, Join, dirPath, sub) == Records(Join(dirPath, sub.name), sub)
    ensures !sub.listable ==> EntryRecords(Classify, Join, dirPath, sub) == []
  {
  }

  /**
   * Every record of the walk comes from one file of the tree: either it is one of the records
   * of a readable index.html, without content, or it is the record of a readable PDF, with
   * the PDF's text.
   */
  lemma RecordsFromFiles(dirPath: string, dir: Node)
    ensures forall d <- Records(dirPath, dir) :: d.content.None? ==> exists place, data ::
      && InTree(Join, dirPath, dir, place, File("index.html", data))
      && data.readable && d in ListingRecords(Join(place, "index.html"), data)
    ensures forall d <- Records(dirPath, dir) :: d.content.Some? ==> exists place, name, data ::
      && InTree(Join, dirPath, dir, place, File(name, data))
      && name != "index.html" && EndsWith(name, ".pdf") && PdfText(data) == d.content
      && d == Document(ReplaceFirst(name, ".pdf", ""), ReplaceFirst(Join(place, name), ".pdf", ".html"), PdfText(data))
  {
    forall d | d in Records(dirPath, dir)
      ensures d.content.None? ==> exists place, data ::
        && InTree(Join, dirPath, dir, place, File("index.html", data))
        && data.readable && d in ListingRecords(Join(place, "index.html"), data)
      ensures d.content.Some? ==> exists place, name, data ::
        && InTree(Join, dirPath, dir, place, File(name, data))
        && name != "index.html" && EndsWith(name, ".pdf") && PdfText(data) == d.content
        && d == Document(ReplaceFirst(name, ".pdf", ""), ReplaceFirst(Join(place, name), ".pdf", ".html"), PdfText(data))
    {
      CrawlFrom(Classify, Join, dirPath, dir, d);
      var place: string, e: Node :| InTree(Join, dirPath, dir, place, e) && Emitted(Classify, place, e, d);
      assert e == File(e.name, e.data);
      if e.name == "index.html" {
        ListingRecordsContent(Join(place, e.name), e.data, d);
      }
    }
  }

  /**
   * index.html contributes one record per anchor, in anchor order, each without content and
   * linking to the page's path with the first "index.html" removed.
   */
  lemma ListingPageRecords(dirPath: string, data: FileData)
    requires data.readable
    ensures var docs := EntryRecords(Classify, Join, dirPath, File("index.html", data));
      && |docs| == |data.anchors|
      && (forall k :: 0 <= k < |docs| ==> docs[k].title == Trim(data.anchors[k]) && docs[k].content == None)
      && (!Includes(dirPath, "index.html") ==> forall k :: 0 <= k < |docs| ==> docs[k].path == dirPath + "/")
  {
    ListingRecordsShape(dirPath, data);
  }

  /**
   * A PDF file that can be read and parsed contributes exactly one record: the name without
   * its first ".pdf" as title, the full path with its first ".pdf" turned into ".html" as
   * path, and the extracted text as content.
   */
  lemma PdfFileRecord(dirPath: string, name: string, data: FileData, text: string)
    requires name != "index.html" && EndsWith(name, ".pdf") && PdfText(data) == Some(text)
    ensures EntryRecords(Classify, Join, dirPath, File(name, data))
         == [Document(ReplaceFirst(name, ".pdf", ""), ReplaceFirst(Join(dirPath, name), ".pdf", ".html"), Some(text))]
  {
  }

  /**
   * In the usual case, where neither the directory path nor the file's stem mention ".pdf",
   * the title is the stem and the link is the sibling .html file.
   */
  lemma PdfFileRecordPlain(dirPath: string, stem: string, data: FileData, text: string)
    requires !Includes(dirPath, ".pdf") && !Includes(stem, ".pdf") && PdfText(data) == Some(text)
    ensures EntryRecords(Classify, Join, dirPath, File(stem + ".pdf", data))
         == [Document(stem, dirPath + "/" + stem + ".html", Some(text))]
  {
    var name := stem + ".pdf";
    assert name[|name| - 4..] == ".pdf";
    assert name != "index.html" by {
      assert name[|name| - 1] == 'f';
    }
    PdfFileRecord(dirPath, name, data, text);
    ReplaceExtension(stem, ".pdf", "");
    assert stem + "" == stem;
    PlainHtmlPath(dirPath, stem);
  }

  lemma PlainHtmlPath(dirPath: string, stem: string)
    requires !Includes(dirPath, ".pdf") && !Includes(stem, ".pdf")
    ensures ReplaceFirst(Join(dirPath, stem + ".pdf"), ".pdf", ".html") == dirPath + "/" + stem + ".html"
  {
    ReplaceExtension(stem, ".pdf", ".html");
    ReplaceFirstAfterSeparator(dirPath, '/', stem + ".pdf", ".pdf", ".html");
    assert Join(dirPath, stem + ".pdf") == dirPath + ['/'] + (stem + ".pdf");
    assert dirPath + ['/'] + (stem + ".html") == dirPath + "/" + stem + ".html";
  }

  /** A PDF file whose extraction fails contributes nothing, and the walk goes on. */
  lemma FailedPdfSkipped(dirPath: string, es1: seq<Node>, name: string, data: FileData, es2: seq<Node>)
    requires name != "index.html" && EndsWith(name, ".pdf") && PdfText(data) == None
    ensures CrawlEntries(Classify, Join, dirPath, es1 + [File(name, data)] + es2)
         == CrawlEntries(Classify, Join, dirPath, es1 + es2)
  {
    CrawlEntriesSkip(Classify, Join, dirPath, es1, File(name, data), es2);
  }

  /** Files that are neither index.html nor .pdf contribute nothing. */
  lemma OtherFileSkipped(dirPath: string, es1: seq<Node>, name: string, data: FileData, es2: seq<Node>)
    requires name != "index.html" && !EndsWith(name, ".pdf")
    ensures CrawlEntries(Classify, Join, dirPath, es1 + [File(name, data)] + es2)
         == CrawlEntries(Classify, Join, dirPath, es1 + es2)
  {
    CrawlEntriesSkip(Classify, Join, dirPath, es1, File(name, data), es2);
  }

  /**
   * Only an unreadable index.html aborts a directory: a subdirectory (whatever happens inside
   * it) never does, so sibling entries are always processed and records keep traversal order.
   */
  lemma OnlyListingReadAborts(dirPath: string, e: Node)
    ensures Classify(dirPath, e).Abort? <==> (e.File? && e.name == "index.html" && !e.data.readable)
  {
  }

  /**
   * An unreadable index.html drops itself and the rest of its directory; what the earlier
   * entries contributed, subdirectories included, is kept.
   */
  lemma UnreadableListingAborts(dirPath: string, es1: seq<Node>, data: FileData, es2: seq<Node>)
    requires NoAbort(Classify, dirPath, es1) && !data.readable
    ensures CrawlEntries(Classify, Join, dirPath, es1 + [File("index.html", data)] + es2)
         == CrawlEntries(Classify, Join, dirPath, es1)
  {
    CrawlEntriesAbort(Classify, Join, dirPath, es1, File("index.html", data), es2);
  }

  /** Records appear in depth-first traversal order. */
  lemma TraversalOrder(dirPath: string, es1: seq<Node>, es2: seq<Node>)
    requires NoAbort(Classify, dirPath, es1)
    ensures CrawlEntries(Classify, Join, dirPath, es1 + es2)
         == CrawlEntries(Classify, Join, dirPath, es1) + CrawlEntries(Classify, Join, dirPath, es2)
  {
    CrawlEntriesAppend(Classify, Join, dirPath, es1, es2);
  }
}
