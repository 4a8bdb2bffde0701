/**
 * search-interface.js (the index generator of that name): one depth-first walk from the
 * working directory that indexes listing pages (index.html, one record per anchor) and every
 * other HTML page except search.html (one record each, holding the text of its <div>s).
 */
module SearchInterface {
  import opened Strings
  import opened Corpus

  /** The trimmed text of every <div>, in document order. */
  function DivTexts(data: FileData): seq<string>
  {
    seq(|data.divs|, k requires 0 <= k < |data.divs| => Trim(data.divs[k]))
  }

  /** extractTextContent: the trimmed <div> texts joined with one space. */
  function ExtractTextContent(data: FileData): string
  {
    JoinWith(DivTexts(data), " ")
  }

  /** The record an HTML page contributes. */
  function PageRecord(fullPath: string, name: string, data: FileData): Document
  {
    Document(ReplaceFirst(name, ".html", ""), fullPath, Some(ExtractTextContent(data)))
  }

  /** Whether a file is indexed as a content page. */
  predicate IsContentPage(name: string)
  {
    EndsWith(name, ".html") && name != "search.html"
  }

  /**
   * The `if / else if` chain of the loop body. Neither readFile is guarded inside the loop:
   * reading either kind of page can throw out of it.
   */
  function Classify(dirPath: string, e: Node): Action
  {
    var fullPath := Join(dirPath, e.name);
    if e.Dir? then (if Descends(e.name) then Descend else Emit([]))
    else if e.name == "index.html" then
      (if e.data.readable then Emit(ListingRecords(fullPath, e.data)) else Abort)
    else if IsContentPage(e.name) then
      (if e.data.readable then Emit([PageRecord(fullPath, e.name, e.data)]) else Abort)
    else Emit([])
  }

  /** The records crawlDirectory(dirPath) appends for the directory `dir`. */
  function Records(dirPath: string, dir: Node): seq<Document>
  {
    Crawl(Classify, Join, dirPath, dir)
  }

  /** The state generateSearchIndex shares with its nested crawlDirectory. */
  class Generator {
    var searchIndex: seq<Document>

    constructor ()
      ensures searchIndex == []
    {
      searchIndex := [];
    }

    method CrawlDirectory(dirPath: string, dir: Node)
      modifies this
      ensures searchIndex == old(searchIndex) + Records(dirPath, dir)
      decreases dir, 0
    {
      if !(dir.Dir? && dir.listable) {
        return;  // fs.readdir throws; the catch logs it
      }
      var entries := dir.entries;
      var i := 0;
      ghost var total := searchIndex + Records(dirPath, dir);
      assert entries[i..] == entries;
      while i < |entries|
        invariant 0 <= i <= |entries|
        invariant total == old(searchIndex) + Records(dirPath, dir)
        invariant total == searchIndex + CrawlEntries(Classify, Join, dirPath, entries[i..])
      {
        CrawlEntriesLoopStep(Classify, Join, dirPath, entries, i, searchIndex, total);
        var aborted := VisitEntry(dirPath, entries[i]);
        if aborted {
          return;  // the exception leaves the loop; the catch logs it
        }
        i := i + 1;
      }
      assert entries[i..] == [];
    }

    /** The loop body for one entry; `aborted` when reading the page throws. */
    method VisitEntry(dirPath: string, entry: Node) returns (aborted: bool)
      modifies this
      ensures aborted == Classify(dirPath, entry).Abort?
      ensures searchIndex == old(searchIndex) + EntryRecords(Classify, Join, dirPath, entry)
      decreases entry, 1
    {
      aborted := false;
      var fullPath := Join(dirPath, entry.name);
      if entry.Dir? {
        if Descends(entry.name) {
          CrawlDirectory(fullPath, entry);
        }
      } else if entry.name == "index.html" {
        if !entry.data.readable {
          aborted := true;  // fs.readFile throws
          return;
        }
        var titles := ExtractTitlesFromIndex(entry.data);
        var path := ReplaceFirst(fullPath, "index.html", "");
        var docs := seq(|titles|, k requires 0 <= k < |titles| => Document(titles[k], path, None));
        assert docs == ListingRecords(fullPath, entry.data);
        searchIndex := searchIndex + docs;
      } else if EndsWith(entry.name, ".html") && entry.name != "search.html" {
        if !entry.data.readable {
          aborted := true;  // fs.readFile throws
          return;
        }
        var textContent := ExtractTextContent(entry.data);
        searchIndex := searchIndex + [Document(ReplaceFirst(entry.name, ".html", ""), fullPath, Some(textContent))];
      }
    }
  }

  /** generateSearchIndex: the index written out for the tree below the working directory. */
  method GenerateSearchIndex(startDir: string, root: Node) returns (searchIndex: seq<Document>)
    ensures searchIndex == Records(startDir, root)
  {
    var generator := new Generator();
    generator.CrawlDirectory(startDir, root);
    searchIndex := generator.searchIndex;
  }

  // ---------------------------------------------------------------------------
  // Properties of the walk.
  // ---------------------------------------------------------------------------

  /**
   * The page text laid out: the trimmed text of <div> k sits at its offset, exactly one space
   * follows each of them but the last, and the text ends with the last one; so its length is
   * that of the trimmed texts plus one per gap between neighbours.
   */
  lemma TextContentLayout(data: FileData)
    ensures var parts := DivTexts(data);
      && |parts| == |data.divs|
      && (forall k :: 0 <= k < |parts| ==> parts[k] == Trim(data.divs[k]) && TrimmedFrom(parts[k], data.divs[k]))
      && (forall k :: 0 <= k < |parts| ==> PieceAt(parts, " ", k))
      && (forall k :: 0 <= k < |parts| - 1 ==> SeparatorAfter(parts, " ", k))
      && (parts != [] ==> |ExtractTextContent(data)| == Offset(parts, " ", |parts| - 1) + |parts[|parts| - 1]|)
      && |ExtractTextContent(data)| == |Concat(parts)| + (if data.divs == [] then 0 else |data.divs| - 1)
  {
    var parts := DivTexts(data);
    TrimAll(data.divs);
    JoinWithLayout(parts, " ");
    JoinWithLength(parts, " ");
  }

  /** A page without <div>s has empty text; one with a single <div> has that div's trimmed text. */
  lemma TextContentOfFewDivs(data: FileData)
    ensures data.divs == [] ==> ExtractTextContent(data) == ""
    ensures |data.divs| == 1 ==> ExtractTextContent(data) == Trim(data.divs[0])
  {
  }

  /**
   * A readable content page contributes exactly one record: the name without its first
   * ".html" as title, its own full path, and its text as content.
   */
  lemma ContentPageRecord(dirPath: string, name: string, data: FileData)
    requires name != "index.html" && IsContentPage(name) && data.readable
    ensures EntryRecords(Classify, Join, dirPath, File(name, data))
         == [Document(ReplaceFirst(name, ".html", ""), Join(dirPath, name), Some(ExtractTextContent(data)))]
  {
  }

  /**
   * In the usual case, a stem that does not itself mention ".html", a readable page
   * stem + ".html" is indexed under its stem.
   */
  lemma ContentPageTitle(dirPath: string, stem: string, data: FileData)
    requires stem != "index" && stem != "search" && !Includes(stem, ".html") && data.readable
    ensures EntryRecords(Classify, Join, dirPath, File(stem + ".html", data))
         == [Document(stem, Join(dirPath, stem + ".html"), Some(ExtractTextContent(data)))]
  {
    var name := stem + ".html";
    assert name[|name| - 5..] == ".html";
    assert name != "index.html" && name != "search.html" by {
      assert name[..|stem|] == stem;
    }
    ContentPageRecord(dirPath, name, data);
    ReplaceExtension(stem, ".html", "");
    assert stem + "" == stem;
  }

  /** A hidden directory or node_modules contributes nothing, whatever it holds. */
  lemma PrunedDirectoryIgnored(dirPath: string, es1: seq<Node>, name: string, sub: Node, es2: seq<Node>)
    requires !Descends(name) && sub.Dir? && sub.name == name
    ensures CrawlEntries(Classify, Join, dirPath, es1 + [sub] + es2) == CrawlEntries(Classify, Join, dirPath, es1 + es2)
  {
    CrawlEntriesSkip(Classify, Join, dirPath, es1, sub, es2);
  }

  /**
   * A readable index.html contributes its listing records: one per anchor, without content
   * (Corpus.ListingRecordsShape gives their titles and paths).
   */
  lemma ListingPageRecords(dirPath: string, data: FileData)
    requires data.readable
    ensures EntryRecords(Classify, Join, dirPath, File("index.html", data)) == ListingRecords(Join(dirPath, "index.html"), data)
  {
  }

  /**
   * index.html is a listing page, never a content page, although its name ends in ".html":
   * its records carry no content.
   */
  lemma ListingPageHasNoContent(dirPath: string, data: FileData)
    ensures forall d <- EntryRecords(Classify, Join, dirPath, File("index.html", data)) :: d.content.None?
  {
  }

  /**
   * Records of the two kinds cannot be confused: every record with content is the record of
   * one readable content page of the tree (so its path ends in ".html"), and every record
   * without content is one of the records of a readable listing page of the tree.
   */
  lemma ContentRecordsArePages(dirPath: string, dir: Node)
    ensures forall d <- Records(dirPath, dir) :: d.content.Some? ==> EndsWith(d.path, ".html")
    ensures forall d <- Records(dirPath, dir) :: d.content.Some? ==> exists place, name, data ::
      && InTree(Join, dirPath, dir, place, File(name, data))
      && name != "index.html" && IsContentPage(name) && data.readable
      && d == PageRecord(Join(place, name), name, data)
    ensures forall d <- Records(dirPath, dir) :: d.content.None? ==> exists place, data ::
      && InTree(Join, dirPath, dir, place, File("index.html", data))
      && data.readable && d in ListingRecords(Join(place, "index.html"), data)
  {
    forall at: string, e: Node, d: Document | Classify(at, e).Emit? && d in Classify(at, e).docs
      ensures PageShaped(d)
    {
      if e.File? && e.name == "index.html" {
        assert d in ListingRecords(Join(at, e.name), e.data);
      } else if e.File? && IsContentPage(e.name) {
        EndsWithAppend(at + "/", e.name, ".html");
      }
    }
    CrawlOnly(Classify, Join, PageShaped, dirPath, dir);
    forall d | d in Records(dirPath, dir)
      ensures d.content.Some? ==> exists place, name, data ::
        && InTree(Join, dirPath, dir, place, File(name, data))
        && name != "index.html" && IsContentPage(name) && data.readable
        && d == PageRecord(Join(place, name), name, data)
      ensures d.content.None? ==> exists place, data ::
        && InTree(Join, dirPath, dir, place, File("index.html", data))
        && data.readable && d in ListingRecords(Join(place, "index.html"), data)
    {
      CrawlFrom(Classify, Join, dirPath, dir, d);
      var place: string, e: Node :| InTree(Join, dirPath, dir, place, e) && Emitted(Classify, place, e, d);
      assert e == File(e.name, e.data);
      if e.name == "index.html" {
        ListingRecordsContent(Join(place, e.name), e.data, d);
      }
    }
  }

  predicate PageShaped(d: Document)
  {
    d.content.Some? ==> EndsWith(d.path, ".html")
  }

  /** search.html and every file that is neither index.html nor .html contribute nothing. */
  lemma OtherFileSkipped(dirPath: string, es1: seq<Node>, name: string, data: FileData, es2: seq<Node>)
    requires name != "index.html" && !IsContentPage(name)
    ensures CrawlEntries(Classify, Join, dirPath, es1 + [File(name, data)] + es2)
         == CrawlEntries(Classify, Join, dirPath, es1 + es2)
  {
    CrawlEntriesSkip(Classify, Join, dirPath, es1, File(name, data), es2);
  }

  /** Exactly the unreadable listing and content pages abort their directory. */
  lemma AbortingEntries(dirPath: string, e: Node)
    ensures Classify(dirPath, e).Abort?
        <==> (e.File? && !e.data.readable && (e.name == "index.html" || IsContentPage(e.name)))
  {
  }

  /** An unreadable page drops itself and the rest of its directory, keeping what came before. */
  lemma UnreadablePageAborts(dirPath: string, es1: seq<Node>, name: string, data: FileData, es2: seq<Node>)
    requires NoAbort(Classify, dirPath, es1) && !data.readable
    requires name == "index.html" || IsContentPage(name)
    ensures CrawlEntries(Classify, Join, dirPath, es1 + [File(name, data)] + es2)
         == CrawlEntries(Classify, Join, dirPath, es1)
  {
    CrawlEntriesAbort(Classify, Join, dirPath, es1, File(name, data), es2);
  }

  /** Records appear in depth-first traversal order. */
  lemma TraversalOrder(dirPath: string, es1: seq<Node>, es2: seq<Node>)
    requires NoAbort(Classify, dirPath, es1)
    ensures CrawlEntries(Classify, Join, dirPath, es1 + es2)
         == CrawlEntries(Classify, Join, dirPath, es1) + CrawlEntries(Classify, Join, dirPath, es2)
  {
    CrawlEntriesAppend(Classify, Join, dirPath, es1, es2);
  }

  /**
   * A directory holding a listing page with two anchors and one content page yields exactly
   * three records: the two listing records, without content, then the page's, with content.
   */
  lemma ListingAndPage(dirPath: string, name: string, listing: FileData, pageName: string, page: FileData)
    requires listing.readable && |listing.anchors| == 2
    requires pageName != "index.html" && IsContentPage(pageName) && page.readable
    ensures var docs := Records(dirPath, Dir(name, true, [File("index.html", listing), File(pageName, page)]));
      && |docs| == 3
      && docs[0].content.None? && docs[1].content.None?
      && docs[2] == PageRecord(Join(dirPath, pageName), pageName, page)
  {
    var es := [File("index.html", listing), File(pageName, page)];
    CrawlEntriesStep(Classify, Join, dirPath, es, 0);
    CrawlEntriesStep(Classify, Join, dirPath, es, 1);
    assert es[2..] == [];
    ContentPageRecord(dirPath, pageName, page);
  }
}
