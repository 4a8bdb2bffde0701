/**
 * What the three index generators share: the Document record they emit, the directory tree
 * they walk (with the external extractors' results already attached to each file), the rule
 * that prunes hidden directories and node_modules, the records a listing page (index.html)
 * contributes, and the depth-first walk itself, parameterised by each generator's per-entry
 * `if / else if` classifier.
 */
module Corpus {
  import opened Strings

  /** One record of the search index: display title, link path, optional body text. */
  datatype Document = Document(title: string, path: string, content: Option<string>)

  /**
   * What the external collaborators yield for one file: whether fs.readFile succeeds, the
   * textContent of each <a> and of each <div> element in document order (jsdom), and the
   * text pdf-parse extracts (None when it throws).
   */
  datatype FileData = FileData(readable: bool, anchors: seq<string>, divs: seq<string>, pdfText: Option<string>)

  /**
   * An entry of a directory listing, as fs.readdir(…, {withFileTypes: true}) reports it: a
   * directory (with whether reading it succeeds and, if so, its entries in listing order) or
   * any other entry.
   */
  datatype Node =
    | Dir(name: string, listable: bool, entries: seq<Node>)
    | File(name: string, data: FileData)

  /** path.join(dir, name), without normalisation. */
  function Join(dir: string, name: string): string
  {
    dir + "/" + name
  }

  /** The prune rule: a directory is descended into unless it is hidden or is node_modules. */
  predicate Descends(name: string)
  {
    !StartsWith(name, ".") && name != "node_modules"
  }

  /** The text of a PDF file: None when reading the file or parsing it fails. */
  function PdfText(data: FileData): Option<string>
  {
    if data.readable then data.pdfText else None
  }

  /**
   * extractTitlesFromIndex: one title per anchor, in document order, each the anchor's text
   * with the whitespace cut off both ends and nothing else changed.
   */
  function ExtractTitlesFromIndex(data: FileData): (titles: seq<string>)
    ensures |titles| == |data.anchors|
    ensures forall k :: 0 <= k < |titles| ==> titles[k] == Trim(data.anchors[k])
    ensures forall k :: 0 <= k < |titles| ==> TrimmedFrom(titles[k], data.anchors[k])
  {
    TrimAll(data.anchors);
    seq(|data.anchors|, k requires 0 <= k < |data.anchors| => Trim(data.anchors[k]))
  }

  /** The records that the listing page at `fullPath` contributes. */
  function ListingRecords(fullPath: string, data: FileData): seq<Document>
  {
    var titles := ExtractTitlesFromIndex(data);
    seq(|titles|, k requires 0 <= k < |titles| => Document(titles[k], ReplaceFirst(fullPath, "index.html", ""), None))
  }

  /**
   * A listing page contributes one record per anchor, in anchor order, each without content
   * and each linking to the page's path with its first "index.html" removed; inside a
   * directory whose path does not mention "index.html", that is the directory itself.
   */
  lemma ListingRecordsShape(dirPath: string, data: FileData)
    ensures var docs := ListingRecords(Join(dirPath, "index.html"), data);
      && |docs| == |data.anchors|
      && (forall k :: 0 <= k < |docs| ==> docs[k].title == Trim(data.anchors[k]) && docs[k].content == None)
      && (forall k :: 0 <= k < |docs| ==> docs[k].path == ReplaceFirst(Join(dirPath, "index.html"), "index.html", ""))
      && (!Includes(dirPath, "index.html") ==> forall k :: 0 <= k < |docs| ==> docs[k].path == dirPath + "/")
  {
    if !Includes(dirPath, "index.html") {
      ListingPathIsDirectory(dirPath);
    }
  }

  /** No listing record carries content. */
  lemma ListingRecordsContent(fullPath: string, data: FileData, d: Document)
    requires d in ListingRecords(fullPath, data)
    ensures d.content.None?
  {
  }

  lemma ListingPathIsDirectory(dirPath: string)
    requires !Includes(dirPath, "index.html")
    ensures ReplaceFirst(Join(dirPath, "index.html"), "index.html", "") == dirPath + "/"
  {
    ReplaceFirstAfterSeparator(dirPath, '/', "index.html", "index.html", "");
    assert OccursAt("index.html", "index.html", 0);
    IndexOfIs("index.html", "index.html", 0, 0);
    assert ReplaceFirst("index.html", "index.html", "") == "";
    assert dirPath + ['/'] + "index.html" == Join(dirPath, "index.html");
  }

  /**
   * Stripping or rewriting an extension with replace: when the stem does not itself contain
   * the extension, the first occurrence is the extension at the end.
   */
  lemma ReplaceExtension(stem: string, ext: string, rep: string)
    requires ext == ".pdf" || ext == ".html"
    requires !Includes(stem, ext)
    ensures ReplaceFirst(stem + ext, ext, rep) == stem + rep
  {
    ReplaceFirstSuffix(stem, ext, rep);
  }

  // ---------------------------------------------------------------------------
  // The depth-first walk. `at` is where the walk stands (a path, or the segments below a
  // root); `child` gives the place of an entry inside it.
  // ---------------------------------------------------------------------------

  /** What one generator's classifier decides for one directory entry. */
  datatype Action =
    | Descend                       // a directory to crawl recursively
    | Emit(docs: seq<Document>)     // records to push, then go on with the next entry
    | Abort                         // an exception leaves the loop: the rest of the directory is dropped

  /** crawlDirectory on `dir`: the records it appends. A directory that cannot be read appends none. */
  function Crawl<L>(classify: (L, Node) -> Action, child: (L, string) -> L, at: L, dir: Node): seq<Document>
    decreases dir, 1
  {
    if dir.Dir? && dir.listable then CrawlEntries(classify, child, at, dir.entries) else []
  }

  /** The loop over one directory's entries, from the given entry to the end or to an abort. */
  function CrawlEntries<L>(classify: (L, Node) -> Action, child: (L, string) -> L, at: L, es: seq<Node>): seq<Document>
    decreases es, 0
  {
    if es == [] then []
    else if classify(at, es[0]).Abort? then []
    else EntryRecords(classify, child, at, es[0]) + CrawlEntries(classify, child, at, es[1..])
  }

  /** The records one entry contributes when it does not abort. */
  function EntryRecords<L>(classify: (L, Node) -> Action, child: (L, string) -> L, at: L, e: Node): seq<Document>
    decreases e, 2
  {
    match classify(at, e)
    case Descend => Crawl(classify, child, child(at, e.name), e)
    case Emit(docs) => docs
    case Abort => []
  }

  /** One step of the loop over a directory's entries, at index `i`. */
  lemma CrawlEntriesStep<L>(classify: (L, Node) -> Action, child: (L, string) -> L, at: L, es: seq<Node>, i: nat)
    requires i < |es|
    ensures CrawlEntries(classify, child, at, es[i..])
         == if classify(at, es[i]).Abort? then []
            else EntryRecords(classify, child, at, es[i]) + CrawlEntries(classify, child, at, es[i + 1..])
  {
    assert es[i..][0] == es[i] && es[i..][1..] == es[i + 1..];
  }

  /**
   * The loop's bookkeeping for entry `i`: when `total` is what is accumulated so far followed
   * by what the remaining entries yield, an aborting entry ends the loop with `total`
   * reached, and any other entry's records move from the remaining part to the accumulated one.
   */
  lemma CrawlEntriesLoopStep<L>(classify: (L, Node) -> Action, child: (L, string) -> L, at: L, es: seq<Node>, i: nat,
                                acc: seq<Document>, total: seq<Document>)
    requires i < |es| && total == acc + CrawlEntries(classify, child, at, es[i..])
    ensures classify(at, es[i]).Abort? ==> total == acc
    ensures !classify(at, es[i]).Abort? ==>
      total == (acc + EntryRecords(classify, child, at, es[i])) + CrawlEntries(classify, child, at, es[i + 1..])
  {
    CrawlEntriesStep(classify, child, at, es, i);
    if classify(at, es[i]).Abort? {
      assert acc + [] == acc;
    } else {
      AppendAssoc(acc, EntryRecords(classify, child, at, es[i]), CrawlEntries(classify, child, at, es[i + 1..]));
    }
  }

  predicate NoAbort<L>(classify: (L, Node) -> Action, at: L, es: seq<Node>)
  {
    forall e <- es :: !classify(at, e).Abort?
  }

  /**
   * Records appear in traversal order: when no entry of `es1` aborts, the loop over es1 + es2
   * yields what es1 yields followed by what es2 yields.
   */
  lemma {:induction false} CrawlEntriesAppend<L>(classify: (L, Node) -> Action, child: (L, string) -> L, at: L, es1: seq<Node>, es2: seq<Node>)
    requires NoAbort(classify, at, es1)
    ensures CrawlEntries(classify, child, at, es1 + es2)
         == CrawlEntries(classify, child, at, es1) + CrawlEntries(classify, child, at, es2)
    decreases |es1|
  {
    if es1 == [] {
      assert es1 + es2 == es2;
    } else {
      assert (es1 + es2)[0] == es1[0];
      assert (es1 + es2)[1..] == es1[1..] + es2;
      CrawlEntriesAppend(classify, child, at, es1[1..], es2);
    }
  }

  /**
   * An aborting entry drops itself and every later entry of its directory, and keeps every
   * record the earlier entries (their subdirectories included) already contributed.
   */
  lemma CrawlEntriesAbort<L>(classify: (L, Node) -> Action, child: (L, string) -> L, at: L, es1: seq<Node>, e: Node, es2: seq<Node>)
    requires NoAbort(classify, at, es1) && classify(at, e).Abort?
    ensures CrawlEntries(classify, child, at, es1 + [e] + es2) == CrawlEntries(classify, child, at, es1)
  {
    CrawlEntriesAppend(classify, child, at, es1, [e] + es2);
    assert es1 + [e] + es2 == es1 + ([e] + es2);
  }

  /**
   * An entry that neither aborts nor contributes a record can be taken out of the listing
   * without changing the result: the walk simply goes on with the next entry.
   */
  lemma {:induction false} CrawlEntriesSkip<L>(classify: (L, Node) -> Action, child: (L, string) -> L, at: L, es1: seq<Node>, e: Node, es2: seq<Node>)
    requires !classify(at, e).Abort? && EntryRecords(classify, child, at, e) == []
    ensures CrawlEntries(classify, child, at, es1 + [e] + es2) == CrawlEntries(classify, child, at, es1 + es2)
    decreases |es1|
  {
    if es1 == [] {
      assert es1 + [e] + es2 == [e] + es2;
      assert ([e] + es2)[1..] == es2;
      assert es1 + es2 == es2;
    } else {
      assert (es1 + [e] + es2)[0] == es1[0] && (es1 + es2)[0] == es1[0];
      assert (es1 + [e] + es2)[1..] == es1[1..] + [e] + es2;
      assert (es1 + es2)[1..] == es1[1..] + es2;
      CrawlEntriesSkip(classify, child, at, es1[1..], e, es2);
    }
  }

  /** Two entries that each contribute nothing are interchangeable in any listing. */
  lemma CrawlEntriesReplaceInert<L>(classify: (L, Node) -> Action, child: (L, string) -> L, at: L, es1: seq<Node>, e1: Node, e2: Node, es2: seq<Node>)
    requires !classify(at, e1).Abort? && EntryRecords(classify, child, at, e1) == []
    requires !classify(at, e2).Abort? && EntryRecords(classify, child, at, e2) == []
    ensures CrawlEntries(classify, child, at, es1 + [e1] + es2) == CrawlEntries(classify, child, at, es1 + [e2] + es2)
  {
    CrawlEntriesSkip(classify, child, at, es1, e1, es2);
    CrawlEntriesSkip(classify, child, at, es1, e2, es2);
  }

  /** Every record any entry's classification emits satisfies `p`. */
  ghost predicate EmitsOnly<L(!new)>(classify: (L, Node) -> Action, p: Document -> bool)
  {
    forall at: L, e: Node, d: Document :: classify(at, e).Emit? && d in classify(at, e).docs ==> p(d)
  }

  /**
   * What holds of every record a classifier emits holds of every record of the walk: the walk
   * itself creates no records, it only collects them.
   */
  lemma {:induction false} CrawlOnly<L(!new)>(classify: (L, Node) -> Action, child: (L, string) -> L, p: Document -> bool, at: L, dir: Node)
    requires EmitsOnly(classify, p)
    ensures forall d <- Crawl(classify, child, at, dir) :: p(d)
    decreases dir, 1
  {
    if dir.Dir? && dir.listable {
      CrawlEntriesOnly(classify, child, p, at, dir.entries);
    }
  }

  lemma {:induction false} CrawlEntriesOnly<L(!new)>(classify: (L, Node) -> Action, child: (L, string) -> L, p: Document -> bool, at: L, es: seq<Node>)
    requires EmitsOnly(classify, p)
    ensures forall d <- CrawlEntries(classify, child, at, es) :: p(d)
    decreases es, 0
  {
    if es != [] && !classify(at, es[0]).Abort? {
      EntryRecordsOnly(classify, child, p, at, es[0]);
      CrawlEntriesOnly(classify, child, p, at, es[1..]);
    }
  }

  lemma {:induction false} EntryRecordsOnly<L(!new)>(classify: (L, Node) -> Action, child: (L, string) -> L, p: Document -> bool, at: L, e: Node)
    requires EmitsOnly(classify, p)
    ensures forall d <- EntryRecords(classify, child, at, e) :: p(d)
    decreases e, 2
  {
    if classify(at, e).Descend? {
      CrawlOnly(classify, child, p, child(at, e.name), e);
    }
  }

  // ---------------------------------------------------------------------------
  // Where each record comes from.
  // ---------------------------------------------------------------------------

  /**
   * `e` is an entry somewhere in the tree `dir` standing at `at`, and `place` is where the walk
   * stands when it reaches `e`: the directory holding it.
   */
  ghost predicate InTree<L>(child: (L, string) -> L, at: L, dir: Node, place: L, e: Node)
    decreases dir, 1
  {
    dir.Dir? && InEntries(child, at, dir.entries, place, e)
  }

  ghost predicate InEntries<L>(child: (L, string) -> L, at: L, es: seq<Node>, place: L, e: Node)
    decreases es, 0
  {
    exists i :: 0 <= i < |es| &&
      ((place == at && es[i] == e) || InTree(child, child(at, es[i].name), es[i], place, e))
  }

  /** The classifier, standing at `place`, emits `d` for the entry `e`. */
  predicate Emitted<L>(classify: (L, Node) -> Action, place: L, e: Node, d: Document)
  {
    classify(place, e).Emit? && d in classify(place, e).docs
  }

  /**
   * Every record of the walk is one that the classifier emits for some entry of the tree, at
   * the place where the walk meets that entry.
   */
  lemma {:induction false} CrawlFrom<L(!new)>(classify: (L, Node) -> Action, child: (L, string) -> L, at: L, dir: Node, d: Document)
    requires d in Crawl(classify, child, at, dir)
    ensures exists place: L, e: Node :: InTree(child, at, dir, place, e) && Emitted(classify, place, e, d)
    decreases dir, 1
  {
    CrawlEntriesFrom(classify, child, at, dir.entries, d);
  }

  lemma {:induction false} CrawlEntriesFrom<L(!new)>(classify: (L, Node) -> Action, child: (L, string) -> L, at: L, es: seq<Node>, d: Document)
    requires d in CrawlEntries(classify, child, at, es)
    ensures exists place: L, e: Node :: InEntries(child, at, es, place, e) && Emitted(classify, place, e, d)
    decreases es, 0
  {
    var first := EntryRecords(classify, child, at, es[0]);
    var rest := CrawlEntries(classify, child, at, es[1..]);
    assert CrawlEntries(classify, child, at, es) == first + rest;
    if d in first {
      if classify(at, es[0]).Descend? {
        CrawlFrom(classify, child, child(at, es[0].name), es[0], d);
        var place: L, e: Node :| InTree(child, child(at, es[0].name), es[0], place, e) && Emitted(classify, place, e, d);
        assert InEntries(child, at, es, place, e);
      } else {
        assert InEntries(child, at, es, at, es[0]);
        assert Emitted(classify, at, es[0], d);
      }
    } else {
      CrawlEntriesFrom(classify, child, at, es[1..], d);
      var place: L, e: Node :| InEntries(child, at, es[1..], place, e) && Emitted(classify, place, e, d);
      var i :| 0 <= i < |es[1..]| &&
        ((place == at && es[1..][i] == e) || InTree(child, child(at, es[1..][i].name), es[1..][i], place, e));
      assert es[1..][i] == es[i + 1];
      assert InEntries(child, at, es, place, e);
    }
  }
}
