# Model of the kennyvt.github.io PDF search

This site offers full-text search over a collection of PDF documents and their HTML renderings.
There are two halves.

- **Index generator.** A Node script walks a directory tree and writes `search-index.json`.
  The index is a list of records, each holding a title, a link path and an optional body text.
  The repository has three versions of this script.
- **Browser search engine.** The `PDFSearch` class in the browser loads that index. It scores
  each record against a query, keeps those that score anything, sorts them by score and cuts
  up to three context excerpts out of each record's text.

The Dafny project models both halves, one module per file:

| module | file | models |
|---|---|---|
| `Strings` | strings.dfy | the JavaScript string built-ins the code relies on: `toLowerCase`, `split(/\s+/)`, `trim`, `indexOf`, `includes`, `startsWith`, `endsWith`, `replace` with a string pattern, `join` |
| `Corpus` | corpus.dfy | the index record, the directory tree that is walked (with what `fs`, jsdom and pdf-parse yield for each file attached to it), the pruning of hidden directories and `node_modules`, `extractTitlesFromIndex`, and the depth-first walk shared by all three generators |
| `SearchImplementation` | search_implementation.dfy | `search_implementation.js`: one walk that indexes listing pages and PDFs, as a `Generator` class whose `searchIndex` field the recursive `CrawlDirectory` extends |
| `SearchImplementation2` | search_implementation2.dfy | `search-implementation2.js`: a PDF phase below `PDF_DIRECTORY`, where each PDF links to the same relative place below `HTML_DIRECTORY`, followed by a listing phase below `HTML_DIRECTORY` |
| `SearchInterface` | search_interface.dfy | `search-interface.js`: listing pages and HTML content pages, the latter with their `<div>` text (`extractTextContent`) |
| `Query` | query.dfy | the query's search terms (lower-cased, split on whitespace, words of one character dropped) |
| `Occurrences` | occurrences.dfy | the non-overlapping occurrence count of a term in the content |
| `Scoring` | scoring.dfy | the title and content scores of one record, and the relevance percentage shown for a result |
| `Snippets` | snippets.dfy | `getContentSnippets` |
| `Ranking` | ranking.dfy | the stable sort by decreasing total score |
| `Engine` | engine.dfy | the `PDFSearch` class: the index state, loading, and `search` |
| `WorkedExample` | worked_example.dfy | one concrete search, computed end to end |

Each loop of the source is a `method` with a `while` or `for` loop. That covers the four crawl
loops of the three generators (one in `search_implementation.js`, two in
`search-implementation2.js`, one in `search-interface.js`), the scoring loop, the occurrence
count, the snippet scan and the map/filter pass. Each
method is proved equal to a recursive function, and the lemmas state the source's promises
about those functions.

A generator's per-entry `if / else if` chain is a classifier. For each directory entry it
returns one of three actions:

- `Descend`: crawl the subdirectory recursively.
- `Emit(records)`: append these records and go on.
- `Abort`: an exception has left the loop, so the rest of that directory is dropped.

The shared walk is parameterised by this classifier.

The exact-title bonus of 1000 points needs the whole lower-cased title to equal the whole
lower-cased query; a title that merely contains or starts with the query earns only the per-term
bonuses. So a record titled "Memory Management", searched with the query "memory", earns 150
title points, and with two occurrences in its text 2 content points: `WorkedExample.MemorySearch`
proves that total of 152.

## Model

| member | source | states |
|---|---|---|
| Engine.Score | search-interface-ranked.js:25-80 | the map callback for one entry: a hit with both scores, their sum and at most three excerpts when the sum is positive, otherwise none (stated by ScoreFacts) |
| Engine.Hits | search-interface-ranked.js:24-81 | the map and filter passes over the index, in index order (stated by HitsSound and HitsComplete) |
| Engine.SearchResults | search-interface-ranked.js:17-87 | what search returns for a state of the index: nothing without an index or without terms, otherwise the sorted hits (stated by ResultsAreScoredEntries and ResultsRanked) |
| Engine.PDFSearch.constructor | search-interface-ranked.js:1-5 | a new engine starts with no index loaded |
| Engine.PDFSearch.LoadSearchIndex | search-interface-ranked.js:7-15 | a successful fetch and parse replaces the index; a failure leaves whatever was there before |
| Engine.PDFSearch.Search | search-interface-ranked.js:17-87 | the results are `SearchResults` of the current index; no index, or a query with no term of two or more characters, yields no results |
| Engine.ScoreAndFilter | search-interface-ranked.js:24-81 | the map and filter passes keep, in index order, exactly the result of each entry that scores |
| Engine.HitsSound | search-interface-ranked.js:70-81 | every kept hit comes from an index entry, with that entry's own scores |
| Engine.HitsComplete | search-interface-ranked.js:70-81 | every index entry with a positive score is kept |
| Engine.HitsStep | search-interface-ranked.js:24-81 | the map and filter passes over one more entry append that entry's hit when it scores, and nothing otherwise |
| Engine.ScoreFacts | search-interface-ranked.js:67-79 | an entry yields a result exactly when title plus content score is positive; the result carries the entry, both scores, their sum and at most three excerpts |
| Engine.ResultsSound | search-interface-ranked.js:17-87 | every search result is the result of some index entry that scores |
| Engine.ResultsComplete | search-interface-ranked.js:17-87 | every index entry that scores is among the results |
| Engine.ResultsAreScoredEntries | search-interface-ranked.js:17-87 | an entry appears among the results if and only if its total score is positive, and each result carries its entry's title score, content score, their positive sum and its excerpts |
| Engine.ResultsRanked | search-interface-ranked.js:83-84 | results are in non-increasing total-score order, and results with equal score keep their index order (a stable sort) |
| Engine.ShortQueriesFindNothing | search-interface-ranked.js:20-21 | a query whose words are all shorter than two characters finds nothing, whether or not the index is loaded |
| Engine.ResultSnippetsBounded | search-interface-ranked.js:76 | every result has at most three excerpts, and one without content has none |
| Query.KeepLong | search-interface-ranked.js:20 | every kept piece is one of the pieces and longer than one character, and every piece longer than one character is kept |
| Query.KeepLongAppend | search-interface-ranked.js:20 | filtering works piece by piece: the filter of a + b is the filter of a followed by the filter of b, so order and repeats are kept |
| Query.KeepLongOne | search-interface-ranked.js:20 | a single piece is kept exactly when it is longer than one character |
| Query.KeepLongOfLong | search-interface-ranked.js:20 | pieces that are all longer than one character pass the filter unchanged |
| Query.TokenizeOfJoin | search-interface-ranked.js:20 | lower-case whitespace-free words of two or more characters, joined with single spaces, tokenise back to the same words in the same order |
| Query.Tokenize | search-interface-ranked.js:20 | every search term is longer than one character |
| Query.TermsShape | search-interface-ranked.js:20 | every term is a lower-case, whitespace-free word of two or more characters, and every such word of the lower-cased query is a term |
| Query.NoTermsOfShortWords | search-interface-ranked.js:20-21 | a query made of words of at most one character has no terms |
| Query.KeepLongOfShort | search-interface-ranked.js:20 | filtering pieces of length at most one leaves nothing |
| Query.TokenizeIgnoresCase | search-interface-ranked.js:20 | the terms do not depend on the query's letter case |
| Scoring.ContentText | search-interface-ranked.js:27 | a missing content reads as the empty text |
| Scoring.ExactBonus | search-interface-ranked.js:33-36 | 1000 points when the lower-cased title equals the lower-cased query, otherwise none |
| Scoring.TermBonus | search-interface-ranked.js:39-47 | 100 points for a term the title includes, 50 more when the title starts with it (stated by TermBonusValues) |
| Scoring.TitleBonuses | search-interface-ranked.js:39-48 | the term bonuses summed over the terms in order (stated by TitleBonusesPositive) |
| Scoring.TermCount | search-interface-ranked.js:50-63 | one point per non-overlapping match of the term, none in an empty content (stated by TermCountZero) |
| Scoring.Counts | search-interface-ranked.js:49-64 | the term counts summed over the terms in order (stated by CountsPositive) |
| Scoring.TitleScore | search-interface-ranked.js:30-48 | the exact-title bonus plus the term bonuses of the lower-cased title (stated by TitleScorePositive) |
| Scoring.ContentScore | search-interface-ranked.js:27-64 | the summed counts in the lower-cased content, a missing content reading as empty (stated by ContentScorePositive) |
| Scoring.ScoreItem | search-interface-ranked.js:26-64 | the loop over the terms computes the title score and the content score of the entry |
| Scoring.TermBonusValues | search-interface-ranked.js:39-47 | a term earns nothing if the title lacks it, 150 if the title starts with it, 100 if it occurs elsewhere in the title |
| Scoring.TitleBonusesPositive | search-interface-ranked.js:38-48 | the term bonuses are positive if and only if some term occurs in the title, and they are at most 150 per term |
| Scoring.TitleScorePositive | search-interface-ranked.js:30-48 | the title score is positive if and only if the title equals the query or contains a term; it is at least 1000 on an exact match and at most 150 per term otherwise |
| Scoring.TermCountZero | search-interface-ranked.js:50-61 | a term is counted zero times if and only if the content lacks it, and its non-overlapping occurrences fit in the content |
| Scoring.CountsPositive | search-interface-ranked.js:50-64 | the summed counts are positive if and only if some term occurs in the content |
| Scoring.ContentScorePositive | search-interface-ranked.js:27 | the content score is positive if and only if some term occurs in the lower-cased content; a record without content scores zero |
| Scoring.Relevance | search-interface-ranked.js:151 | the relevance shown for a total score: a tenth of it rounded down, capped at 100 (its properties are in RelevanceIs) |
| Scoring.RelevanceIs | search-interface-ranked.js:151 | the relevance shown is at most 100, is 100 exactly from a total of 1000, and below that is the total divided by ten, rounded down |
| Scoring.RelevanceMonotone | search-interface-ranked.js:151 | a higher total never shows a lower relevance |
| Occurrences.CountOccurrences | search-interface-ranked.js:53-61 | the `indexOf` loop counts the successive non-overlapping matches of the term |
| Occurrences.Matches | search-interface-ranked.js:52-61 | the positions the repeated `indexOf` finds, each search resuming just after the previous match (stated by MatchesAreOccurrences, MatchesApart, MatchesCover and MatchesEmptyIff) |
| Occurrences.MatchesUnfold | search-interface-ranked.js:56-61 | after a found match, counting resumes just past it |
| Occurrences.MatchesAreOccurrences | search-interface-ranked.js:56-61 | every counted position is an occurrence at or after the start |
| Occurrences.MatchesApart | search-interface-ranked.js:56-61 | counted matches do not overlap: each starts at least one term length after the previous one |
| Occurrences.MatchesCover | search-interface-ranked.js:56-61 | every occurrence overlaps a counted match, so none is missed except those hidden inside a counted one |
| Occurrences.MatchesBound | search-interface-ranked.js:56-61 | count times term length is at most the length of the text searched |
| Occurrences.MatchesEmptyIff | search-interface-ranked.js:56-61 | there is no match if and only if the content does not include the term |
| Occurrences.OverlapsCountOnce | search-interface-ranked.js:56-61 | "aa" is counted once in "aaa": the search resumes after the match, not inside it |
| Snippets.SnippetAt | search-interface-ranked.js:105-112 | the excerpt around a match: the original-case text from 50 characters before it to 50 after it, clamped to the content, wrapped in "..." (its properties are in SnippetShowsMatch) |
| Snippets.SnippetShowsMatch | search-interface-ranked.js:101-112 | an excerpt of a match starts and ends with "...", is at most the term plus 100 characters of context plus the dots long, and shows at the match's place text whose lower-case form is the term |
| Snippets.SnippetsAt | search-interface-ranked.js:101-115 | one excerpt per given match position, in order (stated by SnippetsAtConcat) |
| Snippets.TermSnippets | search-interface-ranked.js:97-115 | the excerpts of every counted match of one term in the lower-cased content, cut from the original-case content (stated by TermSnippetsSplit) |
| Snippets.AllSnippets | search-interface-ranked.js:96-116 | the excerpts of every term, the terms taken in query order (stated by GetContentSnippets) |
| Snippets.ContentSnippets | search-interface-ranked.js:89-124 | what getContentSnippets returns: nothing for a missing or empty content, otherwise the first `maxSnippets` excerpts of every match of every term (specified by GetContentSnippets) |
| Snippets.GetContentSnippets | search-interface-ranked.js:89-124 | the excerpts are those of every match of every term, terms in order, cut at `maxSnippets`; no content gives none |
| Snippets.ScanTerm | search-interface-ranked.js:96-116 | the inner loop extends the excerpts with this term's matches, in order, until there are `maxSnippets` in all |
| Snippets.Take | search-interface-ranked.js:100 | cutting at n keeps the first min(n, length) elements |
| Snippets.TakeTake | search-interface-ranked.js:96-116 | cutting at n, appending more, and cutting at n again is the same as appending first and cutting once, so excerpts found after the bound change nothing |
| Snippets.TermSnippetsSplit | search-interface-ranked.js:100-115 | splitting a term's matches into those processed and those left splits its excerpts the same way |
| Snippets.SnippetsAtConcat | search-interface-ranked.js:105-112 | the excerpts of two runs of positions are the excerpts of each run, one after the other |
| Snippets.MatchesResume | search-interface-ranked.js:101-114 | a match found at `lastPos` is the next counted match, and the scan resumes after it |
| Ranking.SortByScore | search-interface-ranked.js:84 | the stable sort by decreasing total score, by insertion (its properties are in SortByScoreSorted, SortByScorePermutes, SortByScoreStable and SortByScoreUnique) |
| Ranking.Insert | search-interface-ranked.js:84 | one step of the sort: the hit goes in front of the first hit that does not score more (stated by InsertPermutes, InsertSorted and InsertOfScore) |
| Ranking.InsertOfScore | search-interface-ranked.js:84 | inserting a hit leaves the hits of every other score as they were and puts it first among the hits of its own score |
| Ranking.InsertPermutes | search-interface-ranked.js:84 | inserting adds exactly the one hit |
| Ranking.InsertSorted | search-interface-ranked.js:84 | inserting into a sorted list keeps it sorted |
| Ranking.SortByScoreSorted | search-interface-ranked.js:84 | the sorted results are in non-increasing total score |
| Ranking.SortByScorePermutes | search-interface-ranked.js:84 | sorting is a permutation of the hits |
| Ranking.SortByScoreStable | search-interface-ranked.js:84 | for each score, the hits with that score keep their relative order |
| Ranking.SortByScoreUnique | search-interface-ranked.js:84 | any sorted list that keeps the order within each score equals the sort, so the order is fully determined |
| Ranking.SortedEqual | search-interface-ranked.js:84 | two sorted lists that agree score by score are equal |
| Ranking.SortedTop | search-interface-ranked.js:84 | in a sorted list bounded by `top`, a hit scoring `top` exists if and only if the first one scores `top`, and then it is the first |
| Corpus.ExtractTitlesFromIndex | search_implementation.js:57-61 | one title per anchor, in anchor order; each title is empty or neither starts nor ends with whitespace, and is a slice of its anchor's text with only whitespace cut off before and after it |
| Corpus.ListingRecordsShape | search_implementation.js:23-30 | a listing page yields one content-less record per anchor, linking to the page's path with its first "index.html" removed, which is the directory itself when the directory's path does not mention "index.html" |
| Corpus.Join | search_implementation.js:16 | `path.join` of a directory and an entry name, as the two joined with "/" |
| Corpus.Descends | search_implementation.js:20 | the prune rule: a directory is descended into unless its name starts with "." or is node_modules (stated by the PrunedDirectoryIgnored lemmas of each generator) |
| Corpus.PdfText | search_implementation.js:33-37 | the text of a PDF, or none when reading or parsing it throws |
| Corpus.ListingRecords | search_implementation.js:26-30 | the records of a listing page: one per title, without content, linking to the page's path with its first "index.html" removed (stated by ListingRecordsShape) |
| Corpus.ListingPathIsDirectory | search_implementation.js:29 | when the directory's path does not mention "index.html", removing the first "index.html" from the page's path leaves the directory and a "/" |
| Corpus.ReplaceExtension | search_implementation.js:40-43 | replacing the extension of a stem that does not contain it rewrites exactly the ending |
| Corpus.CrawlEntriesAppend | search_implementation.js:15-50 | when no entry of the first part aborts, crawling two runs of entries yields their records one after the other |
| Corpus.CrawlEntriesAbort | search_implementation.js:11-55 | an aborting entry drops itself and everything after it in its directory, and keeps what came before |
| Corpus.CrawlEntriesSkip | search_implementation.js:15-50 | an entry that neither aborts nor contributes records can be removed without changing the result |
| Corpus.CrawlEntriesReplaceInert | search_implementation.js:15-50 | two entries that each neither abort nor contribute are interchangeable |
| Corpus.Crawl | search_implementation.js:11-55 | the recursive crawl of one directory: nothing when it cannot be listed, otherwise the loop over its entries (stated by CrawlFrom, CrawlOnly and each generator's crawl method) |
| Corpus.CrawlEntries | search_implementation.js:15-51 | the loop over the entries: the first entry's records, then the rest, stopping at an entry that aborts (stated by CrawlEntriesStep, CrawlEntriesAppend, CrawlEntriesAbort and CrawlEntriesSkip) |
| Corpus.EntryRecords | search_implementation.js:18-50 | one entry's records: its own crawl when descended into, what the classifier emits otherwise, nothing on an abort |
| Corpus.CrawlEntriesStep | search_implementation.js:15-51 | the loop at entry i: nothing if it aborts, otherwise its records followed by those of the later entries |
| Corpus.CrawlEntriesLoopStep | search_implementation.js:15-51 | the loop's bookkeeping: an aborting entry ends it with the total reached, any other moves its records to the accumulated part |
| Corpus.CrawlOnly | search_implementation.js:11-55 | a property that every record the classifier emits has holds of every record of the walk |
| Corpus.CrawlFrom | search_implementation.js:11-55 | every record of the walk is one the classifier emits for some entry of the tree, at the place where the walk meets that entry |
| Corpus.CrawlEntriesFrom | search_implementation.js:15-51 | every record of the loop over a directory's entries is one the classifier emits for one of those entries or for an entry below one of them |
| Corpus.ListingRecordsContent | search_implementation.js:27-30 | no listing record carries content |
| SearchImplementation.Classify | search_implementation.js:18-50 | the loop body's `if / else if` chain for one entry: descend into a directory that is not pruned, emit the listing records of a readable index.html and abort on an unreadable one, emit a PDF's record, and emit nothing otherwise (its cases are stated by DirectoryEntry, ListingEntry, PdfEntry, OtherEntry and OnlyListingReadAborts) |
| SearchImplementation.Records | search_implementation.js:11-55 | crawlDirectory's records: the shared walk with this generator's classifier and `path.join` (stated by RecordsFromFiles, TraversalOrder and the per-entry lemmas) |
| SearchImplementation.PdfRecords | search_implementation.js:31-49 | a PDF's record: the name minus its first ".pdf", the path with its first ".pdf" turned into ".html", and the text; none when extraction fails (stated by PdfFileRecord) |
| SearchImplementation.PlainHtmlPath | search_implementation.js:40 | when neither the directory path nor the stem mention ".pdf", the link of stem + ".pdf" is the sibling stem + ".html" |
| SearchImplementation.DirectoryEntry | search_implementation.js:18-22 | a directory never aborts, and contributes its own crawl unless it is pruned |
| SearchImplementation.ListingEntry | search_implementation.js:23-30 | index.html aborts exactly when it cannot be read, and otherwise contributes its listing records |
| SearchImplementation.PdfEntry | search_implementation.js:31-49 | a .pdf file other than index.html never aborts and contributes its PDF records |
| SearchImplementation.OtherEntry | search_implementation.js:16-50 | any other file neither aborts nor contributes |
| SearchImplementation.RecordsFromFiles | search_implementation.js:11-55 | every record without content is one of the listing records of a readable index.html of the tree, and every record with content is the record of a readable .pdf file of the tree, with that PDF's text |
| SearchImplementation.Generator.constructor | search_implementation.js:9 | the index starts empty |
| SearchImplementation.Generator.CrawlDirectory | search_implementation.js:11-55 | the recursive crawl appends exactly the records of the walk of the directory to the index |
| SearchImplementation.Generator.VisitEntry | search_implementation.js:16-50 | one loop body appends its entry's records and reports whether it aborted the loop |
| SearchImplementation.GenerateSearchIndex | search_implementation.js:63-76 | the index written is the walk of the tree at the working directory |
| SearchImplementation.PrunedDirectoryIgnored | search_implementation.js:18-22 | a hidden directory or node_modules contributes nothing, whatever it holds |
| SearchImplementation.SubdirectoryRecords | search_implementation.js:18-22 | any other directory contributes the records of its own crawl, and nothing if it cannot be read |
| SearchImplementation.ListingPageRecords | search_implementation.js:23-30 | a readable index.html yields one content-less record per anchor, with trimmed titles; when the directory's path does not mention "index.html", each links to the directory itself (its path and a "/"), because only the first "index.html" is removed |
| SearchImplementation.PdfFileRecord | search_implementation.js:31-46 | a readable, parseable PDF yields one record with the name minus its first ".pdf" as title, the path with its first ".pdf" turned into ".html" as link, and the text as content |
| SearchImplementation.PdfFileRecordPlain | search_implementation.js:31-46 | for a stem that does not mention ".pdf" in a directory that does not either, the title is the stem and the link is the sibling .html file |
| SearchImplementation.FailedPdfSkipped | search_implementation.js:47-49 | a PDF that cannot be read or parsed is skipped and the walk goes on |
| SearchImplementation.OtherFileSkipped | search_implementation.js:16-50 | a file that is neither index.html nor a .pdf contributes nothing |
| SearchImplementation.OnlyListingReadAborts | search_implementation.js:23-49 | an entry aborts its directory if and only if it is an unreadable index.html |
| SearchImplementation.UnreadableListingAborts | search_implementation.js:23-30 | an unreadable index.html drops the rest of its directory and keeps what the earlier entries contributed |
| SearchImplementation.TraversalOrder | search_implementation.js:15-50 | the records come in depth-first order of the entries |
| SearchImplementation2.HtmlFilePath | search-implementation2.js:39-46 | the link of a PDF: its relative place below the PDF directory, with the first ".pdf" of its name turned into ".html", below the HTML directory (stated by PdfRelinked) |
| SearchImplementation2.Below | search-implementation2.js:28 | the place of a subdirectory: the segments of its parent followed by its name |
| SearchImplementation2.HtmlPath | search-implementation2.js:39-46 | a place below the HTML directory: its segments joined with "/" (stated by PdfRelinked and ListingLinksDirectory) |
| SearchImplementation2.PdfRecords | search-implementation2.js:30-55 | a PDF's record: the name minus its first ".pdf", the HTML file at the same place, and the text; none when extraction fails (stated by PdfRelinked and PdfPhaseHasContent) |
| SearchImplementation2.PdfPhase | search-implementation2.js:18-61 | crawlPDFDirectory's records: the shared walk with the PDF classifier (stated by PdfPhaseHasContent and PdfTraversalOrder) |
| SearchImplementation2.IndexPhase | search-implementation2.js:63-88 | collectIndexFiles's records: the shared walk with the listing classifier (stated by IndexPhaseHasNoContent) |
| SearchImplementation2.Index | search-implementation2.js:96-103 | the whole index: the PDF phase followed by the listing phase (stated by PhasesInOrder) |
| SearchImplementation2.PdfClassify | search-implementation2.js:25-56 | the PDF crawl's loop body for one entry: descend into a directory that is not pruned, emit a PDF's record, and emit nothing otherwise; it never aborts (stated by PdfPrunedDirectoryIgnored, PdfPhaseNeverAborts and PdfSkipped) |
| SearchImplementation2.IndexClassify | search-implementation2.js:70-83 | the listing crawl's loop body for one entry: descend into a directory that is not pruned, emit the listing records of a readable index.html, abort on an unreadable one, and emit nothing otherwise (stated by IndexPrunedDirectoryIgnored, UnreadableIndexAborts, NonIndexFileSkipped and ListingLinksDirectory) |
| SearchImplementation2.Generator.constructor | search-implementation2.js:16 | the index starts empty |
| SearchImplementation2.Generator.CrawlPdfDirectory | search-implementation2.js:18-61 | the PDF crawl appends exactly the PDF-phase records of the directory |
| SearchImplementation2.Generator.VisitPdfEntry | search-implementation2.js:24-56 | one loop body of the PDF crawl appends its entry's records |
| SearchImplementation2.Generator.CollectIndexFiles | search-implementation2.js:63-88 | the listing crawl appends exactly the listing-phase records of the directory |
| SearchImplementation2.Generator.VisitIndexEntry | search-implementation2.js:69-84 | one loop body of the listing crawl appends its entry's records and reports whether it aborted |
| SearchImplementation2.GenerateSearchIndex | search-implementation2.js:96-112 | the index is the PDF phase over the PDF directory followed by the listing phase over the HTML directory |
| SearchImplementation2.PdfPhaseHasContent | search-implementation2.js:18-61 | every PDF-phase record is the record of a readable .pdf file of the tree: the name without its first ".pdf" as title, the HTML file at the same relative place as link, and that PDF's text as content |
| SearchImplementation2.IndexPhaseHasNoContent | search-implementation2.js:75-82 | no listing-phase record carries content |
| SearchImplementation2.PhasesInOrder | search-implementation2.js:96-112 | the records with content form a prefix of the index, and all records after them are listing records |
| SearchImplementation2.NoPdfAfterListing | search-implementation2.js:99-103 | once a listing record appears, no PDF record follows |
| SearchImplementation2.PdfRelinked | search-implementation2.js:39-52 | a readable PDF stem + ".pdf", whose stem does not mention ".pdf" (only the first occurrence is replaced), is indexed under its stem, linking to stem + ".html" at the same relative place below the HTML directory |
| SearchImplementation2.PdfPhaseNeverAborts | search-implementation2.js:24-58 | the PDF phase never drops the rest of a directory |
| SearchImplementation2.PdfSkipped | search-implementation2.js:30-55 | a file that is not a PDF, or a PDF that cannot be read or parsed, contributes nothing |
| SearchImplementation2.PdfPrunedDirectoryIgnored | search-implementation2.js:25-29 | a hidden directory or node_modules below the PDF directory contributes nothing to the PDF phase, whatever it holds |
| SearchImplementation2.PdfTraversalOrder | search-implementation2.js:24-56 | PDF records come in depth-first order of the entries |
| SearchImplementation2.ListingLinksDirectory | search-implementation2.js:75-82 | when the directory's path does not mention "index.html" (only the first occurrence is removed), a listing page yields one content-less record per anchor, with trimmed titles, linking to its directory below the HTML root ("" at the root itself) |
| SearchImplementation2.UnreadableIndexAborts | search-implementation2.js:75-86 | an unreadable index.html drops the rest of its directory in the listing phase |
| SearchImplementation2.NonIndexFileSkipped | search-implementation2.js:69-84 | every file but index.html, a PDF under the HTML directory included, contributes nothing to the listing phase |
| SearchImplementation2.IndexPrunedDirectoryIgnored | search-implementation2.js:70-74 | a hidden directory or node_modules below the HTML directory contributes nothing to the listing phase, whatever it holds |
| SearchInterface.Classify | search-interface.js:15-41 | the loop body's `if / else if` chain for one entry: descend into a directory that is not pruned, emit the listing records of index.html or the record of any other .html page but search.html, abort when either page cannot be read, and emit nothing otherwise (stated by PrunedDirectoryIgnored, ListingPageRecords, AbortingEntries, ContentPageRecord, ListingPageHasNoContent and OtherFileSkipped) |
| SearchInterface.ExtractTextContent | search-interface.js:55-62 | the page text: the trimmed `<div>` texts joined with one space (stated by TextContentLayout) |
| SearchInterface.DivTexts | search-interface.js:59-60 | the trimmed text of every `<div>`, in document order (stated by TextContentLayout) |
| SearchInterface.PageRecord | search-interface.js:36-40 | a content page's record: the name minus its first ".html", the full path, and the page text (stated by ContentPageRecord and ContentPageTitle) |
| SearchInterface.IsContentPage | search-interface.js:31 | a file is a content page when its name ends in ".html" and is not search.html |
| SearchInterface.Records | search-interface.js:10-46 | crawlDirectory's records: the shared walk with this generator's classifier and `path.join` (stated by ContentRecordsArePages and TraversalOrder) |
| SearchInterface.Generator.constructor | search-interface.js:8 | the index starts empty |
| SearchInterface.Generator.CrawlDirectory | search-interface.js:10-46 | the recursive crawl appends exactly the records of the walk of the directory |
| SearchInterface.Generator.VisitEntry | search-interface.js:15-41 | one loop body appends its entry's records and reports whether it aborted the loop |
| SearchInterface.GenerateSearchIndex | search-interface.js:64-77 | the index written is the walk of the tree at the working directory |
| SearchInterface.TextContentLayout | search-interface.js:55-62 | the page text holds the trimmed text of each `<div>`, in order, each at its offset, with exactly one space after each but the last and nothing after the last; each trimmed text is its `<div>`'s text with only surrounding whitespace cut off |
| SearchInterface.TextContentOfFewDivs | search-interface.js:55-62 | a page without `<div>`s has empty text, and one with a single `<div>` has its trimmed text |
| SearchInterface.ContentPageRecord | search-interface.js:31-40 | a readable content page yields one record: its name without the first ".html" as title, its own path, its text as content |
| SearchInterface.ContentPageTitle | search-interface.js:31-40 | a readable page stem + ".html", other than index.html and search.html and with a stem that does not mention ".html", yields exactly one record: the stem as title, its own path, its text as content |
| SearchInterface.ListingPageHasNoContent | search-interface.js:22-30 | index.html, although it ends in ".html", is a listing page, and its records have no content |
| SearchInterface.ListingPageRecords | search-interface.js:22-30 | a readable index.html contributes exactly its listing records, whose count, titles and paths ListingRecordsShape gives |
| SearchInterface.PrunedDirectoryIgnored | search-interface.js:17-21 | a hidden directory or node_modules contributes nothing, whatever it holds |
| SearchInterface.ContentRecordsArePages | search-interface.js:10-46 | every record with content is the record of one readable content page of the tree and links to a path ending in ".html"; every record without content is one of the listing records of a readable index.html of the tree |
| SearchInterface.OtherFileSkipped | search-interface.js:31 | search.html and every file that is neither index.html nor .html contribute nothing |
| SearchInterface.AbortingEntries | search-interface.js:22-40 | an entry aborts its directory if and only if it is an unreadable listing or content page |
| SearchInterface.UnreadablePageAborts | search-interface.js:22-45 | an unreadable page drops the rest of its directory and keeps what came before |
| SearchInterface.TraversalOrder | search-interface.js:15-41 | the records come in depth-first order of the entries |
| SearchInterface.ListingAndPage | search-interface.js:15-41 | a listing page with two anchors followed by a content page yields exactly three records: two content-less ones, then the page's |
| Strings.Lower | search-interface-ranked.js:20 | `toLowerCase` keeps the length (its properties are in LowerIsLowered and LowerOfLowered) |
| Strings.LowerOfLowered | search-interface-ranked.js:34 | lower-casing leaves lower-case text unchanged |
| Strings.JoinWithLowered | search-interface-ranked.js:20 | lower-case pieces joined with a lower-case separator give lower-case text |
| Strings.IndexOf | search-interface-ranked.js:57 | `indexOf` yields -1 or an occurrence at or after the clamped start |
| Strings.FindFrom | search-interface-ranked.js:57 | the search behind `indexOf`: -1 or an occurrence at or after the start (stated by FindFromLeftmost) |
| Strings.FindFromLeftmost | search-interface-ranked.js:57 | the search finds the leftmost occurrence: none lies between the start and the result |
| Strings.IndexOfIs | search-interface-ranked.js:57 | a position that is an occurrence with none before it, or -1 when there is none, is what `indexOf` returns |
| Strings.IndexOfLeftmost | search-interface-ranked.js:56 | `indexOf` returns the leftmost occurrence at or after the clamped start, or -1 |
| Strings.IncludesIff | search-interface-ranked.js:39 | `includes` holds if and only if the term occurs somewhere |
| Strings.StartsWithIncludes | search-interface-ranked.js:39-45 | a title that starts with a term includes it |
| Strings.Includes | search-interface-ranked.js:40 | `includes`: `indexOf` from the start finds the term (stated by IncludesIff) |
| Strings.StartsWith | search-interface-ranked.js:44 | `startsWith`: the text begins with the term |
| Strings.EndsWith | search_implementation.js:31 | `endsWith`: the text finishes with the suffix |
| Strings.EndsWithAppend | search-interface.js:31 | a text that ends with a suffix still ends with it after something is put in front |
| Strings.Trim | search_implementation.js:60 | `trim`: whitespace removed at both ends (stated by TrimIsInfix) |
| Strings.TrimIsInfix | search_implementation.js:60 | `trim` keeps a middle part of the text that neither starts nor ends with whitespace, and removes only whitespace |
| Strings.TrimAll | search_implementation.js:60 | each trimmed text of a list is its text with only surrounding whitespace cut off |
| Strings.Split | search-interface-ranked.js:20 | `split(/\s+/)` always yields at least one piece (its properties are in SplitNoSpace, SplitChars, SplitConcat, SplitOfWord and SplitOfJoin) |
| Strings.SplitOfWord | search-interface-ranked.js:20 | a text without whitespace is a single piece |
| Strings.SplitAtGap | search-interface-ranked.js:20 | a word followed by a run of whitespace and more text splits into the word followed by the pieces of that text |
| Strings.SplitOfJoin | search-interface-ranked.js:20 | splitting non-empty whitespace-free words joined with single spaces gives the same words back |
| Strings.SplitNoSpace | search-interface-ranked.js:20 | no piece of `split(/\s+/)` contains whitespace |
| Strings.SplitChars | search-interface-ranked.js:20 | every character of a piece comes from the input |
| Strings.SplitConcat | search-interface-ranked.js:20 | the pieces put together are the input with its whitespace removed |
| Strings.JoinWith | search-interface.js:61 | `join`: the pieces with the separator between neighbours (stated by JoinWithLayout) |
| Strings.JoinWithLength | search-interface.js:61 | the joined text is as long as the pieces together plus one separator per gap between neighbours |
| Strings.JoinWithSnoc | search-interface.js:61 | joining one more piece appends the separator and that piece |
| Strings.JoinWithLayout | search-interface.js:61 | each piece sits in the joined text at its offset, exactly one separator follows each piece but the last, and the text ends with the last piece |
| Strings.JoinWithPiece | search-interface.js:61 | piece k sits in the joined text at offset k |
| Strings.JoinWithSeparator | search-interface.js:61 | one separator follows piece k when it is not the last |
| Strings.JoinWithEnd | search-interface.js:61 | the joined text ends where the last piece ends |
| Strings.LowerIsLowered | search-interface-ranked.js:20 | lower-casing twice is lower-casing once |
| Strings.ReplaceFirst | search_implementation.js:29 | `replace` with a string pattern: only the first occurrence is replaced (stated by ReplaceFirstIs) |
| Strings.ReplaceFirstIs | search_implementation.js:29 | `replace` leaves the text unchanged when `indexOf` finds no pattern, and otherwise replaces exactly the occurrence `indexOf` finds |
| Strings.ReplaceFirstAbsent | search_implementation.js:40 | `replace` leaves a text without the pattern unchanged |
| Strings.ReplaceFirstAfterSeparator | search_implementation.js:40 | when the part before a separator lacks the pattern and the pattern lacks the separator, `replace` works on the part after the separator |
| Strings.ReplaceFirstSuffix | search_implementation.js:40-43 | when the stem lacks the pattern (and the pattern's first character does not recur in it), `replace` rewrites the pattern at the end |
| WorkedExample.QueryTerms | search-interface-ranked.js:20 | the query "memory" has the single term "memory" |
| WorkedExample.MemoryMatches | search-interface-ranked.js:56-61 | "memory" is found at positions 0 and 22 of the example text |
| WorkedExample.MemoryDocTitleScore | search-interface-ranked.js:30-48 | "Memory Management" earns 150 title points for "memory", with no exact-match bonus |
| WorkedExample.MemoryDocContentScore | search-interface-ranked.js:50-64 | the example text earns 2 content points for "memory" |
| WorkedExample.AllocatorTitleScore | search-interface-ranked.js:30-48 | "Allocator" earns no title points for "memory" |
| WorkedExample.AllocatorContentScore | search-interface-ranked.js:50-64 | "general allocator design" earns no content points for "memory" |
| WorkedExample.HitsOfPair | search-interface-ranked.js:24-81 | of two entries of which only the first scores, the filter keeps the first alone |
| WorkedExample.SearchOfPair | search-interface-ranked.js:17-87 | a search of such a pair returns the first entry's result alone |
| WorkedExample.ExampleScores | search-interface-ranked.js:30-64 | the scores of both example entries against the query's terms |
| WorkedExample.MemorySearch | search-interface-ranked.js:17-87 | searching the two-entry index for "memory" returns only "Memory Management", with 150 title points, 2 content points and 152 in all |

## Left out

- Fetching `search-index.json` and parsing its JSON are not modelled. `LoadSearchIndex` takes what they yield as a parameter, with `None` for a failure.
- The engine does not model the console logging of a failed load, or the asynchronous timing of that load relative to searches.
- The index generators do not model writing `search-index.json`, their console output, or `fs.readFile` and `fs.readdir` as operations. The directory tree is an input. Each file carries whether it can be read, the text jsdom reports for its `<a>` and `<div>` elements, and the text pdf-parse extracts, so nothing from jsdom or pdf-parse is modelled.
- `process.cwd()` is not called: the starting directory is a parameter of `GenerateSearchIndex`.
- Paths are joined with "/" and not normalised as `path.join` would; in the two-phase generator, `path.relative` is modelled by carrying the list of segments below the PDF directory.
- `toLowerCase` is modelled for ASCII letters only; Unicode case mapping and UTF-16 code units are not modelled.
- The `async`/`await` sequencing of the generators is modelled as ordinary sequential calls; they have no concurrency.
- The search page's user interface is not modelled: `initSearch`, `highlightTerms`, the HTML rendering, and the event handlers. The relevance expression rendered for each result is modelled as `Scoring.Relevance`.
- The truncation branch at the end of `getContentSnippets` is not a separate branch. The scan never collects more than `maxSnippets` excerpts, so that branch cannot be taken, and `GetContentSnippets` states the result it returns.
- A record's missing title is modelled as the empty string, and a missing content as `None`. Non-string or malformed JSON values are not modelled.
- The `...item` spread copying every field of a record into its result is modelled as the result holding the record itself (`Hit.item`).
- Engine.PDFSearch.constructor: the call to `loadSearchIndex` inside the constructor is left to the caller: a new object is followed by `LoadSearchIndex`.
- The `PDF_DIRECTORY` and `HTML_DIRECTORY` constants of `search-implementation2.js` are not modelled as strings: they enter only as the roots of the two trees given to `GenerateSearchIndex`, and each PDF's link is built from its segments below the PDF root.
- Query.KeepLong: its own contract speaks of membership only; order and repeats are stated by Query.KeepLongAppend and Query.KeepLongOne.
- Strings.JoinWithLength: it states the length only; the joined text itself is stated by Strings.JoinWithLayout.
