# A verified model of the `RustDocAnalyzer` core

`scripts/analyze_official_docs.py` cross-references the table of contents of
a Rust book (its `src/SUMMARY.md`) against a fixed catalog of the official
Rust documents. This project models the `RustDocAnalyzer` class of that file
in Dafny and proves properties of the model. The analyzer has five parts:

- **catalog**: three fixed tables. Document id -> display name
  (`doc_categories`), topic -> reference tokens `"doc:section"`
  (`topic_mapping`), and keyword -> topics (`keywords_to_topics`). The
  analyzer never mutates them after `__init__`, so the model holds them in an
  immutable `Catalog.Catalog` value. `Catalog.Analyzer` is the shipped one.
- **parser** (`analyze_book_structure`): files every `- [title](path)` item
  under the `# Part` heading in force. Each chapter gets the level
  `line.count('  ')`.
- **mapper** (`map_to_official_docs`): for each chapter and each keyword in
  its title, appends the reference tokens of the keyword's known topics under
  the chapter's path, then removes duplicates.
- **aggregator** (`generate_coverage_report`):
  - counts references per document id;
  - lists the known documents in descending order of count, with a
    percentage;
  - counts, per topic, the mapping keys (paths) whose reference list holds
    at least one of its tokens.
- **renderer** (`generate_mapping_table`): one markdown table per part.
  Each chapter row shows its indented title and the display labels of its
  references, or the sentinel `独自コンテンツ` when it has none.

Python's `dict` (insertion-ordered) and `defaultdict` are modelled as
`Collections.OrderedMap`, which holds a key sequence and a map.
`Collections.Accumulate` models `defaultdict(list)` with `append`/`extend`.
`Collections.Tally` models `defaultdict(int)` with `+= 1`.
`Collections.SortDesc` models `sorted(..., key=count, reverse=True)`.
`Collections.Dedup` models `list(set(...))`.

The file's loops are methods. Each method's `ensures` ties its result to a
specification function, and separate lemmas prove properties of those
functions.

## Model

| member | source | states |
|---|---|---|
| Catalog.AnalyzerTokensSplit | scripts/analyze_official_docs.py:35-57 | every token in the shipped topic mapping splits at `:` into exactly two pieces |
| Catalog.AnalyzerTopicsNonEmpty | scripts/analyze_official_docs.py:35-57 | no topic of the shipped mapping has an empty token list |
| Catalog.AnalyzerRulesKnown | scripts/analyze_official_docs.py:94-112 | every keyword rule names at least one topic, and every topic a rule names is a key of `topic_mapping` |
| Catalog.SharedChapterTen | scripts/analyze_official_docs.py:39-40 | `the_book:ch10` is listed under both `traits` and `generics` |
| Strings.ContainsIff | scripts/analyze_official_docs.py:120 | `keyword in title` holds exactly when the keyword occurs at some position of the title |
| Strings.JoinSplit | scripts/analyze_official_docs.py:72 | joining the pieces of `content.split('\n')` with `\n` gives the content back |
| Strings.StripSpec | scripts/analyze_official_docs.py:74-75 | `strip` returns a slice that neither starts nor ends with a stripped character; everything it cuts off is made of those characters |
| Strings.CountPositiveIff | scripts/analyze_official_docs.py:84 | a non-empty substring is counted at least once exactly when it occurs |
| Strings.CountBound | scripts/analyze_official_docs.py:84 | non-overlapping occurrences of `sub` number at most `len(s) / len(sub)` |
| Strings.IndentRoundTrip | scripts/analyze_official_docs.py:84 | `('  ' * n).count('  ') == n`: the renderer's indent gives back the parser's level |
| LinkPattern.IndexFrom | scripts/analyze_official_docs.py:77 | the first position at or after `k` that holds the character, or none |
| LinkPattern.TitleEnd | scripts/analyze_official_docs.py:77 | the first `](` from `j` on that is followed by a `)`, with no earlier complete close |
| LinkPattern.FindLink | scripts/analyze_official_docs.py:77 | the rightmost `[` from which the rest of the pattern matches; the lazy title and path groups end at their first possible close |
| LinkPattern.FirstLine | scripts/analyze_official_docs.py:77 | the longest newline-free prefix of the line, ending just before the first newline if there is one; this is all that `.` can match |
| LinkPattern.MatchLink | scripts/analyze_official_docs.py:77-80 | on a match, neither group holds a newline and the path holds no `)` |
| LinkPattern.MatchLinkSpec | scripts/analyze_official_docs.py:77-80 | the match succeeds exactly when a `[`, a later `](` and a `)` after that occur; title and path are the groups the greedy `.*` and the lazy groups select |
| BookStructure.AnalyzeBookStructure | scripts/analyze_official_docs.py:59-87 | a missing file gives the empty structure; otherwise the result is the structure the line-by-line specification builds |
| BookStructure.Classify | scripts/analyze_official_docs.py:73-85 | a `# Part` line changes the part and is never a chapter; a line is a chapter exactly when it is not such a heading, its stripped form starts with `- [` and the link pattern matches; a chapter's level is at most half the line's length and its path holds no `)` |
| BookStructure.EntriesLength | scripts/analyze_official_docs.py:75-85 | one append per chapter line |
| BookStructure.EntryOfLine | scripts/analyze_official_docs.py:71-85 | the chapter of a chapter line is appended in line order, under the part in force at that line |
| BookStructure.LineOfEntry | scripts/analyze_official_docs.py:71-85 | every appended chapter comes from a chapter line and is filed under the part in force there |
| BookStructure.PartAfterSpec | scripts/analyze_official_docs.py:71-74 | the part in force is the name of the latest `# Part` heading, or `Introduction` if there has been none |
| BookStructure.StructureKeys | scripts/analyze_official_docs.py:61-87 | the keys are exactly the parts some chapter line was filed under; each holds the chapters filed there, in line order |
| BookStructure.StructureNonEmpty | scripts/analyze_official_docs.py:81-87 | no part holds an empty chapter list |
| BookStructure.NoChapterLines | scripts/analyze_official_docs.py:61-87 | with no chapter line the structure is empty, whatever headings there are |
| BookStructure.IndentLevel | scripts/analyze_official_docs.py:84 | `n` two-space units before text that has no double space give level `n` |
| DocsMapping.AddTopicRefs | scripts/analyze_official_docs.py:121-123 | the mapping extended, in order, by the token lists of the topics that are in `topic_mapping` |
| DocsMapping.AddChapterRefs | scripts/analyze_official_docs.py:116-123 | the mapping extended by the requests of every rule whose keyword is in the title, in rule order |
| DocsMapping.AddPartRefs | scripts/analyze_official_docs.py:115-123 | the mapping extended by the requests of the part's chapters, in order |
| DocsMapping.CollectRefs | scripts/analyze_official_docs.py:91-123 | the `defaultdict(list)` built from every chapter's requests, parts and chapters in order |
| DocsMapping.DeduplicateAll | scripts/analyze_official_docs.py:126-127 | the same keys, each value replaced by its deduplicated list |
| DocsMapping.MapToOfficialDocs | scripts/analyze_official_docs.py:89-129 | the result equals the mapping specification, which the lemmas below characterise |
| DocsMapping.MappingOfShape | scripts/analyze_official_docs.py:114-129 | the keys are the paths that some request was made for; each holds its requested tokens, deduplicated |
| DocsMapping.MappingKeys | scripts/analyze_official_docs.py:119-123 | a path is a key exactly when some chapter with that path has a keyword with a known topic in its title |
| DocsMapping.MappingContents | scripts/analyze_official_docs.py:119-127 | a token is under a path exactly when some chapter with that path yields it through a keyword and a known topic; no token occurs twice and deduplicating again changes nothing |
| DocsMapping.MappingNonEmpty | scripts/analyze_official_docs.py:122-127 | if no topic list is empty, no key holds an empty list |
| DocsMapping.KnownRulesMappingKeys | scripts/analyze_official_docs.py:119-123 | if every rule names a known topic, a path is a key exactly when some chapter with that path has a keyword in its title |
| DocsMapping.AnalyzerMappingKeys | scripts/analyze_official_docs.py:94-123 | for the shipped tables: a path is a key exactly when a chapter with that path has one of the 17 keywords in its title, and its list is never empty |
| Coverage.DocId | scripts/analyze_official_docs.py:143 | `ref.split(':')[0]`: the longest colon-free prefix of the token, ending just before its first colon if there is one |
| Coverage.Percent | scripts/analyze_official_docs.py:153 | zero when the total is zero; otherwise between 0 and 100 whenever count <= total |
| Coverage.CountDocuments | scripts/analyze_official_docs.py:138-145 | `doc_coverage` is the tally of the document ids of all tokens in mapping order; `total_refs` is the number of tokens |
| Coverage.TotalIsListLengths | scripts/analyze_official_docs.py:141-145 | the tokens counted are the sum of the list lengths of the mapping |
| Coverage.DocCountsSum | scripts/analyze_official_docs.py:141-145 | the per-document counts add up to the total reference count; each count is the number of tokens with that id |
| Coverage.DocPercentsSum | scripts/analyze_official_docs.py:150-153 | when there is at least one reference, the per-document percentages add up to exactly 100 |
| Coverage.ListDocuments | scripts/analyze_official_docs.py:150-154 | the lines are the known documents of the count items sorted by count, descending |
| Coverage.DocLinesMembers | scripts/analyze_official_docs.py:150-154 | a line is listed exactly when its id appears in the items, is a known document, and carries that id's display name, count and percentage |
| Coverage.ReportDocs | scripts/analyze_official_docs.py:138-154 | a document line is in the report exactly when it has the name of a document id that occurs in the mapping, its count and its percentage; counts are descending; lines with equal counts keep first-occurrence order |
| Coverage.CoveredTopicsOf | scripts/analyze_official_docs.py:160-164 | `topics_covered` is the set of topics whose token list shares a token with the chapter's refs |
| Coverage.TopicsHolding | scripts/analyze_official_docs.py:162-164 | the topics whose token list contains the token |
| Coverage.BumpAll | scripts/analyze_official_docs.py:166-167 | every covered topic's count goes up by one, and no other count changes |
| Coverage.CountTopics | scripts/analyze_official_docs.py:158-167 | each topic's count is the number of mapping keys whose list shares a token with the topic; present counts are positive; a topic first covered by an earlier mapping key is added to the counter before one first covered by a later key |
| Coverage.CoveringBound | scripts/analyze_official_docs.py:166-169 | a topic is counted at most once per mapping key, so never more than `len(mapping)` |
| Coverage.SharedTokenCreditsBoth | scripts/analyze_official_docs.py:161-164 | a chapter holding `the_book:ch10` covers both `traits` and `generics` |
| Coverage.ListTopics | scripts/analyze_official_docs.py:169-172 | the lines are the topic counts sorted by count, descending, each with its percentage of `len(mapping)` |
| Coverage.FirstCoverSpec | scripts/analyze_official_docs.py:159-167 | the index of the first mapping key covering a topic: that key covers it, no earlier key does, and such a key exists exactly when the topic's count is positive |
| Coverage.TopicTies | scripts/analyze_official_docs.py:159-170 | when the counter's keys are in first-cover order, the sorted topic lines with equal counts are in first-cover order too |
| Coverage.ReportTopics | scripts/analyze_official_docs.py:158-172 | a topic line is in the report exactly when the topic covers a positive number of chapters, with that count and its percentage; each topic is listed once; counts are descending; no percentage exceeds 100; at equal counts, a topic first covered by an earlier mapping key comes first |
| Coverage.GenerateCoverageReport | scripts/analyze_official_docs.py:131-174 | the report's total and its document lines are exactly as in the rows above; its topic lines are exactly the covered topics, each listed once with its mapping-key count and percentage, in descending order of count, and at equal counts in the order of the first mapping key covering them |
| MappingTable.SplitRef | scripts/analyze_official_docs.py:194 | fails (Python raises `ValueError`) exactly when the token has two or more colons; otherwise the pieces are colon-free and rejoin to the token, and a colon-free token gives `(ref, '')` |
| MappingTable.RefLinks | scripts/analyze_official_docs.py:192-197 | the label list of the refs, or failure as soon as a token cannot be unpacked |
| MappingTable.CellOf | scripts/analyze_official_docs.py:189-201 | the cell of a chapter's refs: the sentinel for none, otherwise the labels joined by `, ` |
| MappingTable.RowsOf | scripts/analyze_official_docs.py:186-204 | the rows of a part's chapters, or failure at the first failing cell |
| MappingTable.GenerateMappingTable | scripts/analyze_official_docs.py:176-206 | the result equals the table specification, joined by newlines |
| MappingTable.RefLabelsDefined | scripts/analyze_official_docs.py:193-194 | the labels exist exactly when every token has at most one colon |
| MappingTable.RefLabelsMembers | scripts/analyze_official_docs.py:195-197 | a label is listed exactly when some token's document is known and the label is its display name, a space and its section |
| MappingTable.CellSentinel | scripts/analyze_official_docs.py:191-201 | the cell is the sentinel exactly when the chapter has no refs |
| MappingTable.CellEmpty | scripts/analyze_official_docs.py:191-199 | the cell is empty exactly when the chapter has refs but none of a known document |
| MappingTable.ChapterRowsShape | scripts/analyze_official_docs.py:186-204 | the rows exist exactly when every cell does; then there is one row per chapter, `\| indent title \| cell \|` |
| MappingTable.PartLinesDefined | scripts/analyze_official_docs.py:181-204 | a part's lines exist exactly when its rows exist |
| MappingTable.PartLinesShape | scripts/analyze_official_docs.py:181-204 | each part gives its heading, the column header, the rule and its chapter rows, parts in order |
| MappingTable.TableShape | scripts/analyze_official_docs.py:179-204 | the title line, then three lines per part plus one per chapter, in order |
| MappingTable.TableDefined | scripts/analyze_official_docs.py:189-194 | for a mapping from the mapper, the table exists when every topic token has exactly one colon |
| MappingTable.AnalyzerTableDefined | scripts/analyze_official_docs.py:176-206 | with the shipped tables, the table of the mapper's output always exists |
| Collections.Dedup | scripts/analyze_official_docs.py:127 | no duplicates, the same members, never longer |
| Collections.DedupIdempotent | scripts/analyze_official_docs.py:127 | deduplicating twice equals deduplicating once |
| Collections.Accumulate | scripts/analyze_official_docs.py:81 | keys in order of first use; each key holds the concatenation of its requests in order |
| Collections.GatheredMembers | scripts/analyze_official_docs.py:123 | a value is gathered under a key exactly when some request for that key carries it |
| Collections.Tally | scripts/analyze_official_docs.py:144 | keys in order of first occurrence; each count is the number of occurrences |
| Collections.TallySum | scripts/analyze_official_docs.py:144-145 | the counts add up to the number of elements counted |
| Collections.SortDesc | scripts/analyze_official_docs.py:150 | descending by count, and a permutation of the input |
| Collections.SortDescStable | scripts/analyze_official_docs.py:150 | items with equal counts keep their input order (Python's sort is stable) |
| Collections.SortDescMembers | scripts/analyze_official_docs.py:150 | sorting keeps exactly the same pairs |
| Collections.SortDescTies | scripts/analyze_official_docs.py:170 | when the input is ordered by some rank, the stable sort keeps every group of equal counts in rank order |
| Collections.SortDescDistinct | scripts/analyze_official_docs.py:170 | sorting items whose keys are distinct (the items of a dict) keeps the keys distinct, so every key is listed once |

## Left out

- File reading (:63-68): the parser takes the file content as an `Option<string>`, with `None` standing for a missing `SUMMARY.md`.
- `export_json`, `main`, and the printing and output directories that `main` handles: these are I/O and orchestration.
- `memory_comparison.rs` and the standalone `official_docs_parser.py` are not part of this model.
- Coverage.GenerateCoverageReport: returns the report as a value (total, document lines, topic lines) rather than the joined markdown text. The header and bullet strings and the `:.1f` formatting are not modelled.
- Coverage.Percent: percentages are exact rationals (`real`), not IEEE doubles, so the sum to 100 in `DocPercentsSum` is exact. In Python it holds only up to rounding.
- Collections.Dedup: `list(set(xs))` has CPython's hash-based set order. The model keeps the first occurrence of each element, in order. The membership and no-duplicates properties (`MappingContents`, `MappingKeys`, `ReportDocs` membership, `ReportTopics`) hold under any order. The following statements fix an order that CPython does not promise, and say nothing about the order CPython produces:
  - DocsMapping.MapToOfficialDocs: its `ensures mapping == MappingOf(...)` fixes the order of each value list to first-occurrence order.
  - DocsMapping.MappingOfShape: `values[p] == Dedup(Gathered(...))` fixes that same order.
  - MappingTable.GenerateMappingTable: the order of the labels inside each cell (`CellOf`, `ChapterRowsShape`) follows the mapper's lists, so it is the model's order, not CPython's set order.
  - Coverage.ReportDocs: the order among documents with equal counts follows the first-seen order of document ids. That order depends on the order of each mapping list, so it is the model's order as well.
- Coverage.CountTopics: topics enter `topic_coverage` with the first mapping key that covers them, and the model states that order. Several topics first covered by the same mapping key enter in the iteration order of the Python `set` `topics_covered`; the model leaves their order unspecified (a `:|` choice over the set).
- Coverage.ReportTopics: among topics with equal counts that are first covered by the same mapping key, the order is not stated, for the reason given for `CountTopics`.
- Coverage.GenerateCoverageReport: the same unstated order applies to its topic lines.
- LinkPattern.FindLink: models only the one regex `.*\[(.*?)\]\((.*?)\)` under `re.match`, not a general regex engine.
- MappingTable.SplitRef: the `ValueError` that unpacking raises for a token with two or more colons is modelled as `None`, which propagates out of `GenerateMappingTable`.
- BookStructure.Classify: `level` is not the count of leading indent units. The code (:84) counts every `'  '` in the whole line, so four leading spaces give level 2, and double spaces inside the title count too. The model does the same; `IndentLevel` states the case of a pure leading indent.
- The catalog is a value built once, not a class with fields: the source never mutates those fields after `__init__` (:19-57).
