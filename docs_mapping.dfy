/** The keyword mapper: every chapter whose title contains a keyword gets,
    under its path, the reference tokens of the keyword's topics; the lists
    are deduplicated at the end. */
module DocsMapping {
  import opened Collections
  import opened Strings
  import opened Catalog
  import opened BookStructure

  /** Chapter path -> reference tokens, paths in order of first match. */
  type Mapping = OrderedMap<string, seq<string>>

  /** The `mapping[path].extend(topic_mapping[topic])` requests made for the
      topics of one matching keyword, in order; unknown topics make none. */
  function TopicRequests(cat: Catalog, path: string, topics: seq<string>): seq<(string, seq<string>)>
    decreases |topics|
  {
    if topics == [] then []
    else
      var t := topics[|topics| - 1];
      TopicRequests(cat, path, topics[..|topics| - 1])
        + (if t in cat.topicMapping then [(path, cat.topicMapping[t])] else [])
  }

  /** The requests made for one chapter, rule by rule: a rule whose keyword
      is a substring of the title contributes its topics' requests. */
  function RuleRequests(cat: Catalog, ch: Chapter, rules: seq<Rule>): seq<(string, seq<string>)>
    decreases |rules|
  {
    if rules == [] then []
    else
      var rule := rules[|rules| - 1];
      RuleRequests(cat, ch, rules[..|rules| - 1])
        + (if Contains(ch.title, rule.keyword) then TopicRequests(cat, ch.path, rule.topics) else [])
  }

  /** The requests made for a sequence of chapters, in order. */
  function ChapterRequests(cat: Catalog, chs: seq<Chapter>): seq<(string, seq<string>)>
    decreases |chs|
  {
    if chs == [] then []
    else ChapterRequests(cat, chs[..|chs| - 1]) + RuleRequests(cat, chs[|chs| - 1], cat.keywords)
  }

  /** The chapters of the given parts, part after part. */
  function PartChapters(book: Book, parts: seq<string>): seq<Chapter>
    decreases |parts|
  {
    if parts == [] then []
    else PartChapters(book, parts[..|parts| - 1]) + Get(book, parts[|parts| - 1], [])
  }

  /** Every chapter of the book, in part then chapter order. */
  function BookChapters(book: Book): seq<Chapter> {
    PartChapters(book, book.keys)
  }

  /** `mapping[path] = list(set(mapping[path]))` for every path. */
  function Deduplicated(d: Mapping): Mapping {
    OrderedMap(d.keys, map k | k in d.values :: Dedup(d.values[k]))
  }

  /** The mapping `map_to_official_docs` returns. */
  function MappingOf(cat: Catalog, book: Book): Mapping {
    Deduplicated(Accumulate(ChapterRequests(cat, BookChapters(book))))
  }

  /** The innermost loop: the known topics of one matching keyword. */
  method AddTopicRefs(cat: Catalog, mapping: Mapping, path: string, topics: seq<string>) returns (r: Mapping)
    ensures r == ExtendAll(mapping, TopicRequests(cat, path, topics))
  {
    r := mapping;
    for ti := 0 to |topics|
      invariant r == ExtendAll(mapping, TopicRequests(cat, path, topics[..ti]))
    {
      var topic := topics[ti];
      ghost var done := TopicRequests(cat, path, topics[..ti]);
      assert topics[..ti + 1][..ti] == topics[..ti];
      if topic in cat.topicMapping {
        ghost var ps := done + [(path, cat.topicMapping[topic])];
        assert TopicRequests(cat, path, topics[..ti + 1]) == ps;
        assert ps[..|ps| - 1] == done;
        r := Extend(r, path, cat.topicMapping[topic]);
      } else {
        assert TopicRequests(cat, path, topics[..ti + 1]) == done + [];
        assert done + [] == done;
      }
    }
    assert topics[..|topics|] == topics;
  }

  /** The keyword loop for one chapter. */
  method AddChapterRefs(cat: Catalog, mapping: Mapping, ch: Chapter) returns (r: Mapping)
    ensures r == ExtendAll(mapping, RuleRequests(cat, ch, cat.keywords))
  {
    r := mapping;
    for ri := 0 to |cat.keywords|
      invariant r == ExtendAll(mapping, RuleRequests(cat, ch, cat.keywords[..ri]))
    {
      var rule := cat.keywords[ri];
      ghost var done := RuleRequests(cat, ch, cat.keywords[..ri]);
      assert cat.keywords[..ri + 1][..ri] == cat.keywords[..ri];
      if Contains(ch.title, rule.keyword) {
        assert RuleRequests(cat, ch, cat.keywords[..ri + 1]) == done + TopicRequests(cat, ch.path, rule.topics);
        ExtendAllAppend(mapping, done, TopicRequests(cat, ch.path, rule.topics));
        r := AddTopicRefs(cat, r, ch.path, rule.topics);
      } else {
        assert RuleRequests(cat, ch, cat.keywords[..ri + 1]) == done + [];
        assert done + [] == done;
      }
    }
    assert cat.keywords[..|cat.keywords|] == cat.keywords;
  }

  /** The chapter loop for the chapters of one part. */
  method AddPartRefs(cat: Catalog, mapping: Mapping, chapters: seq<Chapter>) returns (r: Mapping)
    ensures r == ExtendAll(mapping, ChapterRequests(cat, chapters))
  {
    r := mapping;
    for ci := 0 to |chapters|
      invariant r == ExtendAll(mapping, ChapterRequests(cat, chapters[..ci]))
    {
      var done := chapters[..ci + 1];
      assert done[..ci] == chapters[..ci];
      ExtendAllAppend(mapping, ChapterRequests(cat, chapters[..ci]), RuleRequests(cat, chapters[ci], cat.keywords));
      r := AddChapterRefs(cat, r, chapters[ci]);
    }
    assert chapters[..|chapters|] == chapters;
  }

  /** The requests for two runs of chapters are those of the first run
      followed by those of the second. */
  lemma {:induction false} ChapterRequestsAppend(cat: Catalog, xs: seq<Chapter>, ys: seq<Chapter>)
    ensures ChapterRequests(cat, xs + ys) == ChapterRequests(cat, xs) + ChapterRequests(cat, ys)
    decreases |ys|
  {
    if ys == [] {
      assert xs + ys == xs;
    } else {
      var ys' := ys[..|ys| - 1];
      assert (xs + ys)[..|xs + ys| - 1] == xs + ys';
      ChapterRequestsAppend(cat, xs, ys');
    }
  }

  /** The part and chapter loops of `map_to_official_docs`. */
  method CollectRefs(cat: Catalog, book: Book) returns (mapping: Mapping)
    requires ValidMap(book)
    ensures mapping == Accumulate(ChapterRequests(cat, BookChapters(book)))
  {
    mapping := OrderedMap([], map[]);
    for pi := 0 to |book.keys|
      invariant mapping == ExtendAll(OrderedMap([], map[]), ChapterRequests(cat, PartChapters(book, book.keys[..pi])))
    {
      var part := book.keys[pi];
      var chapters := book.values[part];
      ghost var before := PartChapters(book, book.keys[..pi]);
      assert book.keys[..pi + 1][..pi] == book.keys[..pi];
      assert PartChapters(book, book.keys[..pi + 1]) == before + chapters;
      ChapterRequestsAppend(cat, before, chapters);
      ExtendAllAppend(OrderedMap([], map[]), ChapterRequests(cat, before), ChapterRequests(cat, chapters));
      mapping := AddPartRefs(cat, mapping, chapters);
    }
    assert book.keys[..|book.keys|] == book.keys;
    ExtendAllEmpty(ChapterRequests(cat, BookChapters(book)));
  }

  /** The values after deduplicating the lists of the paths in `done`. */
  function DedupedUpTo(raw: Mapping, done: seq<string>): map<string, seq<string>> {
    map k | k in raw.values :: if k in done then Dedup(raw.values[k]) else raw.values[k]
  }

  /** The deduplication pass: `for path in mapping: mapping[path] =
      list(set(mapping[path]))`. */
  method DeduplicateAll(raw: Mapping) returns (mapping: Mapping)
    requires ValidMap(raw)
    ensures mapping == Deduplicated(raw)
  {
    mapping := raw;
    var paths := raw.keys;
    for i := 0 to |paths|
      invariant mapping.keys == raw.keys
      invariant mapping.values == DedupedUpTo(raw, paths[..i])
    {
      var path := paths[i];
      DedupedStep(raw, i);
      mapping := OrderedMap(mapping.keys, mapping.values[path := Dedup(mapping.values[path])]);
    }
    assert paths[..|paths|] == paths;
  }

  lemma DedupedStep(raw: Mapping, i: nat)
    requires ValidMap(raw) && i < |raw.keys|
    ensures raw.keys[i] in DedupedUpTo(raw, raw.keys[..i])
    ensures DedupedUpTo(raw, raw.keys[..i])[raw.keys[i] := Dedup(DedupedUpTo(raw, raw.keys[..i])[raw.keys[i]])]
      == DedupedUpTo(raw, raw.keys[..i + 1])
  {
    var path := raw.keys[i];
    var done := raw.keys[..i];
    var done' := raw.keys[..i + 1];
    assert done' == done + [path];
    assert path !in done by {
      forall j | 0 <= j < i ensures done[j] != path {
        assert done[j] == raw.keys[j];
      }
    }
    var before := DedupedUpTo(raw, done);
    var after := DedupedUpTo(raw, done');
    forall k | k in after ensures k in before && before[path := Dedup(before[path])][k] == after[k] {
      assert k in done' <==> k in done || k == path;
    }
  }

  /** `map_to_official_docs`. */
  method MapToOfficialDocs(cat: Catalog, book: Book) returns (mapping: Mapping)
    requires ValidMap(book)
    ensures mapping == MappingOf(cat, book)
  {
    mapping := CollectRefs(cat, book);
    mapping := DeduplicateAll(mapping);
  }

  /** The mapping's keys are the paths some request was for, and each holds
      the deduplicated tokens requested for it. */
  lemma MappingOfShape(cat: Catalog, book: Book, p: string)
    ensures ValidMap(MappingOf(cat, book))
    ensures p in MappingOf(cat, book).values <==>
      exists r :: r in ChapterRequests(cat, BookChapters(book)) && r.0 == p
    ensures p in MappingOf(cat, book).values ==>
      MappingOf(cat, book).values[p] == Dedup(Gathered(ChapterRequests(cat, BookChapters(book)), p))
  {
    var rs := ChapterRequests(cat, BookChapters(book));
    var raw := Accumulate(rs);
    assert MappingOf(cat, book) == Deduplicated(raw);
    if p in raw.values {
      var i :| 0 <= i < |KeysOf(rs)| && KeysOf(rs)[i] == p;
      assert rs[i] in rs && rs[i].0 == p;
    }
    if r :| r in rs && r.0 == p {
      var i :| 0 <= i < |rs| && rs[i] == r;
      assert KeysOf(rs)[i] == p;
    }
  }

  // ---------------------------------------------------------------------
  // what the requests are

  lemma {:induction false} TopicRequestsMembers(cat: Catalog, path: string, topics: seq<string>, r: (string, seq<string>))
    ensures r in TopicRequests(cat, path, topics) <==>
      r.0 == path && exists t :: t in topics && t in cat.topicMapping && r.1 == cat.topicMapping[t]
    decreases |topics|
  {
    if topics != [] {
      var init := topics[..|topics| - 1];
      TopicRequestsMembers(cat, path, init, r);
      assert topics == init + [topics[|topics| - 1]];
    }
  }

  lemma {:induction false} RuleRequestsMembers(cat: Catalog, ch: Chapter, rules: seq<Rule>, r: (string, seq<string>))
    ensures r in RuleRequests(cat, ch, rules) <==>
      exists rule :: rule in rules && Contains(ch.title, rule.keyword) && r in TopicRequests(cat, ch.path, rule.topics)
    decreases |rules|
  {
    if rules != [] {
      var init := rules[..|rules| - 1];
      RuleRequestsMembers(cat, ch, init, r);
      assert rules == init + [rules[|rules| - 1]];
    }
  }

  lemma {:induction false} ChapterRequestsMembers(cat: Catalog, chs: seq<Chapter>, r: (string, seq<string>))
    ensures r in ChapterRequests(cat, chs) <==> exists ch :: ch in chs && r in RuleRequests(cat, ch, cat.keywords)
    decreases |chs|
  {
    if chs != [] {
      var init := chs[..|chs| - 1];
      var last := chs[|chs| - 1];
      ChapterRequestsMembers(cat, init, r);
      assert chs == init + [last];
      if r in RuleRequests(cat, last, cat.keywords) {
        assert last in chs;
      }
      if ch :| ch in chs && r in RuleRequests(cat, ch, cat.keywords) {
        assert ch in init || ch == last;
      }
    }
  }

  /** The chapters of the book are exactly the chapters of its parts. */
  lemma {:induction false} PartChaptersMembers(book: Book, parts: seq<string>, ch: Chapter)
    requires ValidMap(book)
    ensures ch in PartChapters(book, parts) <==>
      exists part :: part in parts && part in book.values && ch in book.values[part]
    decreases |parts|
  {
    if parts != [] {
      var init := parts[..|parts| - 1];
      PartChaptersMembers(book, init, ch);
      assert parts == init + [parts[|parts| - 1]];
    }
  }

  // ---------------------------------------------------------------------
  // properties

  /** A keyword rule of the chapter's title names a topic that the topic
      mapping knows. */
  ghost predicate Touched(cat: Catalog, ch: Chapter) {
    exists rule, t :: rule in cat.keywords && Contains(ch.title, rule.keyword)
      && t in rule.topics && t in cat.topicMapping
  }

  /** The chapter's title brings in `tok`: it contains a keyword, one of
      whose known topics lists `tok`. */
  ghost predicate Yields(cat: Catalog, ch: Chapter, tok: string) {
    exists rule, t :: rule in cat.keywords && Contains(ch.title, rule.keyword)
      && t in rule.topics && t in cat.topicMapping && tok in cat.topicMapping[t]
  }

  /** Some request is for path `p` exactly when a chapter with that path
      is touched. */
  lemma RequestsForPath(cat: Catalog, chs: seq<Chapter>, p: string)
    ensures (exists r :: r in ChapterRequests(cat, chs) && r.0 == p) <==>
      exists ch :: ch in chs && ch.path == p && Touched(cat, ch)
  {
    if r :| r in ChapterRequests(cat, chs) && r.0 == p {
      var ch, rule, t := Provenance(cat, chs, r);
      assert Touched(cat, ch);
    }
    if ch :| ch in chs && ch.path == p && Touched(cat, ch) {
      var rule, t :| rule in cat.keywords && Contains(ch.title, rule.keyword) && t in rule.topics && t in cat.topicMapping;
      Witness(cat, chs, ch, rule, t);
    }
  }

  /** Some request for path `p` brings in `tok` exactly when a chapter with
      that path yields it. */
  lemma RequestsForToken(cat: Catalog, chs: seq<Chapter>, p: string, tok: string)
    ensures (exists r :: r in ChapterRequests(cat, chs) && r.0 == p && tok in r.1) <==>
      exists ch :: ch in chs && ch.path == p && Yields(cat, ch, tok)
  {
    if r :| r in ChapterRequests(cat, chs) && r.0 == p && tok in r.1 {
      var ch, rule, t := Provenance(cat, chs, r);
      assert Yields(cat, ch, tok);
    }
    if ch :| ch in chs && ch.path == p && Yields(cat, ch, tok) {
      var rule, t :| rule in cat.keywords && Contains(ch.title, rule.keyword) && t in rule.topics
        && t in cat.topicMapping && tok in cat.topicMapping[t];
      Witness(cat, chs, ch, rule, t);
    }
  }

  /** Every request comes from a chapter, a rule matching its title and a
      known topic of that rule. */
  lemma Provenance(cat: Catalog, chs: seq<Chapter>, r: (string, seq<string>)) returns (ch: Chapter, rule: Rule, t: string)
    requires r in ChapterRequests(cat, chs)
    ensures ch in chs && rule in cat.keywords && Contains(ch.title, rule.keyword)
    ensures t in rule.topics && t in cat.topicMapping && r == (ch.path, cat.topicMapping[t])
  {
    ChapterRequestsMembers(cat, chs, r);
    ch :| ch in chs && r in RuleRequests(cat, ch, cat.keywords);
    RuleRequestsMembers(cat, ch, cat.keywords, r);
    rule :| rule in cat.keywords && Contains(ch.title, rule.keyword) && r in TopicRequests(cat, ch.path, rule.topics);
    TopicRequestsMembers(cat, ch.path, rule.topics, r);
    t :| t in rule.topics && t in cat.topicMapping && r.1 == cat.topicMapping[t];
  }

  /** A matching rule with a known topic makes its request. */
  lemma Witness(cat: Catalog, chs: seq<Chapter>, ch: Chapter, rule: Rule, t: string)
    requires ch in chs && rule in cat.keywords && Contains(ch.title, rule.keyword)
    requires t in rule.topics && t in cat.topicMapping
    ensures (ch.path, cat.topicMapping[t]) in ChapterRequests(cat, chs)
  {
    var r := (ch.path, cat.topicMapping[t]);
    TopicRequestsMembers(cat, ch.path, rule.topics, r);
    RuleRequestsMembers(cat, ch, cat.keywords, r);
    ChapterRequestsMembers(cat, chs, r);
  }

  /** Keys: the mapping has a key for path `p` exactly when some chapter of
      the book with that path has a keyword (with a known topic) in its
      title; unmatched chapters get no key. */
  lemma MappingKeys(cat: Catalog, book: Book, p: string)
    ensures ValidMap(MappingOf(cat, book))
    ensures p in MappingOf(cat, book).values <==>
      exists ch :: ch in BookChapters(book) && ch.path == p && Touched(cat, ch)
  {
    MappingOfShape(cat, book, p);
    RequestsForPath(cat, BookChapters(book), p);
  }

  /** Contents: under path `p` lie exactly the tokens that some chapter
      with that path yields, i.e. the union of `topic_mapping[t]` over the
      chapters with path `p`, the keywords in their titles and those
      keywords' known topics; and no token appears twice. */
  lemma MappingContents(cat: Catalog, book: Book, p: string, tok: string)
    requires p in MappingOf(cat, book).values
    ensures tok in MappingOf(cat, book).values[p] <==>
      exists ch :: ch in BookChapters(book) && ch.path == p && Yields(cat, ch, tok)
    ensures NoDuplicates(MappingOf(cat, book).values[p])
    ensures Dedup(MappingOf(cat, book).values[p]) == MappingOf(cat, book).values[p]
  {
    var rs := ChapterRequests(cat, BookChapters(book));
    MappingOfShape(cat, book, p);
    var v := MappingOf(cat, book).values[p];
    assert v == Dedup(Gathered(rs, p));
    GatheredMembers(rs, p, tok);
    RequestsForToken(cat, BookChapters(book), p, tok);
    DedupIdempotent(Gathered(rs, p));
  }

  /** With every topic list non-empty, no key of the mapping holds an empty
      list. */
  lemma MappingNonEmpty(cat: Catalog, book: Book, p: string)
    requires forall t :: t in cat.topicMapping ==> cat.topicMapping[t] != []
    requires p in MappingOf(cat, book).values
    ensures MappingOf(cat, book).values[p] != []
  {
    var rs := ChapterRequests(cat, BookChapters(book));
    MappingKeys(cat, book, p);
    var ch :| ch in BookChapters(book) && ch.path == p && Touched(cat, ch);
    var rule, t :| rule in cat.keywords && Contains(ch.title, rule.keyword) && t in rule.topics && t in cat.topicMapping;
    Witness(cat, BookChapters(book), ch, rule, t);
    var tok := cat.topicMapping[t][0];
    assert Yields(cat, ch, tok);
    MappingContents(cat, book, p, tok);
  }

  /** When every rule names a known topic and no topic list is empty, a
      path is a key exactly when some chapter with that path has one of the
      keywords in its title, and its list is never empty. */
  lemma KnownRulesMappingKeys(cat: Catalog, book: Book, p: string)
    requires forall rule :: rule in cat.keywords ==> exists t :: t in rule.topics && t in cat.topicMapping
    requires forall t :: t in cat.topicMapping ==> cat.topicMapping[t] != []
    ensures p in MappingOf(cat, book).values <==>
      exists ch, rule :: ch in BookChapters(book) && ch.path == p && rule in cat.keywords && Contains(ch.title, rule.keyword)
    ensures p in MappingOf(cat, book).values ==> MappingOf(cat, book).values[p] != []
  {
    MappingKeys(cat, book, p);
    if ch, rule :| ch in BookChapters(book) && ch.path == p && rule in cat.keywords && Contains(ch.title, rule.keyword) {
      assert Touched(cat, ch);
    }
    if p in MappingOf(cat, book).values {
      MappingNonEmpty(cat, book, p);
    }
  }

  /** For the shipped tables: a path is a key exactly when some chapter
      with that path has one of the keywords in its title, and its list is
      never empty. */
  lemma AnalyzerMappingKeys(book: Book, p: string)
    ensures p in MappingOf(Analyzer, book).values <==>
      exists ch, rule :: ch in BookChapters(book) && ch.path == p && rule in KeywordRules && Contains(ch.title, rule.keyword)
    ensures p in MappingOf(Analyzer, book).values ==> MappingOf(Analyzer, book).values[p] != []
  {
    AnalyzerRulesKnown();
    AnalyzerTopicsNonEmpty();
    forall rule | rule in Analyzer.keywords ensures exists t :: t in rule.topics && t in Analyzer.topicMapping {
      var i :| 0 <= i < |Analyzer.keywords| && Analyzer.keywords[i] == rule;
      assert rule.topics[0] in rule.topics;
    }
    KnownRulesMappingKeys(Analyzer, book, p);
  }
}
