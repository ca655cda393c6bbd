/** The coverage report: how often each official document is referenced,
    and in how many chapters each topic is covered, both listed by
    decreasing count. Percentages are exact ratios. */
module Coverage {
  import opened Collections
  import opened Strings
  import opened Catalog
  import opened DocsMapping

  // ---------------------------------------------------------------------
  // per-document counts

  /** `ref.split(':')[0]`: the document id of a reference token. */
  function DocId(ref: string): (id: string)
    ensures StartsWith(ref, id) && ':' !in id
    ensures |id| < |ref| ==> ref[|id|] == ':'
  {
    SplitFirst(ref, ':');
    Split(ref, ':')[0]
  }

  /** The references under the given paths, path after path. */
  function RefsOf(m: Mapping, paths: seq<string>): seq<string>
    decreases |paths|
  {
    if paths == [] then [] else RefsOf(m, paths[..|paths| - 1]) + Get(m, paths[|paths| - 1], [])
  }

  /** Every reference of the mapping, in the order the report visits them. */
  function AllRefs(m: Mapping): seq<string> {
    RefsOf(m, m.keys)
  }

  /** The sum of the lengths of the lists under the given paths. */
  function ListLengths(m: Mapping, paths: seq<string>): nat
    decreases |paths|
  {
    if paths == [] then 0 else ListLengths(m, paths[..|paths| - 1]) + |Get(m, paths[|paths| - 1], [])|
  }

  /** The document ids of a sequence of references. */
  function DocIds(refs: seq<string>): (ids: seq<string>)
    ensures |ids| == |refs|
    ensures forall i :: 0 <= i < |refs| ==> ids[i] == DocId(refs[i])
  {
    seq(|refs|, i requires 0 <= i < |refs| => DocId(refs[i]))
  }

  /** `count / total * 100`, or 0 when there is nothing to divide by. */
  function Percent(count: nat, total: nat): (r: real)
    ensures total == 0 ==> r == 0.0
    ensures 0.0 <= r
    ensures count <= total ==> r <= 100.0
  {
    if total > 0 then (count as real) / (total as real) * 100.0 else 0.0
  }

  /** The first counting loop: `doc_coverage[doc_name] += 1` and
      `total_refs += 1` for every reference of every chapter. */
  method CountDocuments(m: Mapping) returns (docCoverage: OrderedMap<string, nat>, totalRefs: nat)
    requires ValidMap(m)
    ensures docCoverage == Tally(DocIds(AllRefs(m)))
    ensures totalRefs == |AllRefs(m)|
  {
    docCoverage := OrderedMap([], map[]);
    totalRefs := 0;
    for i := 0 to |m.keys|
      invariant docCoverage == Tally(DocIds(RefsOf(m, m.keys[..i])))
      invariant totalRefs == |RefsOf(m, m.keys[..i])|
    {
      assert m.keys[..i + 1][..i] == m.keys[..i];
      docCoverage, totalRefs := CountRefs(docCoverage, totalRefs, RefsOf(m, m.keys[..i]), m.values[m.keys[i]]);
    }
    assert m.keys[..|m.keys|] == m.keys;
  }

  /** The inner loop of the document count, over one chapter's references. */
  method CountRefs(counter: OrderedMap<string, nat>, total: nat, ghost seen: seq<string>, refs: seq<string>)
    returns (counter': OrderedMap<string, nat>, total': nat)
    requires counter == Tally(DocIds(seen)) && total == |seen|
    ensures counter' == Tally(DocIds(seen + refs)) && total' == |seen + refs|
  {
    counter', total' := counter, total;
    assert seen + refs[..0] == seen;
    for j := 0 to |refs|
      invariant counter' == Tally(DocIds(seen + refs[..j])) && total' == |seen| + j
    {
      TallyStep(seen, refs, j);
      counter' := Bump(counter', DocId(refs[j]));
      total' := total' + 1;
    }
    assert refs[..|refs|] == refs;
  }

  /** Counting one more reference bumps the count of its document. */
  lemma TallyStep(seen: seq<string>, refs: seq<string>, j: nat)
    requires j < |refs|
    ensures Tally(DocIds(seen + refs[..j + 1])) == Bump(Tally(DocIds(seen + refs[..j])), DocId(refs[j]))
  {
    var before := seen + refs[..j];
    assert seen + refs[..j + 1] == before + [refs[j]];
    DocIdsSnoc(before, refs[j]);
    TallySnoc(DocIds(before), DocId(refs[j]));
  }

  lemma DocIdsSnoc(refs: seq<string>, ref: string)
    ensures DocIds(refs + [ref]) == DocIds(refs) + [DocId(ref)]
  {
  }

  /** `total_refs` is the sum of the mapping's list lengths. */
  lemma {:induction false} TotalIsListLengths(m: Mapping, paths: seq<string>)
    ensures |RefsOf(m, paths)| == ListLengths(m, paths)
    decreases |paths|
  {
    if paths != [] {
      TotalIsListLengths(m, paths[..|paths| - 1]);
    }
  }

  /** The per-document counts add up to `total_refs`, and each is the
      number of references with that document id. */
  lemma DocCountsSum(m: Mapping)
    ensures SumOf(Tally(DocIds(AllRefs(m))).keys, Tally(DocIds(AllRefs(m))).values) == ListLengths(m, m.keys)
    ensures forall id :: id in Tally(DocIds(AllRefs(m))).values ==>
      Tally(DocIds(AllRefs(m))).values[id] == CountOf(DocIds(AllRefs(m)), id)
  {
    TallySum(DocIds(AllRefs(m)));
    TotalIsListLengths(m, m.keys);
  }

  /** The sum of the percentages of a run of counts. */
  function PercentSum(items: seq<(string, nat)>, total: nat): real
    decreases |items|
  {
    if items == [] then 0.0 else PercentSum(items[..|items| - 1], total) + Percent(items[|items| - 1].1, total)
  }

  /** The sum of a run of counts. */
  function CountSum(items: seq<(string, nat)>): nat
    decreases |items|
  {
    if items == [] then 0 else CountSum(items[..|items| - 1]) + items[|items| - 1].1
  }

  lemma {:induction false} PercentSumIsRatio(items: seq<(string, nat)>, total: nat)
    requires total > 0
    ensures PercentSum(items, total) == (CountSum(items) as real) / (total as real) * 100.0
    decreases |items|
  {
    if items != [] {
      var init := items[..|items| - 1];
      PercentSumIsRatio(init, total);
      RatioAdd(CountSum(init) as real, items[|items| - 1].1 as real, total as real);
    }
  }

  lemma RatioAdd(a: real, b: real, t: real)
    requires t > 0.0
    ensures a / t * 100.0 + b / t * 100.0 == (a + b) / t * 100.0
  {
  }

  /** The counts of the items listed for `keys` add up to the sum over
      `keys`. */
  lemma {:induction false} CountSumOfItems(keys: seq<string>, values: map<string, nat>, items: seq<(string, nat)>)
    requires |items| == |keys|
    requires forall i :: 0 <= i < |keys| ==> keys[i] in values && items[i] == (keys[i], values[keys[i]])
    ensures CountSum(items) == SumOf(keys, values)
    decreases |keys|
  {
    if keys != [] {
      CountSumOfItems(keys[..|keys| - 1], values, items[..|items| - 1]);
    }
  }

  /** With at least one reference, the percentages of all documents (listed
      or not) add up to 100. */
  lemma DocPercentsSum(m: Mapping)
    requires |AllRefs(m)| > 0
    ensures PercentSum(Items(Tally(DocIds(AllRefs(m)))), |AllRefs(m)|) == 100.0
  {
    var ids := DocIds(AllRefs(m));
    var c := Tally(ids);
    var n := |AllRefs(m)|;
    TallySum(ids);
    CountSumOfItems(c.keys, c.values, Items(c));
    assert CountSum(Items(c)) == n;
    PercentSumIsRatio(Items(c), n);
    RatioSelf(n as real);
  }

  lemma RatioSelf(t: real)
    requires t > 0.0
    ensures t / t * 100.0 == 100.0
  {
  }

  // ---------------------------------------------------------------------
  // the listed documents

  /** One `- {doc_name}: {count}回参照 ({percentage}%)` line of the report. */
  datatype DocLine = DocLine(id: string, name: string, count: nat, percent: real)

  /** The lines for the given (document id, count) items, in order; ids not
      in `doc_categories` produce no line. */
  function DocLines(cat: Catalog, items: seq<(string, nat)>, total: nat): seq<DocLine>
    decreases |items|
  {
    if items == [] then []
    else
      var (id, count) := items[0];
      (if id in cat.docCategories then [DocLine(id, cat.docCategories[id], count, Percent(count, total))] else [])
        + DocLines(cat, items[1..], total)
  }

  lemma {:induction false} DocLinesAppend(cat: Catalog, s: seq<(string, nat)>, t: seq<(string, nat)>, total: nat)
    ensures DocLines(cat, s + t, total) == DocLines(cat, s, total) + DocLines(cat, t, total)
    decreases |s|
  {
    if s == [] {
      assert s + t == t;
    } else {
      assert (s + t)[0] == s[0] && (s + t)[1..] == s[1..] + t;
      DocLinesAppend(cat, s[1..], t, total);
    }
  }

  /** The document loop of the report: over the counts sorted by
      decreasing count, a line for every document id the catalog names. */
  method ListDocuments(cat: Catalog, docCoverage: OrderedMap<string, nat>, total: nat) returns (lines: seq<DocLine>)
    requires ValidMap(docCoverage)
    ensures lines == DocLines(cat, SortDesc(Items(docCoverage)), total)
  {
    var sorted := SortDesc(Items(docCoverage));
    lines := [];
    for i := 0 to |sorted|
      invariant lines == DocLines(cat, sorted[..i], total)
    {
      var (id, count) := sorted[i];
      assert sorted[..i + 1] == sorted[..i] + [sorted[i]];
      DocLinesAppend(cat, sorted[..i], [sorted[i]], total);
      if id in cat.docCategories {
        lines := lines + [DocLine(id, cat.docCategories[id], count, Percent(count, total))];
      }
    }
    assert sorted[..|sorted|] == sorted;
  }

  /** A line is listed exactly for an item whose id the catalog names, with
      that id's display name, count and percentage. */
  lemma {:induction false} DocLinesMembers(cat: Catalog, items: seq<(string, nat)>, total: nat, line: DocLine)
    ensures line in DocLines(cat, items, total) <==>
      (line.id, line.count) in items && line.id in cat.docCategories
      && line.name == cat.docCategories[line.id] && line.percent == Percent(line.count, total)
    decreases |items|
  {
    if items != [] {
      DocLinesMembers(cat, items[1..], total, line);
      var (id, count) := items[0];
      var head := if id in cat.docCategories then [DocLine(id, cat.docCategories[id], count, Percent(count, total))] else [];
      assert DocLines(cat, items, total) == head + DocLines(cat, items[1..], total);
      assert line in DocLines(cat, items, total) <==> line in head || line in DocLines(cat, items[1..], total);
      assert items == [items[0]] + items[1..];
      assert (line.id, line.count) in items <==> (line.id, line.count) == items[0] || (line.id, line.count) in items[1..];
    }
  }

  /** Lines listed from items in decreasing count are in decreasing count. */
  lemma {:induction false} DocLinesDescending(cat: Catalog, items: seq<(string, nat)>, total: nat)
    requires Descending(items)
    ensures forall i, j :: 0 <= i < j < |DocLines(cat, items, total)| ==>
      DocLines(cat, items, total)[i].count >= DocLines(cat, items, total)[j].count
    decreases |items|
  {
    if items != [] {
      DescendingTail(items);
      DocLinesDescending(cat, items[1..], total);
      var rest := DocLines(cat, items[1..], total);
      forall j | 0 <= j < |rest| ensures rest[j].count <= items[0].1 {
        DocLinesMembers(cat, items[1..], total, rest[j]);
        var k :| 0 <= k < |items[1..]| && items[1..][k] == (rest[j].id, rest[j].count);
        assert items[k + 1] == items[1..][k];
      }
    }
  }

  /** The listed lines with count `c`. */
  function LinesWithCount(lines: seq<DocLine>, c: nat): seq<DocLine>
    decreases |lines|
  {
    if lines == [] then [] else (if lines[0].count == c then [lines[0]] else []) + LinesWithCount(lines[1..], c)
  }

  lemma {:induction false} LinesWithCountAppend(s: seq<DocLine>, t: seq<DocLine>, c: nat)
    ensures LinesWithCount(s + t, c) == LinesWithCount(s, c) + LinesWithCount(t, c)
    decreases |s|
  {
    if s == [] {
      assert s + t == t;
    } else {
      assert (s + t)[0] == s[0] && (s + t)[1..] == s[1..] + t;
      LinesWithCountAppend(s[1..], t, c);
    }
  }

  /** Listing commutes with picking the entries of one count. */
  lemma {:induction false} DocLinesWithCount(cat: Catalog, items: seq<(string, nat)>, total: nat, c: nat)
    ensures LinesWithCount(DocLines(cat, items, total), c) == DocLines(cat, WithCount(items, c), total)
    decreases |items|
  {
    if items != [] {
      var (id, count) := items[0];
      var head := if id in cat.docCategories then [DocLine(id, cat.docCategories[id], count, Percent(count, total))] else [];
      DocLinesWithCount(cat, items[1..], total, c);
      LinesWithCountAppend(head, DocLines(cat, items[1..], total), c);
      var picked := if count == c then [items[0]] else [];
      DocLinesAppend(cat, picked, WithCount(items[1..], c), total);
      if count == c {
        assert picked[1..] == [];
      }
    }
  }

  /** The document part of the report: every line names a document of the
      catalog that is referenced, with the number of references to it and
      its share of all references (unknown ids are counted in the total but
      get no line); lines go by decreasing count, and equal counts keep the
      order in which their documents were first referenced. */
  lemma ReportDocs(cat: Catalog, m: Mapping, line: DocLine, c: nat)
    ensures var ids := DocIds(AllRefs(m));
      var lines := DocLines(cat, SortDesc(Items(Tally(ids))), |AllRefs(m)|);
      (line in lines <==>
        line.id in ids && line.id in cat.docCategories && line.name == cat.docCategories[line.id]
        && line.count == CountOf(ids, line.id) && line.percent == Percent(line.count, |AllRefs(m)|))
      && (forall i, j :: 0 <= i < j < |lines| ==> lines[i].count >= lines[j].count)
      && LinesWithCount(lines, c) == DocLines(cat, WithCount(Items(Tally(ids)), c), |AllRefs(m)|)
  {
    var ids := DocIds(AllRefs(m));
    var items := Items(Tally(ids));
    var sorted := SortDesc(items);
    DocLinesMembers(cat, sorted, |AllRefs(m)|, line);
    SortDescMembers(items, (line.id, line.count));
    ItemsMembers(Tally(ids), line.id, line.count);
    DocLinesDescending(cat, sorted, |AllRefs(m)|);
    DocLinesWithCount(cat, sorted, |AllRefs(m)|, c);
    SortDescStable(items, c);
  }

  // ---------------------------------------------------------------------
  // per-topic counts

  /** The topic's list holds one of the chapter's references. */
  predicate CoversTopic(cat: Catalog, refs: seq<string>, t: string) {
    t in cat.topicMapping && exists r :: r in refs && r in cat.topicMapping[t]
  }

  /** `topics_covered` for one chapter's references. */
  function CoveredTopics(cat: Catalog, refs: seq<string>): set<string> {
    set t | t in cat.topicMapping && CoversTopic(cat, refs, t)
  }

  /** The loops building `topics_covered`: for every reference, every topic
      whose list holds it. The topic map is visited in an unspecified order,
      which a set does not see. */
  method CoveredTopicsOf(cat: Catalog, refs: seq<string>) returns (covered: set<string>)
    ensures covered == CoveredTopics(cat, refs)
  {
    covered := {};
    for j := 0 to |refs|
      invariant covered == CoveredTopics(cat, refs[..j])
    {
      var holding := TopicsHolding(cat, refs[j]);
      CoveredStep(cat, refs, j);
      covered := covered + holding;
    }
    assert refs[..|refs|] == refs;
  }

  /** The topics whose list holds `ref`. */
  function HoldingTopics(cat: Catalog, ref: string): set<string> {
    set t | t in cat.topicMapping && ref in cat.topicMapping[t]
  }

  /** The inner loop: every topic of the map whose list holds `ref`. */
  method TopicsHolding(cat: Catalog, ref: string) returns (holding: set<string>)
    ensures holding == HoldingTopics(cat, ref)
  {
    holding := {};
    var remaining := cat.topicMapping.Keys;
    while remaining != {}
      invariant remaining <= cat.topicMapping.Keys
      invariant holding == set t | t in cat.topicMapping.Keys - remaining && ref in cat.topicMapping[t]
      decreases |remaining|
    {
      var t :| t in remaining;
      if ref in cat.topicMapping[t] {
        holding := holding + {t};
      }
      remaining := remaining - {t};
    }
  }

  lemma CoveredStep(cat: Catalog, refs: seq<string>, j: nat)
    requires j < |refs|
    ensures CoveredTopics(cat, refs[..j + 1]) ==
      CoveredTopics(cat, refs[..j]) + HoldingTopics(cat, refs[j])
  {
    assert refs[..j + 1] == refs[..j] + [refs[j]];
  }

  /** The number of the given chapters in which topic `t` is covered. */
  function Covering(cat: Catalog, m: Mapping, paths: seq<string>, t: string): nat
    decreases |paths|
  {
    if paths == [] then 0
    else
      Covering(cat, m, paths[..|paths| - 1], t)
        + (if t in CoveredTopics(cat, Get(m, paths[|paths| - 1], [])) then 1 else 0)
  }

  /** The index of the first of the given chapters that covers topic `t`,
      or the number of chapters when none does. */
  function FirstCover(cat: Catalog, m: Mapping, paths: seq<string>, t: string): (f: nat)
    ensures f <= |paths|
    decreases |paths|
  {
    if paths == [] then 0
    else
      var init := paths[..|paths| - 1];
      var f := FirstCover(cat, m, init, t);
      if f < |init| then f
      else if t in CoveredTopics(cat, Get(m, paths[|paths| - 1], [])) then |init|
      else |paths|
  }

  /** `FirstCover` is the first covering chapter, and there is one exactly
      when the topic's count is positive. */
  lemma {:induction false} FirstCoverSpec(cat: Catalog, m: Mapping, paths: seq<string>, t: string)
    ensures var f := FirstCover(cat, m, paths, t);
      (f < |paths| ==> t in CoveredTopics(cat, Get(m, paths[f], [])))
      && (forall k :: 0 <= k < f && k < |paths| ==> t !in CoveredTopics(cat, Get(m, paths[k], [])))
      && (f < |paths| <==> Covering(cat, m, paths, t) > 0)
    decreases |paths|
  {
    if paths != [] {
      var init := paths[..|paths| - 1];
      FirstCoverSpec(cat, m, init, t);
      assert forall k :: 0 <= k < |init| ==> init[k] == paths[k];
    }
  }

  /** The counter's keys are in the order of the chapters that first cover
      them. */
  predicate ByFirstCover(cat: Catalog, m: Mapping, paths: seq<string>, keys: seq<string>) {
    forall p, q :: 0 <= p < q < |keys| ==> FirstCover(cat, m, paths, keys[p]) <= FirstCover(cat, m, paths, keys[q])
  }

  /** The second counting loop: for every chapter, `topic_coverage[topic]
      += 1` for each topic it covers, once per chapter. A topic enters the
      counter with the first chapter that covers it; the order among the
      topics entering with the same chapter follows set iteration order and
      is left unspecified. */
  method CountTopics(cat: Catalog, m: Mapping) returns (topicCoverage: OrderedMap<string, nat>)
    requires ValidMap(m)
    ensures ValidMap(topicCoverage)
    ensures forall t :: Get(topicCoverage, t, 0) == Covering(cat, m, m.keys, t)
    ensures forall t :: t in topicCoverage.values ==> topicCoverage.values[t] > 0
    ensures ByFirstCover(cat, m, m.keys, topicCoverage.keys)
  {
    topicCoverage := OrderedMap([], map[]);
    for i := 0 to |m.keys|
      invariant ValidMap(topicCoverage)
      invariant forall t :: Get(topicCoverage, t, 0) == Covering(cat, m, m.keys[..i], t)
      invariant forall t :: t in topicCoverage.values ==> topicCoverage.values[t] > 0
      invariant ByFirstCover(cat, m, m.keys[..i], topicCoverage.keys)
    {
      var covered := CoveredTopicsOf(cat, m.values[m.keys[i]]);
      CoveringStep(cat, m, i);
      var next := BumpAll(topicCoverage, covered);
      KeysOrderStep(cat, m, i, topicCoverage, next, covered);
      topicCoverage := next;
    }
    assert m.keys[..|m.keys|] == m.keys;
  }

  /** The keys a chapter adds come after the earlier ones, and all first
      covered by that chapter. */
  lemma KeysOrderStep(cat: Catalog, m: Mapping, i: nat, c: OrderedMap<string, nat>, c': OrderedMap<string, nat>, covered: set<string>)
    requires ValidMap(m) && i < |m.keys| && ValidMap(c)
    requires covered == CoveredTopics(cat, m.values[m.keys[i]])
    requires forall t :: Get(c, t, 0) == Covering(cat, m, m.keys[..i], t)
    requires forall t :: t in c.values ==> c.values[t] > 0
    requires ByFirstCover(cat, m, m.keys[..i], c.keys)
    requires KeysExtend(c, c', covered)
    ensures ByFirstCover(cat, m, m.keys[..i + 1], c'.keys)
  {
    var before := m.keys[..i];
    var after := m.keys[..i + 1];
    assert after[..i] == before;
    assert Get(m, after[i], []) == m.values[m.keys[i]];
    forall p | 0 <= p < |c'.keys|
      ensures p < |c.keys| ==> FirstCover(cat, m, after, c'.keys[p]) < i
      ensures p >= |c.keys| ==> FirstCover(cat, m, after, c'.keys[p]) == i
    {
      var t := c'.keys[p];
      FirstCoverSpec(cat, m, before, t);
      if p < |c.keys| {
        assert c.keys[p] == t;
      }
    }
    forall p, q | 0 <= p < q < |c'.keys|
      ensures FirstCover(cat, m, after, c'.keys[p]) <= FirstCover(cat, m, after, c'.keys[q])
    {
      if q < |c.keys| {
        assert c.keys[p] == c'.keys[p] && c.keys[q] == c'.keys[q];
        FirstCoverSpec(cat, m, before, c.keys[p]);
        FirstCoverSpec(cat, m, before, c.keys[q]);
      }
    }
  }

  lemma CoveringStep(cat: Catalog, m: Mapping, i: nat)
    requires ValidMap(m) && i < |m.keys|
    ensures forall t :: (Covering(cat, m, m.keys[..i + 1], t) ==
      Covering(cat, m, m.keys[..i], t) + (if t in CoveredTopics(cat, m.values[m.keys[i]]) then 1 else 0))
  {
    assert m.keys[..i + 1][..i] == m.keys[..i];
  }

  /** The inner loop of the topic count: `+= 1` for every topic in the set. */
  method BumpAll(counter: OrderedMap<string, nat>, covered: set<string>) returns (counter': OrderedMap<string, nat>)
    requires ValidMap(counter)
    requires forall t :: t in counter.values ==> counter.values[t] > 0
    ensures ValidMap(counter')
    ensures forall t :: Get(counter', t, 0) == Get(counter, t, 0) + (if t in covered then 1 else 0)
    ensures forall t :: t in counter'.values ==> counter'.values[t] > 0
    ensures KeysExtend(counter, counter', covered)
  {
    counter' := counter;
    var remaining := covered;
    ghost var seen: set<string> := {};
    while remaining != {}
      invariant seen + remaining == covered && seen !! remaining
      invariant BumpedBy(counter, counter', seen)
      decreases |remaining|
    {
      var t :| t in remaining;
      BumpStep(counter, counter', t, seen);
      counter' := Bump(counter', t);
      remaining := remaining - {t};
      seen := seen + {t};
    }
    assert seen == covered;
  }

  /** `c` is `c0` with `+= 1` applied to every topic of `seen`. */
  ghost predicate BumpedBy(c0: OrderedMap<string, nat>, c: OrderedMap<string, nat>, seen: set<string>) {
    ValidMap(c)
    && (forall t :: Get(c, t, 0) == Get(c0, t, 0) + (if t in seen then 1 else 0))
    && (forall t :: t in c.values ==> c.values[t] > 0)
    && KeysExtend(c0, c, seen)
  }

  /** One `+= 1` of the inner loop keeps `BumpedBy`. */
  lemma BumpStep(c0: OrderedMap<string, nat>, c: OrderedMap<string, nat>, t: string, seen: set<string>)
    requires ValidMap(c0) && BumpedBy(c0, c, seen) && t !in seen
    ensures BumpedBy(c0, Bump(c, t), seen + {t})
  {
    BumpKeys(c0, c, t, seen);
  }

  /** `c` holds the keys of `c0` first, then only keys from `seen` that
      `c0` lacked. */
  predicate KeysExtend(c0: OrderedMap<string, nat>, c: OrderedMap<string, nat>, seen: set<string>) {
    |c0.keys| <= |c.keys| && (forall p :: 0 <= p < |c0.keys| ==> c.keys[p] == c0.keys[p])
    && forall p :: |c0.keys| <= p < |c.keys| ==> c.keys[p] in seen && c.keys[p] !in c0.values
  }

  /** A `+= 1` leaves the keys that were there in place and appends at most
      the bumped key, which was not there before. */
  lemma BumpKeys(c0: OrderedMap<string, nat>, c: OrderedMap<string, nat>, t: string, seen: set<string>)
    requires ValidMap(c0) && ValidMap(c) && KeysExtend(c0, c, seen)
    ensures KeysExtend(c0, Bump(c, t), seen + {t})
  {
    if t !in c.values {
      assert t !in c0.values by {
        assert forall k :: 0 <= k < |c0.keys| ==> c.keys[k] == c0.keys[k];
      }
    }
  }

  /** A topic is counted at most once per chapter, so no count exceeds the
      number of chapters in the mapping. */
  lemma {:induction false} CoveringBound(cat: Catalog, m: Mapping, paths: seq<string>, t: string)
    ensures Covering(cat, m, paths, t) <= |paths|
    decreases |paths|
  {
    if paths != [] {
      CoveringBound(cat, m, paths[..|paths| - 1], t);
    }
  }

  /** A chapter referring to `the_book:ch10` is counted for both `traits`
      and `generics`. */
  lemma SharedTokenCreditsBoth(m: Mapping, p: string)
    requires "the_book:ch10" in Get(m, p, [])
    ensures "traits" in CoveredTopics(Analyzer, Get(m, p, []))
    ensures "generics" in CoveredTopics(Analyzer, Get(m, p, []))
  {
    SharedChapterTen();
  }

  /** One `- {topic}: {count}章でカバー ({percentage}%)` line. */
  datatype TopicLine = TopicLine(topic: string, count: nat, percent: real)

  /** The lines for the given (topic, count) items, in order. */
  function TopicLines(items: seq<(string, nat)>, chapters: nat): (lines: seq<TopicLine>)
    ensures |lines| == |items|
    ensures forall i :: 0 <= i < |items| ==>
      lines[i] == TopicLine(items[i].0, items[i].1, Percent(items[i].1, chapters))
  {
    seq(|items|, i requires 0 <= i < |items| => TopicLine(items[i].0, items[i].1, Percent(items[i].1, chapters)))
  }

  /** The topic loop of the report: every counted topic, by decreasing
      count, its share taken over the number of chapters in the mapping. */
  method ListTopics(topicCoverage: OrderedMap<string, nat>, chapters: nat) returns (lines: seq<TopicLine>)
    requires ValidMap(topicCoverage)
    ensures lines == TopicLines(SortDesc(Items(topicCoverage)), chapters)
  {
    var sorted := SortDesc(Items(topicCoverage));
    lines := [];
    for i := 0 to |sorted|
      invariant lines == TopicLines(sorted[..i], chapters)
    {
      var (topic, count) := sorted[i];
      lines := lines + [TopicLine(topic, count, Percent(count, chapters))];
    }
    assert sorted[..|sorted|] == sorted;
  }

  /** The topic part of the report: exactly the topics covered by some
      chapter are listed, each once, with the number of chapters covering it
      and that number's share of the chapters in the mapping (at most 100%),
      by decreasing count; at equal counts, a topic first covered by an
      earlier chapter comes first, as the sort is stable. */
  lemma ReportTopics(cat: Catalog, m: Mapping, counter: OrderedMap<string, nat>, line: TopicLine)
    requires ValidMap(counter)
    requires forall t :: Get(counter, t, 0) == Covering(cat, m, m.keys, t)
    requires forall t :: t in counter.values ==> counter.values[t] > 0
    requires ByFirstCover(cat, m, m.keys, counter.keys)
    ensures var lines := TopicLines(SortDesc(Items(counter)), |m.keys|);
      (line in lines <==>
        Covering(cat, m, m.keys, line.topic) > 0 && line.count == Covering(cat, m, m.keys, line.topic)
        && line.percent == Percent(line.count, |m.keys|))
      && (forall i, j :: 0 <= i < j < |lines| ==> lines[i].count >= lines[j].count)
      && (forall i :: 0 <= i < |lines| ==> lines[i].percent <= 100.0)
      && (forall i, j :: 0 <= i < j < |lines| ==> lines[i].topic != lines[j].topic)
      && (forall i, j :: 0 <= i < j < |lines| && lines[i].count == lines[j].count ==>
        FirstCover(cat, m, m.keys, lines[i].topic) <= FirstCover(cat, m, m.keys, lines[j].topic))
  {
    var items := Items(counter);
    var sorted := SortDesc(items);
    ItemsDistinct(counter);
    SortDescDistinct(items);
    TopicTies(cat, m, counter);
    TopicLinesMembers(sorted, |m.keys|, line);
    SortDescMembers(items, (line.topic, line.count));
    ItemsMembers(counter, line.topic, line.count);
    assert Get(counter, line.topic, 0) == Covering(cat, m, m.keys, line.topic);
    TopicPercentBound(cat, m, counter);
  }

  /** Equal-count lines keep the counter's order, which is that of the
      chapters first covering the topics. */
  lemma TopicTies(cat: Catalog, m: Mapping, counter: OrderedMap<string, nat>)
    requires ValidMap(counter)
    requires ByFirstCover(cat, m, m.keys, counter.keys)
    ensures var lines := TopicLines(SortDesc(Items(counter)), |m.keys|);
      forall i, j :: 0 <= i < j < |lines| && lines[i].count == lines[j].count ==>
        FirstCover(cat, m, m.keys, lines[i].topic) <= FirstCover(cat, m, m.keys, lines[j].topic)
  {
    var rank := t => FirstCover(cat, m, m.keys, t);
    var items := Items(counter);
    assert Ranked(items, rank);
    SortDescTies(items, rank);
  }

  /** A line is listed exactly for an item, with the item's topic and count. */
  lemma TopicLinesMembers(items: seq<(string, nat)>, chapters: nat, line: TopicLine)
    ensures line in TopicLines(items, chapters) <==>
      (line.topic, line.count) in items && line.percent == Percent(line.count, chapters)
  {
    var lines := TopicLines(items, chapters);
    if line in lines {
      var i :| 0 <= i < |lines| && lines[i] == line;
      assert items[i] == (line.topic, line.count);
    }
    if (line.topic, line.count) in items && line.percent == Percent(line.count, chapters) {
      var i :| 0 <= i < |items| && items[i] == (line.topic, line.count);
      assert lines[i] == line;
    }
  }

  /** No topic percentage exceeds 100. */
  lemma TopicPercentBound(cat: Catalog, m: Mapping, counter: OrderedMap<string, nat>)
    requires ValidMap(counter)
    requires forall t :: Get(counter, t, 0) == Covering(cat, m, m.keys, t)
    ensures forall i :: 0 <= i < |SortDesc(Items(counter))| ==>
      TopicLines(SortDesc(Items(counter)), |m.keys|)[i].percent <= 100.0
  {
    var sorted := SortDesc(Items(counter));
    forall i | 0 <= i < |sorted| ensures sorted[i].1 <= |m.keys| {
      var (t, c) := sorted[i];
      SortDescMembers(Items(counter), (t, c));
      ItemsMembers(counter, t, c);
      assert Get(counter, t, 0) == c;
      CoveringBound(cat, m, m.keys, t);
    }
  }

  // ---------------------------------------------------------------------
  // the report

  /** The report's content: the total, the document lines and the topic
      lines (the header and bullet text around them is not modelled). */
  datatype Report = Report(totalRefs: nat, docs: seq<DocLine>, topics: seq<TopicLine>)

  /** `generate_coverage_report`. */
  method GenerateCoverageReport(cat: Catalog, m: Mapping) returns (report: Report)
    requires ValidMap(m)
    ensures report.totalRefs == |AllRefs(m)|
    ensures report.docs == DocLines(cat, SortDesc(Items(Tally(DocIds(AllRefs(m))))), |AllRefs(m)|)
    ensures forall line :: line in report.topics <==>
      Covering(cat, m, m.keys, line.topic) > 0 && line.count == Covering(cat, m, m.keys, line.topic)
      && line.percent == Percent(line.count, |m.keys|)
    ensures forall i, j :: 0 <= i < j < |report.topics| ==> report.topics[i].count >= report.topics[j].count
    ensures forall i, j :: 0 <= i < j < |report.topics| ==> report.topics[i].topic != report.topics[j].topic
    ensures forall i, j :: 0 <= i < j < |report.topics| && report.topics[i].count == report.topics[j].count ==>
      FirstCover(cat, m, m.keys, report.topics[i].topic) <= FirstCover(cat, m, m.keys, report.topics[j].topic)
  {
    var docCoverage, totalRefs := CountDocuments(m);
    var docs := ListDocuments(cat, docCoverage, totalRefs);
    var topicCoverage := CountTopics(cat, m);
    var topics := ListTopics(topicCoverage, |m.keys|);
    forall line ensures line in topics <==>
      Covering(cat, m, m.keys, line.topic) > 0 && line.count == Covering(cat, m, m.keys, line.topic)
      && line.percent == Percent(line.count, |m.keys|)
    {
      ReportTopics(cat, m, topicCoverage, line);
    }
    ReportTopics(cat, m, topicCoverage, TopicLine("", 0, 0.0));
    report := Report(totalRefs, docs, topics);
  }
}
