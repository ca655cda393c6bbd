/** The chapter-to-documentation table: one Markdown table per part, one row
    per chapter, each row listing the display names and sections of the
    documents mapped to the chapter's path. */
module MappingTable {
  import opened Collections
  import opened Strings
  import opened Catalog
  import opened BookStructure
  import opened DocsMapping

  /** The cell text of a chapter that has no mapped reference. */
  const Sentinel: string := "独自コンテンツ"

  const TableTitle: string := "# 章と公式ドキュメントの対応表\n"
  const ColumnHeader: string := "| 章 | 公式ドキュメント参照 |"
  const ColumnRule: string := "|---|---|"

  /** The line opening the table of one part. */
  function PartHeader(part: string): string {
    "\n## " + part + "\n"
  }

  /** `doc_key, section = ref.split(':') if ':' in ref else (ref, '')`:
      `None` where the unpacking raises, that is when the token holds more
      than one colon. */
  function SplitRef(ref: string): (r: Option<(string, string)>)
    ensures r.None? <==> CountChar(ref, ':') >= 2
    ensures r.Some? ==> ':' !in r.value.0 && ':' !in r.value.1
    ensures r.Some? && ':' in ref ==> ref == Token(r.value.0, r.value.1)
    ensures r.Some? && ':' !in ref ==> r.value == (ref, "")
  {
    CountCharPositive(ref, ':');
    SplitLength(ref, ':');
    if ':' in ref then
      var pieces := Split(ref, ':');
      if |pieces| == 2 then
        JoinSplit(ref, ':');
        assert pieces[1..] == [pieces[1]];
        Some((pieces[0], pieces[1]))
      else None
    else Some((ref, ""))
  }

  /** `f"{doc_name} {section}"`. */
  function Label(cat: Catalog, doc: string, section: string): string
    requires doc in cat.docCategories
  {
    cat.docCategories[doc] + " " + section
  }

  /** The `ref_links` of a chapter: a label for every reference whose
      document the catalog names, in order; `None` once a reference fails
      to unpack. */
  function RefLabels(cat: Catalog, refs: seq<string>): Option<seq<string>>
    decreases |refs|
  {
    if refs == [] then Some([])
    else
      match RefLabels(cat, refs[..|refs| - 1])
      case None => None
      case Some(labels) =>
        match SplitRef(refs[|refs| - 1])
        case None => None
        case Some((doc, section)) =>
          Some(if doc in cat.docCategories then labels + [Label(cat, doc, section)] else labels)
  }

  /** `ref_str`: the joined labels, or the sentinel when there are no
      references at all. */
  function Cell(cat: Catalog, refs: seq<string>): Option<string> {
    if refs == [] then Some(Sentinel)
    else
      match RefLabels(cat, refs)
      case None => None
      case Some(labels) => Some(Join(labels, ", "))
  }

  /** `f"| {indent}{title} | {ref_str} |"` with `indent = '  ' * level`. */
  function Row(ch: Chapter, cell: string): string {
    "| " + Repeat("  ", ch.level) + ch.title + " | " + cell + " |"
  }

  /** The rows of the given chapters, in order. */
  function ChapterRows(cat: Catalog, m: Mapping, chs: seq<Chapter>): Option<seq<string>>
    decreases |chs|
  {
    if chs == [] then Some([])
    else
      match ChapterRows(cat, m, chs[..|chs| - 1])
      case None => None
      case Some(rows) =>
        var ch := chs[|chs| - 1];
        match Cell(cat, Get(m, ch.path, []))
        case None => None
        case Some(cell) => Some(rows + [Row(ch, cell)])
  }

  /** The header lines of a part followed by its rows. */
  function PartBlock(part: string, rows: seq<string>): seq<string> {
    [PartHeader(part), ColumnHeader, ColumnRule] + rows
  }

  /** The blocks of the given parts, in order. */
  function PartLines(cat: Catalog, m: Mapping, book: Book, parts: seq<string>): Option<seq<string>>
    decreases |parts|
  {
    if parts == [] then Some([])
    else
      match PartLines(cat, m, book, parts[..|parts| - 1])
      case None => None
      case Some(lines) =>
        var part := parts[|parts| - 1];
        match ChapterRows(cat, m, Get(book, part, []))
        case None => None
        case Some(rows) => Some(lines + PartBlock(part, rows))
  }

  /** The lines of the table: its title, then every part's block. */
  function TableLines(cat: Catalog, book: Book, m: Mapping): Option<seq<string>> {
    match PartLines(cat, m, book, book.keys)
    case None => None
    case Some(lines) => Some([TableTitle] + lines)
  }

  /** The table text, lines joined by newlines. */
  function MappingTableOf(cat: Catalog, book: Book, m: Mapping): Option<string> {
    match TableLines(cat, book, m)
    case None => None
    case Some(lines) => Some(Join(lines, "\n"))
  }

  // ---------------------------------------------------------------------
  // the loops

  /** The `ref_links` loop; stops at the first reference that fails to
      unpack. */
  method RefLinks(cat: Catalog, refs: seq<string>) returns (links: Option<seq<string>>)
    ensures links == RefLabels(cat, refs)
  {
    var acc: seq<string> := [];
    for i := 0 to |refs|
      invariant RefLabels(cat, refs[..i]) == Some(acc)
    {
      assert refs[..i + 1][..i] == refs[..i];
      var parts := SplitRef(refs[i]);
      if parts.None? {
        RefLabelsFailed(cat, refs, i + 1);
        return None;
      }
      var (doc, section) := parts.value;
      if doc in cat.docCategories {
        acc := acc + [Label(cat, doc, section)];
      }
    }
    assert refs[..|refs|] == refs;
    links := Some(acc);
  }

  /** The cell of one chapter. */
  method CellOf(cat: Catalog, refs: seq<string>) returns (cell: Option<string>)
    ensures cell == Cell(cat, refs)
  {
    if refs == [] {
      return Some(Sentinel);
    }
    var links := RefLinks(cat, refs);
    if links.None? {
      return None;
    }
    cell := Some(Join(links.value, ", "));
  }

  /** The chapter loop of one part. */
  method RowsOf(cat: Catalog, m: Mapping, chs: seq<Chapter>) returns (rows: Option<seq<string>>)
    ensures rows == ChapterRows(cat, m, chs)
  {
    var acc: seq<string> := [];
    for j := 0 to |chs|
      invariant ChapterRows(cat, m, chs[..j]) == Some(acc)
    {
      assert chs[..j + 1][..j] == chs[..j];
      var ch := chs[j];
      var cell := CellOf(cat, Get(m, ch.path, []));
      if cell.None? {
        ChapterRowsFailed(cat, m, chs, j + 1);
        return None;
      }
      acc := acc + [Row(ch, cell.value)];
    }
    assert chs[..|chs|] == chs;
    rows := Some(acc);
  }

  /** `generate_mapping_table`; `None` where the source raises. */
  method GenerateMappingTable(cat: Catalog, book: Book, m: Mapping) returns (table: Option<string>)
    requires ValidMap(book)
    ensures table == MappingTableOf(cat, book, m)
  {
    var lines: seq<string> := [];
    for i := 0 to |book.keys|
      invariant PartLines(cat, m, book, book.keys[..i]) == Some(lines)
    {
      assert book.keys[..i + 1][..i] == book.keys[..i];
      var part := book.keys[i];
      assert Get(book, part, []) == book.values[part];
      var rows := RowsOf(cat, m, book.values[part]);
      if rows.None? {
        PartLinesFailed(cat, m, book, book.keys, i + 1);
        return None;
      }
      lines := lines + PartBlock(part, rows.value);
    }
    assert book.keys[..|book.keys|] == book.keys;
    table := Some(Join([TableTitle] + lines, "\n"));
  }

  lemma {:induction false} RefLabelsFailed(cat: Catalog, refs: seq<string>, n: nat)
    requires n <= |refs| && RefLabels(cat, refs[..n]).None?
    ensures RefLabels(cat, refs).None?
    decreases |refs| - n
  {
    if n < |refs| {
      assert refs[..n + 1][..n] == refs[..n];
      RefLabelsFailed(cat, refs, n + 1);
    } else {
      assert refs[..n] == refs;
    }
  }

  lemma {:induction false} ChapterRowsFailed(cat: Catalog, m: Mapping, chs: seq<Chapter>, n: nat)
    requires n <= |chs| && ChapterRows(cat, m, chs[..n]).None?
    ensures ChapterRows(cat, m, chs).None?
    decreases |chs| - n
  {
    if n < |chs| {
      assert chs[..n + 1][..n] == chs[..n];
      ChapterRowsFailed(cat, m, chs, n + 1);
    } else {
      assert chs[..n] == chs;
    }
  }

  lemma {:induction false} PartLinesFailed(cat: Catalog, m: Mapping, book: Book, parts: seq<string>, n: nat)
    requires n <= |parts| && PartLines(cat, m, book, parts[..n]).None?
    ensures PartLines(cat, m, book, parts).None?
    decreases |parts| - n
  {
    if n < |parts| {
      assert parts[..n + 1][..n] == parts[..n];
      PartLinesFailed(cat, m, book, parts, n + 1);
    } else {
      assert parts[..n] == parts;
    }
  }

  // ---------------------------------------------------------------------
  // properties

  /** The labels are defined exactly when no reference holds two colons. */
  lemma {:induction false} RefLabelsDefined(cat: Catalog, refs: seq<string>)
    ensures RefLabels(cat, refs).Some? <==> forall r :: r in refs ==> CountChar(r, ':') <= 1
    decreases |refs|
  {
    if refs != [] {
      var init := refs[..|refs| - 1];
      var last := refs[|refs| - 1];
      RefLabelsDefined(cat, init);
      assert refs == init + [last];
      assert forall r :: r in refs <==> r in init || r == last;
      if RefLabels(cat, init).None? {
        assert RefLabels(cat, refs).None?;
      } else if SplitRef(last).None? {
        assert RefLabels(cat, refs).None?;
        assert last in refs && CountChar(last, ':') >= 2;
      } else {
        assert RefLabels(cat, refs).Some?;
        assert CountChar(last, ':') <= 1;
      }
    }
  }

  /** A label is produced exactly for a reference whose document the catalog
      names: that document's display name, a space, and the section. */
  lemma {:induction false} RefLabelsMembers(cat: Catalog, refs: seq<string>, l: string)
    requires RefLabels(cat, refs).Some?
    ensures l in RefLabels(cat, refs).value <==>
      exists r :: r in refs && SplitRef(r).Some? && SplitRef(r).value.0 in cat.docCategories
        && l == Label(cat, SplitRef(r).value.0, SplitRef(r).value.1)
    decreases |refs|
  {
    if refs != [] {
      var init := refs[..|refs| - 1];
      var last := refs[|refs| - 1];
      RefLabelsMembers(cat, init, l);
      assert refs == init + [last];
      assert forall r :: r in refs <==> r in init || r == last;
    }
  }

  /** Every label holds the space between name and section. */
  lemma {:induction false} RefLabelsSpaced(cat: Catalog, refs: seq<string>)
    requires RefLabels(cat, refs).Some?
    ensures forall i :: 0 <= i < |RefLabels(cat, refs).value| ==> ' ' in RefLabels(cat, refs).value[i]
  {
    var labels := RefLabels(cat, refs).value;
    forall i | 0 <= i < |labels| ensures ' ' in labels[i] {
      RefLabelsMembers(cat, refs, labels[i]);
      var r :| r in refs && SplitRef(r).Some? && SplitRef(r).value.0 in cat.docCategories
        && labels[i] == Label(cat, SplitRef(r).value.0, SplitRef(r).value.1);
      assert labels[i][|cat.docCategories[SplitRef(r).value.0]|] == ' ';
    }
  }

  /** The sentinel appears exactly for a chapter with no references: a
      chapter with references gets the joined labels, which either are
      empty or hold a space, and the sentinel holds none. */
  lemma CellSentinel(cat: Catalog, refs: seq<string>)
    requires Cell(cat, refs).Some?
    ensures Cell(cat, refs).value == Sentinel <==> refs == []
  {
    if refs != [] {
      var labels := RefLabels(cat, refs).value;
      assert ' ' !in Sentinel;
      if labels != [] {
        RefLabelsSpaced(cat, refs);
        assert ' ' in labels[0];
        JoinHead(labels, ", ");
      }
    }
  }

  /** The cell is empty exactly when the chapter has references and none
      of them names a document of the catalog. */
  lemma CellEmpty(cat: Catalog, refs: seq<string>)
    requires Cell(cat, refs).Some?
    ensures Cell(cat, refs).value == "" <==>
      refs != [] && forall r :: r in refs ==> SplitRef(r).Some? && SplitRef(r).value.0 !in cat.docCategories
  {
    if refs != [] {
      var labels := RefLabels(cat, refs).value;
      RefLabelsDefined(cat, refs);
      if labels != [] {
        RefLabelsSpaced(cat, refs);
        assert ' ' in labels[0];
        JoinHead(labels, ", ");
        RefLabelsMembers(cat, refs, labels[0]);
      } else {
        forall r | r in refs ensures SplitRef(r).Some? && SplitRef(r).value.0 !in cat.docCategories {
          if SplitRef(r).value.0 in cat.docCategories {
            RefLabelsMembers(cat, refs, Label(cat, SplitRef(r).value.0, SplitRef(r).value.1));
          }
        }
      }
    }
  }

  /** Everything in the first piece is in the joined string. */
  lemma JoinHead(pieces: seq<string>, sep: string)
    requires pieces != []
    ensures forall c :: c in pieces[0] ==> c in Join(pieces, sep)
  {
  }

  /** The rows of a part: one per chapter, in order, each the chapter's
      indented title and its cell; defined exactly when every cell is. */
  lemma {:induction false} ChapterRowsShape(cat: Catalog, m: Mapping, chs: seq<Chapter>)
    ensures ChapterRows(cat, m, chs).Some? <==> forall k :: 0 <= k < |chs| ==> Cell(cat, Get(m, chs[k].path, [])).Some?
    ensures ChapterRows(cat, m, chs).Some? ==>
      |ChapterRows(cat, m, chs).value| == |chs|
      && forall k :: 0 <= k < |chs| ==>
        ChapterRows(cat, m, chs).value[k] == Row(chs[k], Cell(cat, Get(m, chs[k].path, [])).value)
    decreases |chs|
  {
    if chs != [] {
      var init := chs[..|chs| - 1];
      ChapterRowsShape(cat, m, init);
      assert forall k :: 0 <= k < |init| ==> init[k] == chs[k];
    }
  }

  /** The blocks of the parts, one after the other: the block of part `i`
      starts after the three header lines of every earlier part and all of
      their chapter rows, opens with the part's three header lines and
      carries the rows of the part's chapters. */
  lemma {:induction false} PartLinesShape(cat: Catalog, m: Mapping, book: Book, parts: seq<string>)
    requires PartLines(cat, m, book, parts).Some?
    ensures |PartLines(cat, m, book, parts).value| == 3 * |parts| + |PartChapters(book, parts)|
    ensures forall i :: 0 <= i < |parts| ==> PartAt(cat, m, book, parts, i, PartLines(cat, m, book, parts).value)
    decreases |parts|
  {
    if parts != [] {
      var init := parts[..|parts| - 1];
      var part := parts[|parts| - 1];
      PartLinesShape(cat, m, book, init);
      var lines := PartLines(cat, m, book, init).value;
      var rows := ChapterRows(cat, m, Get(book, part, [])).value;
      ChapterRowsShape(cat, m, Get(book, part, []));
      var all := lines + PartBlock(part, rows);
      forall i | 0 <= i < |parts| ensures PartAt(cat, m, book, parts, i, all) {
        if i < |init| {
          assert PartAt(cat, m, book, init, i, lines);
          PartAtExtend(cat, m, book, parts, i, lines, PartBlock(part, rows));
        } else {
          PartAtLast(cat, m, book, parts, lines);
        }
      }
    }
  }

  /** The blocks are defined exactly when every part's rows are. */
  lemma {:induction false} PartLinesDefined(cat: Catalog, m: Mapping, book: Book, parts: seq<string>)
    ensures PartLines(cat, m, book, parts).Some? <==>
      forall i :: 0 <= i < |parts| ==> ChapterRows(cat, m, Get(book, parts[i], [])).Some?
    decreases |parts|
  {
    if parts != [] {
      var init := parts[..|parts| - 1];
      PartLinesDefined(cat, m, book, init);
      assert forall i :: 0 <= i < |init| ==> init[i] == parts[i];
    }
  }

  /** Part `i`'s block sits in `lines` where the earlier blocks end. */
  ghost predicate PartAt(cat: Catalog, m: Mapping, book: Book, parts: seq<string>, i: nat, lines: seq<string>)
    requires i < |parts|
  {
    var base := 3 * i + |PartChapters(book, parts[..i])|;
    var chs := Get(book, parts[i], []);
    ChapterRows(cat, m, chs).Some?
      && base + 3 + |chs| <= |lines|
      && lines[base..base + 3 + |chs|] == PartBlock(parts[i], ChapterRows(cat, m, chs).value)
  }

  lemma PartAtLast(cat: Catalog, m: Mapping, book: Book, parts: seq<string>, lines: seq<string>)
    requires parts != []
    requires |lines| == 3 * (|parts| - 1) + |PartChapters(book, parts[..|parts| - 1])|
    requires ChapterRows(cat, m, Get(book, parts[|parts| - 1], [])).Some?
    requires |ChapterRows(cat, m, Get(book, parts[|parts| - 1], [])).value| == |Get(book, parts[|parts| - 1], [])|
    ensures PartAt(cat, m, book, parts, |parts| - 1,
      lines + PartBlock(parts[|parts| - 1], ChapterRows(cat, m, Get(book, parts[|parts| - 1], [])).value))
  {
    var part := parts[|parts| - 1];
    var block := PartBlock(part, ChapterRows(cat, m, Get(book, part, [])).value);
    assert (lines + block)[|lines|..] == block;
  }

  lemma PartAtExtend(cat: Catalog, m: Mapping, book: Book, parts: seq<string>, i: nat, lines: seq<string>, more: seq<string>)
    requires i < |parts| - 1
    requires PartAt(cat, m, book, parts[..|parts| - 1], i, lines)
    ensures PartAt(cat, m, book, parts, i, lines + more)
  {
    assert parts[..|parts| - 1][..i] == parts[..i];
    var base := 3 * i + |PartChapters(book, parts[..i])|;
    var chs := Get(book, parts[i], []);
    assert (lines + more)[base..base + 3 + |chs|] == lines[base..base + 3 + |chs|];
  }

  /** The table: the title line, then one block per part in the book's
      order, with one row per chapter; `1 + 3 * parts + chapters` lines in
      all. */
  lemma TableShape(cat: Catalog, book: Book, m: Mapping)
    requires TableLines(cat, book, m).Some?
    ensures var lines := TableLines(cat, book, m).value;
      |lines| == 1 + 3 * |book.keys| + |BookChapters(book)|
      && lines[0] == TableTitle
      && forall i :: 0 <= i < |book.keys| ==> PartAt(cat, m, book, book.keys, i, lines[1..])
  {
    PartLinesShape(cat, m, book, book.keys);
    var lines := TableLines(cat, book, m).value;
    assert lines[1..] == PartLines(cat, m, book, book.keys).value;
  }

  /** When every token of the topic table holds exactly one colon, the
      table can be drawn for the mapping derived from any book. */
  lemma TableDefined(cat: Catalog, book: Book)
    requires forall t, k :: t in cat.topicMapping && 0 <= k < |cat.topicMapping[t]| ==>
      CountChar(cat.topicMapping[t][k], ':') == 1
    ensures TableLines(cat, book, MappingOf(cat, book)).Some?
  {
    var m := MappingOf(cat, book);
    forall p, r | r in Get(m, p, []) ensures CountChar(r, ':') <= 1 {
      MappingContents(cat, book, p, r);
      var ch, rule, t :| ch in BookChapters(book) && ch.path == p && rule in cat.keywords
        && Contains(ch.title, rule.keyword) && t in rule.topics && t in cat.topicMapping && r in cat.topicMapping[t];
      var k :| 0 <= k < |cat.topicMapping[t]| && cat.topicMapping[t][k] == r;
    }
    forall p ensures Cell(cat, Get(m, p, [])).Some? {
      RefLabelsDefined(cat, Get(m, p, []));
    }
    forall i | 0 <= i < |book.keys| ensures ChapterRows(cat, m, Get(book, book.keys[i], [])).Some? {
      ChapterRowsShape(cat, m, Get(book, book.keys[i], []));
    }
    PartLinesDefined(cat, m, book, book.keys);
  }

  /** The shipped tables: the mapping table of any book is defined. */
  lemma AnalyzerTableDefined(book: Book)
    ensures TableLines(Analyzer, book, MappingOf(Analyzer, book)).Some?
  {
    AnalyzerTokensSplit();
    forall t, k | t in Analyzer.topicMapping && 0 <= k < |Analyzer.topicMapping[t]|
      ensures CountChar(Analyzer.topicMapping[t][k], ':') == 1
    {
      SplitLength(Analyzer.topicMapping[t][k], ':');
    }
    TableDefined(Analyzer, book);
  }
}
