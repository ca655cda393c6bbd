/** The table-of-contents parser: reads the lines of a `SUMMARY.md` and files
    every `- [title](path)` item under the part heading in force. */
module BookStructure {
  import opened Collections
  import opened Strings
  import opened LinkPattern

  /** One table-of-contents item: its link text, its link target and its
      indentation level. */
  datatype Chapter = Chapter(title: string, path: string, level: nat)

  /** Part name -> the chapters filed under it, parts in order of first use. */
  type Book = OrderedMap<string, seq<Chapter>>

  /** The part in force before the first `# Part` heading. */
  const DefaultPart: string := "Introduction"

  /** `line.startswith('# Part')`. */
  predicate IsPartHeading(line: string) {
    StartsWith(line, "# Part")
  }

  /** `line.strip('# ').strip()`. */
  function PartName(line: string): string {
    Strip(Strip(line, {'#', ' '}), Whitespace)
  }

  /** `line.strip().startswith('- [')`. */
  predicate IsListItem(line: string) {
    StartsWith(Strip(line, Whitespace), "- [")
  }

  /** What one line is to the parser. */
  datatype LineKind = PartHeading(name: string) | Item(chapter: Chapter) | Ignored

  /** The branch the parser's loop body takes for a line: a `# Part` line
      names the new part; otherwise a list item that matches the link
      pattern is a chapter, with the level `line.count('  ')` taken over the
      whole line; anything else is ignored. */
  function Classify(line: string): (k: LineKind)
    ensures k.PartHeading? <==> IsPartHeading(line)
    ensures k.Item? <==> !IsPartHeading(line) && IsListItem(line) && MatchLink(line).Some?
    ensures k.Item? ==> k.chapter.level * 2 <= |line| && ')' !in k.chapter.path
  {
    if IsPartHeading(line) then PartHeading(PartName(line))
    else if IsListItem(line) then
      match MatchLink(line)
      case None => Ignored
      case Some(link) =>
        CountBound(line, "  ");
        Item(Chapter(link.title, link.path, Count(line, "  ")))
    else Ignored
  }

  /** The classification of every line. */
  function Kinds(lines: seq<string>): (ks: seq<LineKind>)
    ensures |ks| == |lines|
    ensures forall n :: 0 <= n < |lines| ==> ks[n] == Classify(lines[n])
  {
    seq(|lines|, n requires 0 <= n < |lines| => Classify(lines[n]))
  }

  /** `current_part` after lines of the given kinds have been read. */
  function PartAfter(ks: seq<LineKind>): string
    decreases |ks|
  {
    if ks == [] then DefaultPart
    else if ks[|ks| - 1].PartHeading? then ks[|ks| - 1].name
    else PartAfter(ks[..|ks| - 1])
  }

  /** The append requests the parser makes: one `(part, [chapter])` per
      chapter line, in line order. */
  function Entries(ks: seq<LineKind>): seq<(string, seq<Chapter>)>
    decreases |ks|
  {
    if ks == [] then []
    else
      var init := ks[..|ks| - 1];
      match ks[|ks| - 1]
      case Item(c) => Entries(init) + [(PartAfter(init), [c])]
      case _ => Entries(init)
  }

  /** The number of chapter lines. */
  function ChapterLines(ks: seq<LineKind>): nat
    decreases |ks|
  {
    if ks == [] then 0
    else ChapterLines(ks[..|ks| - 1]) + (if ks[|ks| - 1].Item? then 1 else 0)
  }

  /** The structure the parser builds from the lines of the file. */
  function Structure(lines: seq<string>): Book {
    Accumulate(Entries(Kinds(lines)))
  }

  /** `analyze_book_structure`, given the content of `SUMMARY.md` (`None` when
      the file does not exist). */
  method AnalyzeBookStructure(content: Option<string>) returns (book: Book)
    ensures content.None? ==> book == OrderedMap([], map[])
    ensures content.Some? ==> book == Structure(Split(content.value, '\n'))
  {
    book := OrderedMap([], map[]);
    if content.None? {
      return;
    }
    var lines := Split(content.value, '\n');
    ghost var ks := Kinds(lines);
    var currentPart := DefaultPart;
    for n := 0 to |lines|
      invariant currentPart == PartAfter(ks[..n])
      invariant book == Accumulate(Entries(ks[..n]))
    {
      var line := lines[n];
      if IsPartHeading(line) {
        currentPart := PartName(line);
        HeadingStep(ks, n, currentPart);
      } else if IsListItem(line) {
        var m := MatchLink(line);
        if m.Some? {
          var c := Chapter(m.value.title, m.value.path, Count(line, "  "));
          ItemStep(ks, n, c);
          AccumulateSnoc(Entries(ks[..n]), currentPart, [c]);
          book := Extend(book, currentPart, [c]);
        } else {
          IgnoredStep(ks, n);
        }
      } else {
        IgnoredStep(ks, n);
      }
    }
    assert ks[..|lines|] == ks;
  }

  /** A heading line changes the part in force and files nothing. */
  lemma HeadingStep(ks: seq<LineKind>, n: nat, name: string)
    requires n < |ks| && ks[n] == PartHeading(name)
    ensures PartAfter(ks[..n + 1]) == name && Entries(ks[..n + 1]) == Entries(ks[..n])
  {
    assert ks[..n + 1][..n] == ks[..n];
  }

  /** A chapter line files its chapter under the part in force. */
  lemma ItemStep(ks: seq<LineKind>, n: nat, c: Chapter)
    requires n < |ks| && ks[n] == Item(c)
    ensures PartAfter(ks[..n + 1]) == PartAfter(ks[..n])
    ensures Entries(ks[..n + 1]) == Entries(ks[..n]) + [(PartAfter(ks[..n]), [c])]
  {
    assert ks[..n + 1][..n] == ks[..n];
  }

  /** Any other line changes nothing. */
  lemma IgnoredStep(ks: seq<LineKind>, n: nat)
    requires n < |ks| && ks[n] == Ignored
    ensures PartAfter(ks[..n + 1]) == PartAfter(ks[..n]) && Entries(ks[..n + 1]) == Entries(ks[..n])
  {
    assert ks[..n + 1][..n] == ks[..n];
  }

  // ---------------------------------------------------------------------
  // properties

  /** There is one entry per chapter line. */
  lemma {:induction false} EntriesLength(ks: seq<LineKind>)
    ensures |Entries(ks)| == ChapterLines(ks)
    decreases |ks|
  {
    if ks != [] {
      EntriesLength(ks[..|ks| - 1]);
    }
  }

  /** Extending the lines keeps the entries made so far. */
  lemma EntriesPrefix(ks: seq<LineKind>)
    requires ks != []
    ensures Entries(ks)[..|Entries(ks[..|ks| - 1])|] == Entries(ks[..|ks| - 1])
  {
  }

  /** Placement and order: the chapter of line `n` is the entry numbered by
      the chapter lines before it, and is filed under the part in force at
      that line. */
  lemma {:induction false} EntryOfLine(ks: seq<LineKind>, n: nat)
    requires n < |ks| && ks[n].Item?
    ensures ChapterLines(ks[..n]) < |Entries(ks)|
    ensures Entries(ks)[ChapterLines(ks[..n])] == (PartAfter(ks[..n]), [ks[n].chapter])
    decreases |ks|
  {
    var last := |ks| - 1;
    var init := ks[..last];
    EntriesLength(init);
    EntriesPrefix(ks);
    if n < last {
      EntryOfLine(init, n);
      assert ks[..n] == init[..n];
    } else {
      assert ks[..n] == init;
    }
  }

  /** Every entry comes from a chapter line, filed under the part in force
      at that line. */
  lemma {:induction false} LineOfEntry(ks: seq<LineKind>, i: nat) returns (n: nat)
    requires i < |Entries(ks)|
    ensures n < |ks| && ks[n].Item? && Entries(ks)[i] == (PartAfter(ks[..n]), [ks[n].chapter])
    decreases |ks|
  {
    var last := |ks| - 1;
    var init := ks[..last];
    EntriesPrefix(ks);
    if i < |Entries(init)| {
      n := LineOfEntry(init, i);
      assert ks[..n] == init[..n] && ks[n] == init[n];
    } else {
      n := last;
      assert ks[..last] == init;
    }
  }

  /** The part in force is the name of the most recent `# Part` heading, or
      the default part when there has been none. */
  lemma {:induction false} PartAfterSpec(ks: seq<LineKind>)
    ensures (forall n :: 0 <= n < |ks| ==> !ks[n].PartHeading?) ==> PartAfter(ks) == DefaultPart
    ensures forall h :: (0 <= h < |ks| && ks[h].PartHeading?
      && (forall m :: h < m < |ks| ==> !ks[m].PartHeading?)) ==> PartAfter(ks) == ks[h].name
    decreases |ks|
  {
    if ks != [] {
      var init := ks[..|ks| - 1];
      PartAfterSpec(init);
      assert forall n :: 0 <= n < |init| ==> init[n] == ks[n];
    }
  }

  /** The structure is a dict whose keys are exactly the parts under which
      some chapter line was filed; under each lie the chapters filed there,
      in line order. */
  lemma StructureKeys(lines: seq<string>, p: string)
    ensures ValidMap(Structure(lines))
    ensures p in Structure(lines).values <==>
      exists n :: 0 <= n < |lines| && Kinds(lines)[n].Item? && PartAfter(Kinds(lines)[..n]) == p
    ensures p in Structure(lines).values ==> Structure(lines).values[p] == Gathered(Entries(Kinds(lines)), p)
  {
    var ks := Kinds(lines);
    if p in Structure(lines).values {
      var n := PartFiled(ks, p);
      assert Kinds(lines)[n].Item? && PartAfter(Kinds(lines)[..n]) == p;
    }
    if exists n :: 0 <= n < |lines| && ks[n].Item? && PartAfter(ks[..n]) == p {
      var n :| 0 <= n < |lines| && ks[n].Item? && PartAfter(ks[..n]) == p;
      LinePartPresent(ks, n);
    }
  }

  lemma PartFiled(ks: seq<LineKind>, p: string) returns (n: nat)
    requires p in Accumulate(Entries(ks)).values
    ensures n < |ks| && ks[n].Item? && PartAfter(ks[..n]) == p
  {
    var i := AccumulatedKey(Entries(ks), p);
    n := LineOfEntry(ks, i);
  }

  lemma LinePartPresent(ks: seq<LineKind>, n: nat)
    requires n < |ks| && ks[n].Item?
    ensures PartAfter(ks[..n]) in Accumulate(Entries(ks)).values
  {
    var es := Entries(ks);
    EntryOfLine(ks, n);
    assert KeysOf(es)[ChapterLines(ks[..n])] == PartAfter(ks[..n]);
  }

  /** No part key holds an empty list. */
  lemma StructureNonEmpty(lines: seq<string>, p: string)
    requires p in Structure(lines).values
    ensures Structure(lines).values[p] != []
  {
    var es := Entries(Kinds(lines));
    forall i | 0 <= i < |es| ensures es[i].1 != [] {
      var n := LineOfEntry(Kinds(lines), i);
    }
    GatheredNonEmpty(es, p);
  }

  /** A file in which no line is a chapter line gives an empty structure,
      whatever headings it has. */
  lemma NoChapterLines(lines: seq<string>)
    requires forall n :: 0 <= n < |lines| ==> !Classify(lines[n]).Item?
    ensures Structure(lines).keys == []
  {
    var ks := Kinds(lines);
    if Entries(ks) != [] {
      var n := LineOfEntry(ks, 0);
    }
  }

  /** Level: a chapter line made of `n` two-space units followed by text
      without a double space has level `n`; in particular four leading
      spaces give level 2. */
  lemma IndentLevel(n: nat, rest: string)
    requires !Contains(rest, "  ")
    requires Classify(Repeat("  ", n) + rest).Item?
    ensures Classify(Repeat("  ", n) + rest).chapter.level == n
  {
    CountIndent(n, rest);
    CountPositiveIff(rest, "  ");
  }
}
