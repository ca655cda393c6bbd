/** The analyzer's fixed tables: document id -> display name, topic ->
    reference tokens `"doc:section"`, and the keyword -> topics rules the
    mapper applies in order. */
module Catalog {
  import opened Collections
  import opened Strings

  /** One entry of the keyword table: a title substring and the topics it
      stands for. */
  datatype Rule = Rule(keyword: string, topics: seq<string>)

  /** The three tables the operations consult. */
  datatype Catalog = Catalog(
    docCategories: map<string, string>,
    topicMapping: map<string, seq<string>>,
    keywords: seq<Rule>)

  /** A reference token: document id and section joined by `:`. */
  function Token(doc: string, section: string): string {
    doc + ":" + section
  }

  /** The tokens of a list of (document id, section) pairs, in order. */
  function Tokens(refs: seq<(string, string)>): (r: seq<string>)
    ensures |r| == |refs|
    ensures forall i :: 0 <= i < |refs| ==> r[i] == Token(refs[i].0, refs[i].1)
  {
    seq(|refs|, i requires 0 <= i < |refs| => Token(refs[i].0, refs[i].1))
  }

  const DocCategories: map<string, string> := map[
    "the_book" := "The Rust Programming Language",
    "reference" := "The Rust Reference",
    "rustonomicon" := "The Rustonomicon",
    "async_book" := "Asynchronous Programming in Rust",
    "embedded_book" := "The Embedded Rust Book",
    "rust_by_example" := "Rust by Example",
    "std" := "Standard Library Documentation",
    "compiler" := "Rustc Book",
    "cargo" := "The Cargo Book",
    "rustdoc" := "The rustdoc Book",
    "clippy" := "Clippy Documentation",
    "error_index" := "Rust Compiler Error Index"
  ]

  /** `topic_mapping` in its source order, each token written as its
      (document id, section). */
  const TopicList: seq<(string, seq<(string, string)>)> := [
    ("ownership", [("the_book", "ch04"), ("reference", "ch4.1"), ("rustonomicon", "ch3")]),
    ("borrowing", [("the_book", "ch04.2"), ("reference", "ch4.2"), ("rustonomicon", "ch3.2")]),
    ("lifetimes", [("the_book", "ch10.3"), ("reference", "ch10.3"), ("rustonomicon", "ch3.6")]),
    ("traits", [("the_book", "ch10"), ("reference", "ch9")]),
    ("generics", [("the_book", "ch10"), ("reference", "ch9.2")]),
    ("unsafe", [("the_book", "ch19.1"), ("reference", "ch16"), ("rustonomicon", "all")]),
    ("concurrency", [("the_book", "ch16"), ("reference", "ch15"), ("async_book", "all")]),
    ("macros", [("the_book", "ch19.5"), ("reference", "ch3"), ("little_book_of_macros", "all")]),
    ("type_system", [("reference", "ch8"), ("rustonomicon", "ch6")]),
    ("memory", [("rustonomicon", "ch2"), ("reference", "ch4")]),
    ("async", [("async_book", "all"), ("the_book", "ch17")]),
    ("ffi", [("rustonomicon", "ch10"), ("reference", "ch18")]),
    ("error_handling", [("the_book", "ch09"), ("rust_by_example", "ch18")]),
    ("testing", [("the_book", "ch11"), ("cargo", "ch12")]),
    ("modules", [("the_book", "ch07"), ("reference", "ch6")]),
    ("patterns", [("the_book", "ch18"), ("reference", "ch11")]),
    ("smart_pointers", [("the_book", "ch15"), ("rustonomicon", "ch7")]),
    ("iterators", [("the_book", "ch13"), ("std", "iter")]),
    ("closures", [("the_book", "ch13"), ("reference", "ch9.1")]),
    ("cargo", [("cargo", "all"), ("the_book", "ch01.3")]),
    ("documentation", [("rustdoc", "all"), ("the_book", "ch14.2")])
  ]

  /** `keywords_to_topics`, in its source order. */
  const KeywordRules: seq<Rule> := [
    Rule("メモリ", ["memory", "ownership"]),
    Rule("所有権", ["ownership"]),
    Rule("借用", ["borrowing"]),
    Rule("ライフタイム", ["lifetimes"]),
    Rule("型", ["type_system", "generics"]),
    Rule("トレイト", ["traits"]),
    Rule("ジェネリクス", ["generics"]),
    Rule("unsafe", ["unsafe", "ffi"]),
    Rule("並行", ["concurrency", "async"]),
    Rule("マクロ", ["macros"]),
    Rule("エラー", ["error_handling"]),
    Rule("テスト", ["testing"]),
    Rule("モジュール", ["modules"]),
    Rule("パターン", ["patterns"]),
    Rule("スマートポインタ", ["smart_pointers"]),
    Rule("イテレータ", ["iterators"]),
    Rule("クロージャ", ["closures"])
  ]

  /** The (topic, tokens) items of `topic_mapping`. */
  function TopicItems(): (r: seq<(string, seq<string>)>)
    ensures |r| == |TopicList|
    ensures forall i :: 0 <= i < |r| ==> r[i] == (TopicList[i].0, Tokens(TopicList[i].1))
  {
    seq(|TopicList|, i requires 0 <= i < |TopicList| => (TopicList[i].0, Tokens(TopicList[i].1)))
  }

  /** The tables a `RustDocAnalyzer` is built with. */
  const Analyzer: Catalog := Catalog(DocCategories, DictOf(TopicItems()), KeywordRules)

  /** No document id or section in `refs` contains a colon. */
  predicate ColonFree(refs: seq<(string, string)>) {
    forall i :: 0 <= i < |refs| ==> ':' !in refs[i].0 && ':' !in refs[i].1
  }

  lemma TopicListColonFree()
    ensures forall i :: 0 <= i < |TopicList| ==> ColonFree(TopicList[i].1)
  {
    ColonFreeBetween(0, 7);
    ColonFreeBetween(7, 14);
    ColonFreeBetween(14, 21);
  }

  /** The topic table checked seven entries at a time: the ranges carry no
      meaning of their own, they only keep each proof obligation small. */
  lemma ColonFreeBetween(lo: nat, hi: nat)
    requires (lo, hi) == (0, 7) || (lo, hi) == (7, 14) || (lo, hi) == (14, 21)
    ensures forall i :: lo <= i < hi ==> ColonFree(TopicList[i].1)
  {
  }

  lemma TopicListNonEmpty()
    ensures forall i :: 0 <= i < |TopicList| ==> TopicList[i].1 != []
  {
  }

  /** Every token of the shipped topic mapping holds exactly one colon:
      splitting it at `:` gives two pieces. */
  lemma AnalyzerTokensSplit()
    ensures forall t, k :: t in Analyzer.topicMapping && 0 <= k < |Analyzer.topicMapping[t]| ==>
      |Split(Analyzer.topicMapping[t][k], ':')| == 2
  {
    TopicListColonFree();
    forall t, k | t in Analyzer.topicMapping && 0 <= k < |Analyzer.topicMapping[t]|
      ensures |Split(Analyzer.topicMapping[t][k], ':')| == 2
    {
      var i := DictOfIndex(TopicItems(), t);
      var (doc, section) := TopicList[i].1[k];
      SplitAround(doc, section, ':');
    }
  }

  /** Every topic's token list is non-empty. */
  lemma AnalyzerTopicsNonEmpty()
    ensures forall t :: t in Analyzer.topicMapping ==> Analyzer.topicMapping[t] != []
  {
    var items := TopicItems();
    assert forall i :: 0 <= i < |items| ==> items[i].1 != [] by {
      TopicListNonEmpty();
    }
    forall t | t in DictOf(items) ensures DictOf(items)[t] != [] {
      var i := DictOfIndex(items, t);
    }
  }

  /** Every topic a keyword rule names is listed in the topic table. */
  lemma RuleTopicsListed()
    ensures forall i, j :: 0 <= i < |KeywordRules| && 0 <= j < |KeywordRules[i].topics| ==>
      exists k :: 0 <= k < |TopicList| && TopicList[k].0 == KeywordRules[i].topics[j]
  {
    assert TopicList[0].0 == "ownership";
    assert TopicList[1].0 == "borrowing";
    assert TopicList[2].0 == "lifetimes";
    assert TopicList[3].0 == "traits";
    assert TopicList[4].0 == "generics";
    assert TopicList[5].0 == "unsafe";
    assert TopicList[6].0 == "concurrency";
    assert TopicList[7].0 == "macros";
    assert TopicList[8].0 == "type_system";
    assert TopicList[9].0 == "memory";
    assert TopicList[10].0 == "async";
    assert TopicList[11].0 == "ffi";
    assert TopicList[12].0 == "error_handling";
    assert TopicList[13].0 == "testing";
    assert TopicList[14].0 == "modules";
    assert TopicList[15].0 == "patterns";
    assert TopicList[16].0 == "smart_pointers";
    assert TopicList[17].0 == "iterators";
    assert TopicList[18].0 == "closures";
    assert TopicList[19].0 == "cargo";
    assert TopicList[20].0 == "documentation";
  }

  /** Every rule names at least one topic, and every topic a rule names is
      in the topic mapping. */
  lemma AnalyzerRulesKnown()
    ensures forall i :: 0 <= i < |Analyzer.keywords| ==> Analyzer.keywords[i].topics != []
    ensures forall i, j :: 0 <= i < |Analyzer.keywords| && 0 <= j < |Analyzer.keywords[i].topics| ==>
      Analyzer.keywords[i].topics[j] in Analyzer.topicMapping
  {
    RuleTopicsListed();
    var items := TopicItems();
    forall i, j | 0 <= i < |KeywordRules| && 0 <= j < |KeywordRules[i].topics|
      ensures KeywordRules[i].topics[j] in DictOf(items)
    {
      var k :| 0 <= k < |TopicList| && TopicList[k].0 == KeywordRules[i].topics[j];
      assert items[k].0 == KeywordRules[i].topics[j];
    }
  }

  /** The token `the_book:ch10` is listed under both `traits` and
      `generics`. */
  lemma SharedChapterTen()
    ensures "traits" in Analyzer.topicMapping && "the_book:ch10" in Analyzer.topicMapping["traits"]
    ensures "generics" in Analyzer.topicMapping && "the_book:ch10" in Analyzer.topicMapping["generics"]
  {
    var items := TopicItems();
    assert items[3].1[0] == Token("the_book", "ch10") == "the_book:ch10";
    assert items[4].1[0] == Token("the_book", "ch10");
    assert items[3].0 == "traits" && items[4].0 == "generics";
    assert forall j :: 0 <= j < |items| && j != 3 ==> items[j].0 != "traits" by {
      TopicNameOnce("traits", 3);
    }
    assert forall j :: 0 <= j < |items| && j != 4 ==> items[j].0 != "generics" by {
      TopicNameOnce("generics", 4);
    }
    DictOfUnique(items, 3);
    DictOfUnique(items, 4);
  }

  /** `traits` and `generics`, the two topics sharing `the_book:ch10`, are
      each listed once; the lemma is limited to those two names, the only
      ones its callers need, to keep the proof small. */
  lemma TopicNameOnce(name: string, i: nat)
    requires i < |TopicList| && TopicList[i].0 == name
    requires name == "traits" || name == "generics"
    ensures forall j :: 0 <= j < |TopicList| && j != i ==> TopicList[j].0 != name
  {
  }
}
