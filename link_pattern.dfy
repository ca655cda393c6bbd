/** The one regular expression of the table-of-contents parser,
    `re.match(r'.*\[(.*?)\]\((.*?)\)', line)`, as a hand-written matcher.

    Python's backtracking engine lets the greedy `.*` take as much as it can,
    so the `[` is tried from the right end of the line towards the left; from
    a `[`, the lazy title group stops at the first `](` after which a `)`
    still occurs, and the lazy path group stops at the first `)` after that
    `](`. Since `.` does not match a newline, the whole match lies before the
    first `\n`. */
module LinkPattern {
  import opened Collections
  import opened Strings

  /** The two groups of a successful match. */
  datatype Link = Link(title: string, path: string)

  /** `\]\(` matches at `j`. */
  predicate OpensPath(s: string, j: int) {
    0 <= j && j + 1 < |s| && s[j] == ']' && s[j + 1] == '('
  }

  /** `\]\((.*?)\)` can match with the `](` at `j` and the `)` at `k`. */
  ghost predicate Closes(s: string, j: int, k: int) {
    OpensPath(s, j) && j + 2 <= k < |s| && s[k] == ')'
  }

  /** The whole pattern can match with `[` at `i`, `](` at `j`, `)` at `k`. */
  ghost predicate LinkShape(s: string, i: int, j: int, k: int) {
    0 <= i < j && Closes(s, j, k) && s[i] == '['
  }

  /** The first position at or after `k` holding `c`. */
  function IndexFrom(s: string, c: char, k: nat): (r: Option<nat>)
    ensures r.Some? ==> k <= r.value < |s| && s[r.value] == c
    ensures forall m :: k <= m < |s| && (r.None? || m < r.value) ==> s[m] != c
    decreases |s| - k
  {
    if k >= |s| then None
    else if s[k] == c then Some(k)
    else IndexFrom(s, c, k + 1)
  }

  /** The lazy title group started at `j`: the first `](` at or after `j`
      that is followed, somewhere later, by a `)`. */
  function TitleEnd(s: string, j: nat): (r: Option<nat>)
    ensures r.Some? ==> j <= r.value && OpensPath(s, r.value) && IndexFrom(s, ')', r.value + 2).Some?
    ensures forall m, k :: j <= m && (r.None? || m < r.value) ==> !Closes(s, m, k)
    decreases |s| - j
  {
    if j + 1 >= |s| then None
    else if OpensPath(s, j) && IndexFrom(s, ')', j + 2).Some? then Some(j)
    else TitleEnd(s, j + 1)
  }

  /** Backtracking over the greedy `.*`: the rightmost `[` before `n` from
      which the rest of the pattern matches, with the positions of that `[`,
      of the `](` and of the `)`. */
  function FindLink(s: string, n: nat): (r: Option<(nat, nat, nat)>)
    requires n <= |s|
    ensures r.Some? ==> var (i, j, k) := r.value;
      i < n && LinkShape(s, i, j, k)
      && (forall i', j', k' :: i < i' < n ==> !LinkShape(s, i', j', k'))
      && (forall j', k' :: i < j' < j ==> !Closes(s, j', k'))
      && (forall k' :: j + 2 <= k' < k ==> s[k'] != ')')
    ensures r.None? ==> forall i, j, k :: i < n ==> !LinkShape(s, i, j, k)
    decreases n
  {
    if n == 0 then None
    else
      var i := n - 1;
      if s[i] == '[' && TitleEnd(s, n).Some? then
        var j := TitleEnd(s, n).value;
        var k := IndexFrom(s, ')', j + 2).value;
        Some((i, j, k))
      else
        FindLink(s, i)
  }

  /** The text `.` can see: everything before the first newline. */
  function FirstLine(s: string): (r: string)
    ensures StartsWith(s, r) && '\n' !in r
    ensures |r| < |s| ==> s[|r|] == '\n'
    ensures '\n' !in s ==> r == s
  {
    SplitFirst(s, '\n');
    Split(s, '\n')[0]
  }

  /** `re.match(r'.*\[(.*?)\]\((.*?)\)', line)` with its two groups. */
  function MatchLink(line: string): (r: Option<Link>)
    ensures r.Some? ==> '\n' !in r.value.title && '\n' !in r.value.path && ')' !in r.value.path
  {
    var s := FirstLine(line);
    match FindLink(s, |s|)
    case None => None
    case Some((i, j, k)) =>
      var title, path := s[i + 1..j], s[j + 2..k];
      assert forall m :: 0 <= m < |title| ==> title[m] == s[i + 1 + m];
      assert forall m :: 0 <= m < |path| ==> path[m] == s[j + 2 + m];
      Some(Link(title, path))
  }

  /** The match succeeds exactly when the line (before any newline) has a
      `[`, a later `](` and a `)` after that; the title is the text between
      the rightmost such `[` and the first `](` that is followed by a `)`,
      and the path stops at the first `)`. */
  lemma MatchLinkSpec(line: string)
    ensures var s := FirstLine(line);
      (MatchLink(line).Some? <==> exists i, j, k :: LinkShape(s, i, j, k))
      && (MatchLink(line).Some? ==>
            exists i, j, k :: LinkShape(s, i, j, k)
              && MatchLink(line).value == Link(s[i + 1..j], s[j + 2..k])
              && (forall i', j', k' :: i < i' ==> !LinkShape(s, i', j', k'))
              && (forall j', k' :: i < j' < j ==> !Closes(s, j', k')))
  {
    var s := FirstLine(line);
    var r := FindLink(s, |s|);
    if r.Some? {
      var (i, j, k) := r.value;
      assert LinkShape(s, i, j, k);
      forall i', j', k' | i < i' ensures !LinkShape(s, i', j', k') {
      }
    } else {
      forall i, j, k ensures !LinkShape(s, i, j, k) {
        if i < |s| {
        }
      }
    }
  }
}
