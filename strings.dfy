/** The Python `str` operations the analyzer uses, on `string` (a sequence of
    code points): `startswith`, `in`, `split`, `join`, `strip`, `count` and
    repetition with `*`. */
module Strings {

  /** `s.startswith(prefix)`. */
  predicate StartsWith(s: string, prefix: string) {
    |prefix| <= |s| && s[..|prefix|] == prefix
  }

  /** `needle` occurs in `s` at position `i`. */
  ghost predicate OccursAt(s: string, needle: string, i: int) {
    0 <= i && i + |needle| <= |s| && s[i..i + |needle|] == needle
  }

  /** `needle in s`: substring test (the empty string is in every string). */
  predicate Contains(s: string, needle: string)
    decreases |s|
  {
    StartsWith(s, needle) || (|s| > 0 && Contains(s[1..], needle))
  }

  /** The substring test holds exactly when `needle` occurs at some position. */
  lemma {:induction false} ContainsIff(s: string, needle: string)
    ensures Contains(s, needle) <==> exists i :: OccursAt(s, needle, i)
    decreases |s|
  {
    if StartsWith(s, needle) {
      assert OccursAt(s, needle, 0);
    } else if |s| > 0 {
      ContainsIff(s[1..], needle);
      if Contains(s[1..], needle) {
        var i :| OccursAt(s[1..], needle, i);
        assert s[i + 1..i + 1 + |needle|] == s[1..][i..i + |needle|];
        assert OccursAt(s, needle, i + 1);
      }
      if exists i :: OccursAt(s, needle, i) {
        var i :| OccursAt(s, needle, i);
        assert i != 0;
        assert s[1..][i - 1..i - 1 + |needle|] == s[i..i + |needle|];
        assert OccursAt(s[1..], needle, i - 1);
      }
    } else {
      assert forall i :: !OccursAt(s, needle, i);
    }
  }

  // ---------------------------------------------------------------------
  // split and join

  /** `s.split(sep)` for a one-character separator: the pieces between
      separators, never fewer than one, none containing the separator. */
  function Split(s: string, sep: char): (pieces: seq<string>)
    ensures |pieces| >= 1
    ensures forall k :: 0 <= k < |pieces| ==> sep !in pieces[k]
    decreases |s|
  {
    if s == [] then [""]
    else
      var rest := Split(s[1..], sep);
      if s[0] == sep then [""] + rest
      else [[s[0]] + rest[0]] + rest[1..]
  }

  /** `sep.join(pieces)`. */
  function Join(pieces: seq<string>, sep: string): string
    decreases |pieces|
  {
    if pieces == [] then ""
    else if |pieces| == 1 then pieces[0]
    else pieces[0] + sep + Join(pieces[1..], sep)
  }

  /** Joining the pieces of a split with the separator gives the string back. */
  lemma {:induction false} JoinSplit(s: string, sep: char)
    ensures Join(Split(s, sep), [sep]) == s
    decreases |s|
  {
    if s != [] {
      var rest := Split(s[1..], sep);
      JoinSplit(s[1..], sep);
      if s[0] == sep {
        assert ([""] + rest)[1..] == rest;
      } else if |rest| == 1 {
        assert s == [s[0]] + s[1..];
      } else {
        var pieces := [[s[0]] + rest[0]] + rest[1..];
        assert pieces[1..] == rest[1..];
        assert s == [s[0]] + s[1..];
      }
    }
  }

  /** A string without the separator splits into itself alone. */
  lemma {:induction false} SplitWithoutSep(s: string, sep: char)
    requires sep !in s
    ensures Split(s, sep) == [s]
    decreases |s|
  {
    if s != [] {
      SplitWithoutSep(s[1..], sep);
      assert s == [s[0]] + s[1..];
    }
  }

  /** Two separator-free strings joined by one separator split back into
      the two. */
  lemma {:induction false} SplitAround(left: string, right: string, sep: char)
    requires sep !in left && sep !in right
    ensures Split(left + [sep] + right, sep) == [left, right]
    decreases |left|
  {
    var s := left + [sep] + right;
    if left == [] {
      assert s == [sep] + right && s[1..] == right;
      SplitWithoutSep(right, sep);
    } else {
      assert s[1..] == left[1..] + [sep] + right;
      SplitAround(left[1..], right, sep);
      assert left == [left[0]] + left[1..];
    }
  }

  /** Number of occurrences of the character `c` in `s`. */
  function CountChar(s: string, c: char): nat
    decreases |s|
  {
    if s == [] then 0 else (if s[0] == c then 1 else 0) + CountChar(s[1..], c)
  }

  /** A character occurs exactly when it is counted at least once. */
  lemma {:induction false} CountCharPositive(s: string, c: char)
    ensures c in s <==> CountChar(s, c) > 0
    decreases |s|
  {
    if s != [] {
      CountCharPositive(s[1..], c);
      assert s == [s[0]] + s[1..];
    }
  }

  /** A split yields one piece more than there are separators. */
  lemma {:induction false} SplitLength(s: string, sep: char)
    ensures |Split(s, sep)| == CountChar(s, sep) + 1
    decreases |s|
  {
    if s != [] {
      SplitLength(s[1..], sep);
    }
  }

  /** The first piece of a split is the longest prefix free of the separator. */
  lemma {:induction false} SplitFirst(s: string, sep: char)
    ensures StartsWith(s, Split(s, sep)[0])
    ensures |Split(s, sep)[0]| < |s| ==> s[|Split(s, sep)[0]|] == sep
    decreases |s|
  {
    if s != [] {
      SplitFirst(s[1..], sep);
    }
  }

  // ---------------------------------------------------------------------
  // strip

  /** The characters for which Python's `str.isspace()` holds; `strip()`
      without an argument removes exactly these. */
  const Whitespace: set<char> := {
    '\t', '\n', '\U{000B}', '\U{000C}', '\r',
    '\U{001C}', '\U{001D}', '\U{001E}', '\U{001F}', ' ',
    '\U{0085}', '\U{00A0}', '\U{1680}',
    '\U{2000}', '\U{2001}', '\U{2002}', '\U{2003}', '\U{2004}', '\U{2005}',
    '\U{2006}', '\U{2007}', '\U{2008}', '\U{2009}', '\U{200A}',
    '\U{2028}', '\U{2029}', '\U{202F}', '\U{205F}', '\U{3000}'
  }

  /** Where `strip` starts: the first position at or after `i` whose
      character is not in `chars`. */
  function StripStart(s: string, chars: set<char>, i: nat): (r: nat)
    requires i <= |s|
    ensures i <= r <= |s|
    ensures forall k :: i <= k < r ==> s[k] in chars
    ensures r < |s| ==> s[r] !in chars
    decreases |s| - i
  {
    if i < |s| && s[i] in chars then StripStart(s, chars, i + 1) else i
  }

  /** Where `strip` ends: scanning down from `j`, but not below `lo`, the end
      of the last character not in `chars`. */
  function StripEnd(s: string, chars: set<char>, lo: nat, j: nat): (r: nat)
    requires lo <= j <= |s|
    ensures lo <= r <= j
    ensures forall k :: r <= k < j ==> s[k] in chars
    ensures lo < r ==> s[r - 1] !in chars
    decreases j - lo
  {
    if lo < j && s[j - 1] in chars then StripEnd(s, chars, lo, j - 1) else j
  }

  /** `s.strip(chars)`: drops the longest prefix and, from what is left, the
      longest suffix made of characters in `chars`. */
  function Strip(s: string, chars: set<char>): string {
    var i := StripStart(s, chars, 0);
    s[i..StripEnd(s, chars, i, |s|)]
  }

  /** What `strip` leaves is a slice of `s` that neither starts nor ends with
      a character of `chars`, and everything cut off is made of them. */
  lemma StripSpec(s: string, chars: set<char>)
    ensures var i := StripStart(s, chars, 0); var j := StripEnd(s, chars, i, |s|);
      i <= j <= |s| && Strip(s, chars) == s[i..j]
        && (forall k :: 0 <= k < i || j <= k < |s| ==> s[k] in chars)
        && (i < j ==> s[i] !in chars && s[j - 1] !in chars)
  {
  }

  // ---------------------------------------------------------------------
  // count and repetition

  /** `s.count(sub)`: non-overlapping occurrences, scanning left to right;
      Python returns `len(s) + 1` for the empty `sub`. */
  function Count(s: string, sub: string): nat
    decreases |s|
  {
    if sub == [] then |s| + 1
    else if |s| < |sub| then 0
    else if s[..|sub|] == sub then 1 + Count(s[|sub|..], sub)
    else Count(s[1..], sub)
  }

  /** A non-empty `sub` is counted at least once exactly when it occurs. */
  lemma {:induction false} CountPositiveIff(s: string, sub: string)
    requires sub != []
    ensures Count(s, sub) > 0 <==> Contains(s, sub)
    decreases |s|
  {
    if |s| < |sub| {
      ShortDoesNotContain(s, sub);
    } else if s[..|sub|] == sub {
    } else {
      CountPositiveIff(s[1..], sub);
    }
  }

  lemma {:induction false} ShortDoesNotContain(s: string, sub: string)
    requires |s| < |sub|
    ensures !Contains(s, sub)
    decreases |s|
  {
    if |s| > 0 {
      ShortDoesNotContain(s[1..], sub);
    }
  }

  /** Occurrences never overlap, so they cannot be more than the length allows. */
  lemma {:induction false} CountBound(s: string, sub: string)
    requires sub != []
    ensures Count(s, sub) * |sub| <= |s|
    decreases |s|
  {
    if |s| >= |sub| {
      if s[..|sub|] == sub {
        CountBound(s[|sub|..], sub);
      } else {
        CountBound(s[1..], sub);
      }
    }
  }

  /** `s * n`. */
  function Repeat(s: string, n: nat): string
    decreases n
  {
    if n == 0 then "" else s + Repeat(s, n - 1)
  }

  /** An indentation of `n` two-space units in front of `rest` adds exactly
      `n` to the number of two-space occurrences. */
  lemma {:induction false} CountIndent(n: nat, rest: string)
    ensures Count(Repeat("  ", n) + rest, "  ") == n + Count(rest, "  ")
    decreases n
  {
    if n > 0 {
      var t := Repeat("  ", n) + rest;
      assert t == "  " + (Repeat("  ", n - 1) + rest);
      assert t[..2] == "  ";
      assert t[2..] == Repeat("  ", n - 1) + rest;
      CountIndent(n - 1, rest);
    } else {
      assert Repeat("  ", n) + rest == rest;
    }
  }

  /** Counting two-space units in `'  ' * n` gives `n` back. */
  lemma IndentRoundTrip(n: nat)
    ensures Count(Repeat("  ", n), "  ") == n
  {
    CountIndent(n, "");
    assert Repeat("  ", n) + "" == Repeat("  ", n);
  }
}
