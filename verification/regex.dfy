/**
 * The two shapes of regular-expression replacement the normalisers use,
 * with the matching rules of the Rust `regex` crate:
 *
 *  - `Regex::new(P.*$).replace(s, "")`, where P is a fixed sequence of
 *    character classes (`-r`, `[-_\.]`). The crate reports the leftmost
 *    match and `replace` removes that one match. `.` matches every
 *    character except a line feed, and `$` (without the multi-line flag)
 *    matches only at the end of the text, so a match starting at i runs
 *    to the end of the text and exists only when no line feed follows P.
 *  - `Regex::new(C).replace_all(s, rep)`, where C is one character class:
 *    every character in C is replaced by `rep`.
 */
module Regex {

  /** A bracketed character class such as `[-_\.]`; a literal character is a class of one. */
  type Class = set<char>

  /** The classes of p match the characters of s starting at i, one each. */
  predicate OccursAt(s: string, p: seq<Class>, i: int)
  {
    0 <= i && i + |p| <= |s| && forall k :: 0 <= k < |p| ==> s[i + k] in p[k]
  }

  /** The pattern `p.*$` matches s starting at i (the match then ends at the end of s). */
  predicate MatchesToEndAt(s: string, p: seq<Class>, i: int)
  {
    OccursAt(s, p, i) && '\n' !in s[i + |p|..]
  }

  /** No class of p admits a line feed. */
  predicate NoLineFeed(p: seq<Class>)
  {
    forall k :: 0 <= k < |p| ==> '\n' !in p[k]
  }

  /**
   * The leftmost position from i on where `p.*$` matches s, or |s| when
   * there is none: the engine tries each start position in turn.
   */
  function FirstMatch(s: string, p: seq<Class>, i: int): (k: int)
    requires 0 <= i <= |s|
    ensures i <= k <= |s|
    ensures k < |s| ==> MatchesToEndAt(s, p, k)
    ensures forall j :: i <= j < k ==> !MatchesToEndAt(s, p, j)
    decreases |s| - i
  {
    if i == |s| || MatchesToEndAt(s, p, i) then i else FirstMatch(s, p, i + 1)
  }

  /**
   * `Regex::new(p.*$).replace(s, "")`: s cut at the leftmost position where
   * the pattern matches, or s itself when it matches nowhere.
   */
  function ReplaceFirstToEnd(s: string, p: seq<Class>): (r: string)
    ensures r <= s
    ensures |r| < |s| ==> MatchesToEndAt(s, p, |r|)
    ensures forall j :: 0 <= j < |r| ==> !MatchesToEndAt(s, p, j)
    ensures r == s <==> forall j :: 0 <= j < |s| ==> !MatchesToEndAt(s, p, j)
  {
    s[..FirstMatch(s, p, 0)]
  }

  /**
   * For a pattern whose classes exclude the line feed, the text left by the
   * replacement holds no match of the pattern any more.
   */
  lemma NoMatchInResult(s: string, p: seq<Class>)
    requires NoLineFeed(p)
    ensures var r := ReplaceFirstToEnd(s, p);
      forall j :: 0 <= j < |r| ==> !MatchesToEndAt(r, p, j)
  {
    var r := ReplaceFirstToEnd(s, p);
    if |r| < |s| {
      var n := |r|;
      MatchedTailHasNoLineFeed(s, p, n);
      assert r == s[..n];
      forall j | 0 <= j < n ensures !MatchesToEndAt(r, p, j) {
        if MatchesToEndAt(r, p, j) {
          MatchInPrefix(s, p, n, j);
        }
      }
    }
  }

  /** A match of `p.*$` whose classes exclude the line feed leaves no line feed after it. */
  lemma MatchedTailHasNoLineFeed(s: string, p: seq<Class>, n: int)
    requires NoLineFeed(p)
    requires MatchesToEndAt(s, p, n)
    ensures '\n' !in s[n..]
  {
    var head := s[n..n + |p|];
    assert s[n..] == head + s[n + |p|..];
    forall x | 0 <= x < |p| ensures head[x] != '\n' {
      assert head[x] == s[n + x] && s[n + x] in p[x];
    }
  }

  /** A match in a prefix of s that is followed by no line feed is a match in s. */
  lemma MatchInPrefix(s: string, p: seq<Class>, n: int, j: int)
    requires 0 <= n <= |s| && '\n' !in s[n..]
    requires MatchesToEndAt(s[..n], p, j)
    ensures MatchesToEndAt(s, p, j)
  {
  }

  /** Removing the first match twice removes nothing more than removing it once. */
  lemma ReplaceFirstIdempotent(s: string, p: seq<Class>)
    requires NoLineFeed(p)
    ensures ReplaceFirstToEnd(ReplaceFirstToEnd(s, p), p) == ReplaceFirstToEnd(s, p)
  {
    NoMatchInResult(s, p);
  }

  /**
   * On text without a line feed the pattern matches wherever its classes
   * occur, so the text is cut at the first occurrence of p.
   */
  lemma ReplaceFirstPlain(s: string, p: seq<Class>, i: int)
    requires '\n' !in s
    requires OccursAt(s, p, i)
    requires forall j :: 0 <= j < i ==> !OccursAt(s, p, j)
    ensures ReplaceFirstToEnd(s, p) == s[..i]
  {
    var r := ReplaceFirstToEnd(s, p);
    assert '\n' !in s[i + |p|..];
    assert MatchesToEndAt(s, p, i);
    assert |r| <= i;
    assert |r| < i ==> !OccursAt(s, p, |r|);
  }

  /** `Regex::new(c).replace_all(s, rep)` for a one-character class c. */
  function ReplaceAll(s: string, c: Class, rep: string): (r: string)
    ensures forall x {:trigger x in r} :: x in r ==> x in rep || (x in s && x !in c)
    ensures forall x {:trigger x in s} :: x in s && x !in c ==> x in r
    decreases |s|
  {
    if s == [] then []
    else
      assert s == [s[0]] + s[1..];
      (if s[0] in c then rep else [s[0]]) + ReplaceAll(s[1..], c, rep)
  }

  /**
   * `replace_all` works piece by piece: the text is rewritten left to right,
   * so the result for a + b is the result for a followed by that for b.
   */
  lemma {:induction false} ReplaceAllConcat(a: string, b: string, c: Class, rep: string)
    ensures ReplaceAll(a + b, c, rep) == ReplaceAll(a, c, rep) + ReplaceAll(b, c, rep)
    decreases |a|
  {
    if a != [] {
      ReplaceAllConcat(a[1..], b, c, rep);
      assert (a + b)[1..] == a[1..] + b;
    } else {
      assert a + b == b;
    }
  }

  /** A single character is replaced when it is in the class and kept otherwise. */
  lemma ReplaceAllOne(x: char, c: Class, rep: string)
    ensures ReplaceAll([x], c, rep) == if x in c then rep else [x]
  {
    assert ReplaceAll([x], c, rep) == (if x in c then rep else [x]) + ReplaceAll([], c, rep);
  }

  /**
   * `replace_all` with the empty replacement deletes the characters of the
   * class: none of them is left, and every other character keeps its count.
   */
  lemma {:induction false} ReplaceAllDeletes(s: string, c: Class)
    ensures forall x :: multiset(ReplaceAll(s, c, ""))[x] == if x in c then 0 else multiset(s)[x]
    decreases |s|
  {
    if s != [] {
      ReplaceAllDeletes(s[1..], c);
      assert s == [s[0]] + s[1..];
      assert multiset(s) == multiset{s[0]} + multiset(s[1..]);
    }
  }

  /** With a one-character replacement, each character is replaced in place. */
  lemma {:induction false} ReplaceAllAt(s: string, c: Class, x: char)
    ensures |ReplaceAll(s, c, [x])| == |s|
    ensures forall k :: 0 <= k < |s| ==>
      ReplaceAll(s, c, [x])[k] == if s[k] in c then x else s[k]
    decreases |s|
  {
    if s != [] {
      ReplaceAllAt(s[1..], c, x);
    }
  }
}
