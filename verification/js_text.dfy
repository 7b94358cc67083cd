/**
 * The JavaScript string operations the feed policy relies on: `split` with a
 * non-empty separator, `toLowerCase` on Latin-1 text, the `<` order on strings
 * and the default `Array.prototype.sort` on arrays of strings.
 *
 * Strings are sequences of Unicode scalar values. The order `Below` compares
 * them code point by code point, which is JavaScript's code-unit order on
 * Latin-1 text and SQLite's binary collation on UTF-8 text.
 */
module JsText {
  import opened Wrappers

  // ---------------------------------------------------------------------------
  // Occurrences of a separator
  // ---------------------------------------------------------------------------

  /** `sep` occurs in `s` starting at index `i`. */
  predicate OccursAt(s: string, sep: string, i: int)
  {
    0 <= i && i + |sep| <= |s| && s[i..i + |sep|] == sep
  }

  /** No occurrence of `sep` starts in `s` before index `k`. */
  predicate FreeBefore(s: string, sep: string, k: int)
  {
    forall j | 0 <= j < k :: !OccursAt(s, sep, j)
  }

  /** `sep` does not occur anywhere in `s`. */
  predicate Free(s: string, sep: string)
  {
    FreeBefore(s, sep, |s| + 1)
  }

  /** The leftmost occurrence of `sep` in `s` at or after `k`. */
  function IndexOfFrom(s: string, sep: string, k: nat): (r: Option<nat>)
    requires |sep| > 0
    requires k <= |s|
    requires FreeBefore(s, sep, k)
    ensures r.Some? ==> OccursAt(s, sep, r.value) && FreeBefore(s, sep, r.value)
    ensures r.None? ==> Free(s, sep)
    decreases |s| - k
  {
    if k + |sep| > |s| then None
    else if s[k..k + |sep|] == sep then Some(k)
    else IndexOfFrom(s, sep, k + 1)
  }

  /** `s.indexOf(sep)`, with `None` for -1. */
  function IndexOf(s: string, sep: string): (r: Option<nat>)
    requires |sep| > 0
    ensures r.Some? ==> OccursAt(s, sep, r.value) && FreeBefore(s, sep, r.value)
    ensures r.None? ==> Free(s, sep)
  {
    IndexOfFrom(s, sep, 0)
  }

  /** The leftmost occurrence is unique: any occurrence with nothing before it is the one `IndexOf` finds. */
  lemma IndexOfLeftmost(s: string, sep: string, i: nat)
    requires |sep| > 0
    requires OccursAt(s, sep, i) && FreeBefore(s, sep, i)
    ensures IndexOf(s, sep) == Some(i)
  {
  }

  // ---------------------------------------------------------------------------
  // split / join
  // ---------------------------------------------------------------------------

  /**
   * `s.split(sep)` for a non-empty separator: the pieces between the
   * non-overlapping occurrences of `sep`, found left to right.
   */
  function Split(s: string, sep: string): (parts: seq<string>)
    requires |sep| > 0
    ensures |parts| >= 1
    ensures parts[0] <= s
    decreases |s|
  {
    match IndexOf(s, sep)
    case None => [s]
    case Some(i) => [s[..i]] + Split(s[i + |sep|..], sep)
  }

  /** `parts.join(sep)`. */
  function Join(parts: seq<string>, sep: string): string
    requires |parts| >= 1
  {
    if |parts| == 1 then parts[0] else parts[0] + sep + Join(parts[1..], sep)
  }

  /** Splitting and joining again with the same separator gives the text back. */
  lemma {:induction false} SplitJoin(s: string, sep: string)
    requires |sep| > 0
    ensures Join(Split(s, sep), sep) == s
    decreases |s|
  {
    match IndexOf(s, sep)
    case None =>
    case Some(i) =>
      var rest := s[i + |sep|..];
      var parts := Split(s, sep);
      assert parts == [s[..i]] + Split(rest, sep);
      assert parts[0] == s[..i] && parts[1..] == Split(rest, sep);
      SplitJoin(rest, sep);
      assert Join(parts, sep) == s[..i] + sep + rest;
      assert s[i..i + |sep|] == sep;
      ThreeSlices(s, i, i + |sep|);
  }

  lemma ThreeSlices(s: string, i: nat, j: nat)
    requires i <= j <= |s|
    ensures s == s[..i] + s[i..j] + s[j..]
  {
  }

  /** No piece of a split contains the separator. */
  lemma {:induction false} SplitPiecesFree(s: string, sep: string)
    requires |sep| > 0
    ensures forall k | 0 <= k < |Split(s, sep)| :: Free(Split(s, sep)[k], sep)
    decreases |s|
  {
    match IndexOf(s, sep)
    case None =>
    case Some(i) =>
      var rest := s[i + |sep|..];
      SplitPiecesFree(rest, sep);
      var head := s[..i];
      forall j | 0 <= j <= |head| ensures !OccursAt(head, sep, j) {
        if OccursAt(head, sep, j) {
          assert head[j..j + |sep|] == s[j..j + |sep|];
          assert OccursAt(s, sep, j);
        }
      }
      assert Split(s, sep) == [head] + Split(rest, sep);
  }

  /** A text splits into one piece exactly when the separator does not occur in it. */
  lemma SplitSingleIff(s: string, sep: string)
    requires |sep| > 0
    ensures |Split(s, sep)| == 1 <==> Free(s, sep)
  {
    match IndexOf(s, sep)
    case None =>
    case Some(i) =>
      assert OccursAt(s, sep, i);
  }

  /** Splitting at the leftmost occurrence: the first piece is what precedes it. */
  lemma SplitAtFirst(s: string, sep: string, i: nat)
    requires |sep| > 0
    requires OccursAt(s, sep, i) && FreeBefore(s, sep, i)
    ensures Split(s, sep) == [s[..i]] + Split(s[i + |sep|..], sep)
  {
    IndexOfLeftmost(s, sep, i);
  }

  /** A one-character separator occurs exactly where that character does. */
  lemma FreeOfChar(s: string, c: char)
    ensures Free(s, [c]) <==> c !in s
  {
    if c in s {
      var i :| 0 <= i < |s| && s[i] == c;
      assert OccursAt(s, [c], i);
    } else {
      forall j | 0 <= j < |s| + 1 ensures !OccursAt(s, [c], j) {
        if j < |s| {
          assert s[j..j + 1] == [s[j]];
        }
      }
    }
  }

  /** A one-character separator does not occur before `k` when that character does not. */
  lemma FreeBeforeChar(s: string, c: char, k: nat)
    requires k <= |s| && c !in s[..k]
    ensures FreeBefore(s, [c], k)
  {
    forall j | 0 <= j < k ensures !OccursAt(s, [c], j) {
      assert s[j] == s[..k][j];
      assert s[j..j + 1] == [s[j]];
    }
  }

  /** A separator whose first character is absent from `s` does not occur in `s`. */
  lemma FreeWhenFirstCharAbsent(s: string, sep: string)
    requires |sep| > 0 && sep[0] !in s
    ensures Free(s, sep)
  {
    forall j | 0 <= j < |s| + 1 ensures !OccursAt(s, sep, j) {
      if j + |sep| <= |s| {
        assert s[j..j + |sep|][0] == s[j];
      }
    }
  }

  /** Splitting words joined by a character none of them contains gives the words back. */
  lemma {:induction false} SplitJoinedWords(words: seq<string>, c: char)
    requires |words| >= 1
    requires forall k | 0 <= k < |words| :: c !in words[k]
    ensures Split(Join(words, [c]), [c]) == words
  {
    if |words| == 1 {
      FreeOfChar(words[0], c);
    } else {
      var rest := Join(words[1..], [c]);
      var s := Join(words, [c]);
      var n := |words[0]|;
      assert s == words[0] + [c] + rest;
      assert s[..n] == words[0];
      FreeBeforeChar(s, c, n);
      assert s[n..n + 1] == [c];
      SplitAtFirst(s, [c], n);
      assert s[n + 1..] == rest;
      SplitJoinedWords(words[1..], c);
      assert words == [words[0]] + words[1..];
    }
  }

  // ---------------------------------------------------------------------------
  // Latin-1 text and lower-casing
  // ---------------------------------------------------------------------------

  /** Every character of `s` is at most `bound`. */
  predicate AllAtMost(s: string, bound: int)
  {
    forall i | 0 <= i < |s| :: s[i] as int <= bound
  }

  /**
   * `toLowerCase` on one Latin-1 character: the upper-case letters A-Z and
   * U+00C0-U+00DE except the multiplication sign U+00D7 move up by 0x20;
   * every other Latin-1 character is already lower-case or uncased.
   */
  function LowerChar(c: char): (r: char)
    requires c as int <= 0xFF
    ensures r as int <= 0xFF
    ensures r == ' ' <==> c == ' '
  {
    if 'A' <= c <= 'Z' || ('\U{C0}' <= c <= '\U{DE}' && c != '\U{D7}') then
      (c as int + 0x20) as char
    else
      c
  }

  /**
   * `toLowerCase` on Latin-1 text: character by character, length-preserving,
   * staying within Latin-1 and leaving no letter A-Z behind.
   */
  function Lower(s: string): (r: string)
    requires AllAtMost(s, 0xFF)
    ensures |r| == |s|
    ensures forall i | 0 <= i < |s| :: r[i] == LowerChar(s[i])
    ensures AllAtMost(r, 0xFF)
    ensures forall i | 0 <= i < |r| :: !('A' <= r[i] <= 'Z')
  {
    seq(|s|, i requires 0 <= i < |s| => LowerChar(s[i]))
  }

  /** Lower-casing lower-cased text changes nothing. */
  lemma LowerIdempotent(s: string)
    requires AllAtMost(s, 0xFF)
    ensures Lower(Lower(s)) == Lower(s)
  {
    var r := Lower(s);
    forall i | 0 <= i < |r| ensures LowerChar(r[i]) == r[i] {
      assert r[i] == LowerChar(s[i]);
    }
  }

  /** Lower-casing neither creates nor removes spaces. */
  lemma LowerKeepsSpaces(s: string)
    requires AllAtMost(s, 0xFF)
    ensures ' ' in Lower(s) <==> ' ' in s
  {
    var r := Lower(s);
    if ' ' in s {
      var i :| 0 <= i < |s| && s[i] == ' ';
      assert r[i] == ' ';
    }
    if ' ' in r {
      var i :| 0 <= i < |r| && r[i] == ' ';
      assert LowerChar(s[i]) == ' ';
    }
  }

  // ---------------------------------------------------------------------------
  // The order on strings
  // ---------------------------------------------------------------------------

  /** `a < b`: lexicographic by character, a proper prefix before its extensions. */
  predicate Below(a: string, b: string)
    ensures a < b ==> Below(a, b)
    decreases |a|
  {
    |b| > 0 && (|a| == 0 || a[0] < b[0] || (a[0] == b[0] && Below(a[1..], b[1..])))
  }

  /** `a <= b`. */
  predicate Le(a: string, b: string)
  {
    !Below(b, a)
  }

  lemma {:induction false} BelowIrreflexive(a: string)
    ensures !Below(a, a)
    decreases |a|
  {
    if |a| > 0 {
      BelowIrreflexive(a[1..]);
    }
  }

  lemma {:induction false} BelowTransitive(a: string, b: string, c: string)
    requires Below(a, b) && Below(b, c)
    ensures Below(a, c)
    decreases |a|
  {
    if |a| > 0 && a[0] == b[0] && b[0] == c[0] {
      BelowTransitive(a[1..], b[1..], c[1..]);
    }
  }

  lemma {:induction false} BelowTrichotomy(a: string, b: string)
    ensures a == b || Below(a, b) || Below(b, a)
    decreases |a|
  {
    if |a| > 0 && |b| > 0 && a[0] == b[0] {
      BelowTrichotomy(a[1..], b[1..]);
      if a[1..] == b[1..] {
        assert a == [a[0]] + a[1..] && b == [b[0]] + b[1..];
      }
    }
  }

  lemma BelowAsymmetric(a: string, b: string)
    requires Below(a, b)
    ensures !Below(b, a)
  {
    if Below(b, a) {
      BelowTransitive(a, b, a);
      BelowIrreflexive(a);
    }
  }

  lemma LeTransitive(a: string, b: string, c: string)
    requires Le(a, b) && Le(b, c)
    ensures Le(a, c)
  {
    BelowTrichotomy(a, b);
    if Below(c, a) && Below(a, b) {
      BelowTransitive(c, a, b);
    }
  }

  lemma LeTotal(a: string, b: string)
    ensures Le(a, b) || Le(b, a)
  {
    BelowTrichotomy(a, b);
    if Below(a, b) {
      BelowAsymmetric(a, b);
    }
  }

  lemma LeAntisymmetric(a: string, b: string)
    requires Le(a, b) && Le(b, a)
    ensures a == b
  {
    BelowTrichotomy(a, b);
  }

  // ---------------------------------------------------------------------------
  // Array.prototype.sort on strings
  // ---------------------------------------------------------------------------

  /** Non-decreasing under `Le`. */
  predicate Sorted(xs: seq<string>)
  {
    forall i, j | 0 <= i < j < |xs| :: Le(xs[i], xs[j])
  }

  /** Inserts `x` in front of the first element not below it. */
  function Insert(x: string, ys: seq<string>): (r: seq<string>)
    ensures multiset(r) == multiset(ys) + multiset{x}
    ensures Sorted(ys) ==> Sorted(r)
  {
    if |ys| == 0 then
      [x]
    else if Le(x, ys[0]) then
      InsertFrontSorted(x, ys);
      [x] + ys
    else
      var tail := Insert(x, ys[1..]);
      InsertAfterHeadSorted(x, ys, tail);
      assert ys == [ys[0]] + ys[1..];
      [ys[0]] + tail
  }

  lemma InsertFrontSorted(x: string, ys: seq<string>)
    requires |ys| > 0 && Le(x, ys[0])
    ensures Sorted(ys) ==> Sorted([x] + ys)
  {
    if Sorted(ys) {
      var r := [x] + ys;
      forall i, j | 0 <= i < j < |r| ensures Le(r[i], r[j]) {
        if i == 0 && j > 1 {
          LeTransitive(x, ys[0], ys[j - 1]);
        }
      }
    }
  }

  lemma InsertAfterHeadSorted(x: string, ys: seq<string>, tail: seq<string>)
    requires |ys| > 0 && !Le(x, ys[0])
    requires multiset(tail) == multiset(ys[1..]) + multiset{x}
    requires Sorted(ys[1..]) ==> Sorted(tail)
    ensures Sorted(ys) ==> Sorted([ys[0]] + tail)
  {
    if Sorted(ys) {
      assert Sorted(ys[1..]);
      var r := [ys[0]] + tail;
      LeTotal(x, ys[0]);
      forall i, j | 0 <= i < j < |r| ensures Le(r[i], r[j]) {
        if i == 0 {
          var e := tail[j - 1];
          assert e in multiset(tail);
          if e != x {
            assert e in multiset(ys[1..]);
            var k :| 0 <= k < |ys[1..]| && ys[1..][k] == e;
            assert ys[k + 1] == e;
          }
        }
      }
    }
  }

  /**
   * The default `sort()` on an array of strings: a sorted permutation.
   * Insertion sort stands for the engine's algorithm; under a total order in
   * which only identical strings are equal the sorted permutation is unique.
   */
  function Sort(xs: seq<string>): (r: seq<string>)
    ensures multiset(r) == multiset(xs)
    ensures |r| == |xs|
    ensures Sorted(r)
  {
    if |xs| == 0 then []
    else
      assert xs == [xs[0]] + xs[1..];
      Insert(xs[0], Sort(xs[1..]))
  }

  /**
   * Under this order a list has only one sorted arrangement: two sorted lists
   * with the same elements are equal, so any correct `sort()` returns `Sort`.
   */
  lemma {:induction false} SortedPermutationUnique(a: seq<string>, b: seq<string>)
    requires Sorted(a) && Sorted(b) && multiset(a) == multiset(b)
    ensures a == b
    decreases |a|
  {
    assert |a| == |multiset(a)| == |multiset(b)| == |b|;
    if |a| > 0 {
      SortedHeadIsLeast(a, b[0]);
      SortedHeadIsLeast(b, a[0]);
      LeAntisymmetric(a[0], b[0]);
      SortedTail(a);
      SortedTail(b);
      SortedPermutationUnique(a[1..], b[1..]);
      SameHeadSameTail(a, b);
    }
  }

  /** Dropping the head keeps a list sorted and removes one copy of the head. */
  lemma SortedTail(a: seq<string>)
    requires Sorted(a) && |a| > 0
    ensures Sorted(a[1..])
    ensures multiset(a[1..]) == multiset(a) - multiset{a[0]}
  {
    assert a == [a[0]] + a[1..];
  }

  lemma SameHeadSameTail<T>(a: seq<T>, b: seq<T>)
    requires |a| > 0 && |b| > 0 && a[0] == b[0] && a[1..] == b[1..]
    ensures a == b
  {
    assert a == [a[0]] + a[1..] && b == [b[0]] + b[1..];
  }

  /** The head of a sorted list is at most each of its elements. */
  lemma SortedHeadIsLeast(a: seq<string>, x: string)
    requires Sorted(a) && x in multiset(a)
    ensures |a| > 0 && Le(a[0], x)
  {
    var m :| 0 <= m < |a| && a[m] == x;
    if m == 0 {
      BelowIrreflexive(x);
    }
  }

  /** An array equals its own sorted copy exactly when it is already non-decreasing. */
  lemma {:induction false} SortFixpointIff(xs: seq<string>)
    ensures Sort(xs) == xs <==> Sorted(xs)
  {
    if Sorted(xs) {
      SortedIsFixpoint(xs);
    }
  }

  lemma {:induction false} SortedIsFixpoint(xs: seq<string>)
    requires Sorted(xs)
    ensures Sort(xs) == xs
  {
    if |xs| > 0 {
      var tail := xs[1..];
      assert Sorted(tail);
      SortedIsFixpoint(tail);
      if |tail| > 0 {
        assert Le(xs[0], tail[0]);
      }
      assert [xs[0]] + tail == xs;
    }
  }
}
