/**
 * The pieces of Python's `str` that update.py relies on, with Python's meaning:
 * `s.split(sep)` for a non-empty separator, `sep.join(items)`, `s.splitlines()`
 * restricted to the line feed, `s.strip(c)` for one character, and the
 * code-point lexicographic order that `list.sort()` uses on strings.
 */
module Text {

  /** `sep` occurs in `s` starting at index `i`. */
  predicate MatchAt(s: string, sep: string, i: int)
  {
    0 <= i && i + |sep| <= |s| && s[i..i + |sep|] == sep
  }

  /** Python's `sub in s`. */
  predicate Contains(s: string, sub: string)
  {
    exists i :: 0 <= i <= |s| - |sub| && MatchAt(s, sub, i)
  }

  /**
   * Python's `s.split(sep)`: cuts `s` at every leftmost, non-overlapping
   * occurrence of `sep`; there is always at least one field.
   */
  function Split(s: string, sep: string): (fields: seq<string>)
    requires sep != []
    ensures |fields| >= 1
    decreases |s|
  {
    if |s| < |sep| then [s]
    else if s[..|sep|] == sep then [""] + Split(s[|sep|..], sep)
    else
      var rest := Split(s[1..], sep);
      [[s[0]] + rest[0]] + rest[1..]
  }

  /** Python's `sep.join(items)`. */
  function Join(items: seq<string>, sep: string): string
  {
    if |items| == 0 then ""
    else if |items| == 1 then items[0]
    else items[0] + sep + Join(items[1..], sep)
  }

  /**
   * Python's `s.splitlines()` for text whose only line break is "\n": a final
   * line feed does not open another line, and the empty text has no lines.
   */
  function SplitLines(s: string): seq<string>
  {
    if s == [] then []
    else if s[|s| - 1] == '\n' then Split(s[..|s| - 1], "\n")
    else Split(s, "\n")
  }

  function StripLeft(s: string, c: char): string
  {
    if s != [] && s[0] == c then StripLeft(s[1..], c) else s
  }

  function StripRight(s: string, c: char): string
  {
    if s != [] && s[|s| - 1] == c then StripRight(s[..|s| - 1], c) else s
  }

  /** Python's `s.strip(c)` for a single character `c`. */
  function Strip(s: string, c: char): string
  {
    StripRight(StripLeft(s, c), c)
  }

  /** Python's `a <= b` on str: code-point lexicographic order. */
  predicate LexLe(a: string, b: string)
    decreases |a|
  {
    a == [] || (b != [] && (a[0] < b[0] || (a[0] == b[0] && LexLe(a[1..], b[1..]))))
  }

  predicate Sorted(s: seq<string>)
  {
    forall i, j :: 0 <= i < j < |s| ==> LexLe(s[i], s[j])
  }

  /** Inserts `x` into the sorted `s` after every element not greater than it. */
  function Insert(x: string, s: seq<string>): (r: seq<string>)
    requires Sorted(s)
    ensures multiset(r) == multiset(s) + multiset{x}
    ensures Sorted(r)
  {
    if s == [] then [x]
    else if LexLe(x, s[0]) then
      InsertFront(x, s);
      [x] + s
    else
      var rest := Insert(x, s[1..]);
      InsertBehind(x, s, rest);
      [s[0]] + rest
  }

  lemma InsertFront(x: string, s: seq<string>)
    requires Sorted(s) && s != [] && LexLe(x, s[0])
    ensures Sorted([x] + s)
  {
    forall j | 0 < j < |s| ensures LexLe(x, s[j]) {
      LexLeTransitive(x, s[0], s[j]);
    }
  }

  lemma InsertBehind(x: string, s: seq<string>, rest: seq<string>)
    requires Sorted(s) && s != [] && !LexLe(x, s[0])
    requires Sorted(rest) && multiset(rest) == multiset(s[1..]) + multiset{x}
    ensures Sorted([s[0]] + rest)
    ensures multiset([s[0]] + rest) == multiset(s) + multiset{x}
  {
    assert s == [s[0]] + s[1..];
    LexLeTotal(x, s[0]);
    forall k | 0 <= k < |rest| ensures LexLe(s[0], rest[k]) {
      var y := rest[k];
      assert y in multiset(rest);
      if y != x {
        assert y in multiset(s[1..]);
        var j :| 0 <= j < |s[1..]| && s[1..][j] == y;
        assert s[j + 1] == y;
      }
    }
  }

  /** The list `list.sort()` leaves: a sorted permutation of `xs`. */
  function Sort(xs: seq<string>): (r: seq<string>)
    ensures multiset(r) == multiset(xs)
    ensures Sorted(r)
  {
    if xs == [] then []
    else
      assert xs == [xs[0]] + xs[1..];
      Insert(xs[0], Sort(xs[1..]))
  }

  // ---------------------------------------------------------------- order

  lemma LexLeReflexive(a: string)
    ensures LexLe(a, a)
  {
  }

  lemma {:induction false} LexLeTotal(a: string, b: string)
    ensures LexLe(a, b) || LexLe(b, a)
    decreases |a|
  {
    if a != [] && b != [] && a[0] == b[0] {
      LexLeTotal(a[1..], b[1..]);
    }
  }

  lemma {:induction false} LexLeTransitive(a: string, b: string, c: string)
    requires LexLe(a, b) && LexLe(b, c)
    ensures LexLe(a, c)
    decreases |a|
  {
    if a != [] && a[0] == b[0] && b[0] == c[0] {
      LexLeTransitive(a[1..], b[1..], c[1..]);
    }
  }

  lemma {:induction false} LexLeAntisymmetric(a: string, b: string)
    requires LexLe(a, b) && LexLe(b, a)
    ensures a == b
    decreases |a|
  {
    if a != [] {
      LexLeAntisymmetric(a[1..], b[1..]);
      assert a == [a[0]] + a[1..] && b == [b[0]] + b[1..];
    }
  }

  /** Only the empty string is below the empty string. */
  lemma LexLeNonEmpty(a: string, b: string)
    requires LexLe(a, b) && a != ""
    ensures b != ""
  {
  }

  /** Two sorted lists with the same elements are equal: sorting is deterministic. */
  lemma {:induction false} SortedUnique(a: seq<string>, b: seq<string>)
    requires Sorted(a) && Sorted(b) && multiset(a) == multiset(b)
    ensures a == b
    decreases |a|
  {
    if a != [] {
      SortedHeads(a, b);
      MultisetTail(a);
      MultisetTail(b);
      assert Sorted(a[1..]) && Sorted(b[1..]);
      SortedUnique(a[1..], b[1..]);
      assert a == [a[0]] + a[1..] && b == [b[0]] + b[1..];
    }
  }

  lemma SortedHeads(a: seq<string>, b: seq<string>)
    requires Sorted(a) && Sorted(b) && multiset(a) == multiset(b) && a != []
    ensures b != [] && a[0] == b[0]
  {
    assert a[0] in multiset(b) by {
      assert a[0] in a;
    }
    var i :| 0 <= i < |b| && b[i] == a[0];
    assert b[0] in multiset(a) by {
      assert b[0] in b;
    }
    var j :| 0 <= j < |a| && a[j] == b[0];
    if j == 0 { LexLeReflexive(a[0]); }
    if i == 0 { LexLeReflexive(b[0]); }
    assert LexLe(a[0], a[j]) && LexLe(b[0], b[i]);
    LexLeAntisymmetric(a[0], b[0]);
  }

  lemma MultisetTail(a: seq<string>)
    requires a != []
    ensures multiset(a[1..]) == multiset(a) - multiset{a[0]}
  {
    assert a == [a[0]] + a[1..];
  }

  // ---------------------------------------------------------------- split and join

  /** Splitting and joining back with the same separator gives the text back. */
  lemma {:induction false} JoinSplit(s: string, sep: string)
    requires sep != []
    ensures Join(Split(s, sep), sep) == s
    decreases |s|
  {
    if |s| < |sep| {
    } else if s[..|sep|] == sep {
      var tail := s[|sep|..];
      var rest := Split(tail, sep);
      JoinSplit(tail, sep);
      assert Split(s, sep) == [""] + rest;
      JoinCons("", rest, sep);
      assert s == sep + tail;
    } else {
      var rest := Split(s[1..], sep);
      JoinSplit(s[1..], sep);
      var first := [s[0]] + rest[0];
      assert Split(s, sep) == [first] + rest[1..];
      assert s == [s[0]] + s[1..];
      if |rest| == 1 {
        assert [first] + rest[1..] == [first];
      } else {
        JoinCons(first, rest[1..], sep);
        JoinCons(rest[0], rest[1..], sep);
        assert [rest[0]] + rest[1..] == rest;
      }
    }
  }

  lemma JoinCons(x: string, items: seq<string>, sep: string)
    requires items != []
    ensures Join([x] + items, sep) == x + sep + Join(items, sep)
  {
    assert ([x] + items)[1..] == items;
  }

  /** A text in which `sep` never occurs is a single field. */
  lemma {:induction false} SplitWithout(s: string, sep: string)
    requires sep != []
    requires forall i :: !MatchAt(s, sep, i)
    ensures Split(s, sep) == [s]
    decreases |s|
  {
    if |s| >= |sep| {
      assert !MatchAt(s, sep, 0);
      forall i ensures !MatchAt(s[1..], sep, i) {
        if MatchAt(s[1..], sep, i) {
          assert s[1..][i..i + |sep|] == s[i + 1..i + 1 + |sep|];
          assert MatchAt(s, sep, i + 1);
        }
      }
      SplitWithout(s[1..], sep);
      assert s == [s[0]] + s[1..];
    }
  }

  /** A text splits into one field exactly when `sep` does not occur in it. */
  lemma {:induction false} SplitSingleIff(s: string, sep: string)
    requires sep != []
    ensures |Split(s, sep)| == 1 <==> !Contains(s, sep)
    decreases |s|
  {
    if !Contains(s, sep) {
      assert forall i :: !MatchAt(s, sep, i);
      SplitWithout(s, sep);
    } else if |s| >= |sep| && s[..|sep|] != sep {
      var i :| 0 <= i <= |s| - |sep| && MatchAt(s, sep, i);
      assert i > 0;
      assert s[1..][i - 1..i - 1 + |sep|] == s[i..i + |sep|];
      assert MatchAt(s[1..], sep, i - 1);
      SplitSingleIff(s[1..], sep);
    }
  }

  /**
   * When the first occurrence of `sep` in `s` follows the prefix `a`, the first
   * field is `a` and the rest is split on its own.
   */
  lemma {:induction false} SplitAt(a: string, sep: string, b: string)
    requires sep != []
    requires forall i :: 0 <= i < |a| ==> !MatchAt(a + sep + b, sep, i)
    ensures Split(a + sep + b, sep) == [a] + Split(b, sep)
    decreases |a|
  {
    var s := a + sep + b;
    if a == [] {
      assert s[..|sep|] == sep && s[|sep|..] == b;
    } else {
      assert !MatchAt(s, sep, 0);
      assert s[1..] == a[1..] + sep + b;
      forall i | 0 <= i < |a[1..]| ensures !MatchAt(a[1..] + sep + b, sep, i) {
        if MatchAt(s[1..], sep, i) {
          assert s[1..][i..i + |sep|] == s[i + 1..i + 1 + |sep|];
          assert MatchAt(s, sep, i + 1);
        }
      }
      SplitAt(a[1..], sep, b);
      assert [s[0]] + a[1..] == a;
    }
  }

  /** For a one-character separator, an occurrence is that character. */
  lemma MatchAtChar(s: string, c: char, i: int)
    ensures MatchAt(s, [c], i) <==> 0 <= i < |s| && s[i] == c
  {
    if 0 <= i < |s| {
      assert s[i..i + 1] == [s[i]];
    }
  }

  lemma SplitAtChar(a: string, c: char, b: string)
    requires c !in a
    ensures Split(a + [c] + b, [c]) == [a] + Split(b, [c])
  {
    forall i | 0 <= i < |a| ensures !MatchAt(a + [c] + b, [c], i) {
      MatchAtChar(a + [c] + b, c, i);
      assert (a + [c] + b)[i] == a[i];
    }
    SplitAt(a, [c], b);
  }

  lemma SplitWithoutChar(s: string, c: char)
    requires c !in s
    ensures Split(s, [c]) == [s]
  {
    forall i ensures !MatchAt(s, [c], i) {
      MatchAtChar(s, c, i);
    }
    SplitWithout(s, [c]);
  }

  /** No field of a split on a character contains that character. */
  lemma {:induction false} SplitFieldsWithout(s: string, c: char)
    ensures forall f :: f in Split(s, [c]) ==> c !in f
    decreases |s|
  {
    if |s| >= 1 {
      SplitFieldsWithout(s[1..], c);
      if s[..1] != [c] {
        assert s[0] != c by {
          assert s[..1] == [s[0]];
        }
      }
    }
  }

  /** Every character of every field of a split is a character of the text. */
  lemma {:induction false} SplitFieldsFrom(s: string, sep: string)
    requires sep != []
    ensures forall f, ch :: f in Split(s, sep) && ch in f ==> ch in s
    decreases |s|
  {
    if |s| >= |sep| {
      if s[..|sep|] == sep {
        SplitFieldsFrom(s[|sep|..], sep);
        forall ch | ch in s[|sep|..] ensures ch in s {
          var k :| 0 <= k < |s[|sep|..]| && s[|sep|..][k] == ch;
          assert s[k + |sep|] == ch;
        }
      } else {
        SplitFieldsFrom(s[1..], sep);
        forall ch | ch in s[1..] ensures ch in s {
          var k :| 0 <= k < |s[1..]| && s[1..][k] == ch;
          assert s[k + 1] == ch;
        }
      }
    }
  }

  /** A split on a character has one more field than there are occurrences. */
  lemma {:induction false} SplitCount(s: string, c: char)
    ensures |Split(s, [c])| == multiset(s)[c] + 1
    decreases |s|
  {
    if |s| >= 1 {
      SplitCount(s[1..], c);
      assert s == [s[0]] + s[1..];
      assert s[..1] == [s[0]];
    }
  }

  /**
   * The first field of a split on `c` is the text before the first `c`, or the
   * whole text when `c` does not occur.
   */
  lemma {:induction false} FirstField(s: string, c: char)
    ensures var f := Split(s, [c])[0];
      f <= s && c !in f && (|f| == |s| || s[|f|] == c)
    decreases |s|
  {
    if |s| >= 1 && s[..1] != [c] {
      assert s[..1] == [s[0]];
      FirstField(s[1..], c);
      assert s == [s[0]] + s[1..];
    }
  }

  /** Splitting a join of `c`-free items on `c` gives the items back. */
  lemma {:induction false} SplitJoin(items: seq<string>, c: char)
    requires |items| >= 1
    requires forall x :: x in items ==> c !in x
    ensures Split(Join(items, [c]), [c]) == items
    decreases |items|
  {
    if |items| == 1 {
      SplitWithoutChar(items[0], c);
    } else {
      SplitJoin(items[1..], c);
      SplitAtChar(items[0], c, Join(items[1..], [c]));
      assert items == [items[0]] + items[1..];
    }
  }

  /** A join ends with the last character of its last item when that is not empty. */
  lemma {:induction false} JoinLast(items: seq<string>, sep: string)
    requires |items| >= 1 && items[|items| - 1] != ""
    ensures var j := Join(items, sep); var l := items[|items| - 1];
      j != "" && j[|j| - 1] == l[|l| - 1]
    decreases |items|
  {
    if |items| > 1 {
      JoinLast(items[1..], sep);
    }
  }

  /**
   * Writing items one per line and reading the lines back gives the items,
   * provided no item holds a line feed and the last one is not empty.
   */
  lemma LinesJoin(items: seq<string>)
    requires forall x :: x in items ==> '\n' !in x
    requires items == [] || items[|items| - 1] != ""
    ensures SplitLines(Join(items, "\n")) == items
  {
    if items != [] {
      var j := Join(items, "\n");
      var l := items[|items| - 1];
      JoinLast(items, "\n");
      assert l in items && l[|l| - 1] in l;
      assert j[|j| - 1] != '\n';
      assert SplitLines(j) == Split(j, ['\n']);
      SplitJoin(items, '\n');
    }
  }

  /** No line read by `SplitLines` contains a line feed. */
  lemma SplitLinesWithout(s: string)
    ensures forall line :: line in SplitLines(s) ==> '\n' !in line
  {
    if s != [] {
      if s[|s| - 1] == '\n' {
        SplitFieldsWithout(s[..|s| - 1], '\n');
      } else {
        SplitFieldsWithout(s, '\n');
      }
    }
  }

  // ---------------------------------------------------------------- strip

  lemma {:induction false} StripLeftFacts(s: string, c: char)
    ensures var r := StripLeft(s, c);
      (r == [] || r[0] != c) && (forall ch :: ch in r ==> ch in s) && (c !in s ==> r == s)
    decreases |s|
  {
    if s != [] && s[0] == c {
      StripLeftFacts(s[1..], c);
    }
  }

  lemma {:induction false} StripRightFacts(s: string, c: char)
    ensures var r := StripRight(s, c);
      (r == [] || r[|r| - 1] != c) && (forall ch :: ch in r ==> ch in s) && (c !in s ==> r == s)
    decreases |s|
  {
    if s != [] && s[|s| - 1] == c {
      StripRightFacts(s[..|s| - 1], c);
    }
  }

  /**
   * `s.strip(c)` neither starts nor ends with `c`, keeps only characters of `s`,
   * and leaves a text without `c` unchanged.
   */
  lemma StripFacts(s: string, c: char)
    ensures var r := Strip(s, c);
      (r == [] || (r[0] != c && r[|r| - 1] != c))
      && (forall ch :: ch in r ==> ch in s)
      && (c !in s ==> r == s)
  {
    var l := StripLeft(s, c);
    StripLeftFacts(s, c);
    StripRightFacts(l, c);
    var r := StripRight(l, c);
    if r != [] {
      StripRightPrefix(l, c);
      assert r[0] == l[0];
    }
  }

  lemma {:induction false} StripRightPrefix(s: string, c: char)
    ensures StripRight(s, c) <= s
    decreases |s|
  {
    if s != [] && s[|s| - 1] == c {
      StripRightPrefix(s[..|s| - 1], c);
    }
  }
}
