/** The few Python string operations the request handlers rely on:
    `str.strip()`, `str.split(',')`, `str.lower()` and the substring test
    `needle in haystack`. Strings are sequences of Unicode scalar values. */
module Text {

  /** The characters Python's `str.isspace()` accepts, which are exactly the
      ones `str.strip()` with no argument removes from both ends. */
  predicate IsSpace(c: char)
  {
    || c == ' '
    || ('\t' <= c <= '\r')
    || ('\U{1C}' <= c <= '\U{1F}')
    || c == '\U{85}'
    || c == '\U{A0}'
    || c == '\U{1680}'
    || ('\U{2000}' <= c <= '\U{200A}')
    || c == '\U{2028}'
    || c == '\U{2029}'
    || c == '\U{202F}'
    || c == '\U{205F}'
    || c == '\U{3000}'
  }

  /** The characters of `s` from index `a` up to `b` are all white space. */
  predicate SpaceBetween(s: string, a: int, b: int)
    requires 0 <= a && b <= |s|
  {
    forall k :: a <= k < b ==> IsSpace(s[k])
  }

  /** Every character of `s` is white space (vacuously so for ""). */
  predicate AllSpace(s: string)
  {
    SpaceBetween(s, 0, |s|)
  }

  /** `s` has no white space at either end. */
  predicate Trimmed(s: string)
  {
    |s| > 0 ==> !IsSpace(s[0]) && !IsSpace(s[|s| - 1])
  }

  /** The end of the run of white space that starts at `i`. */
  function SpanStart(s: string, i: nat): (j: nat)
    requires i <= |s|
    ensures i <= j <= |s| && SpaceBetween(s, i, j)
    ensures j < |s| ==> !IsSpace(s[j])
    decreases |s| - i
  {
    if i < |s| && IsSpace(s[i]) then SpanStart(s, i + 1) else i
  }

  /** The start of the run of white space that ends at `j`, going no further
      back than `lo`. */
  function SpanEnd(s: string, lo: nat, j: nat): (e: nat)
    requires lo <= j <= |s|
    ensures lo <= e <= j && SpaceBetween(s, e, j)
    ensures e > lo ==> !IsSpace(s[e - 1])
    decreases j
  {
    if j > lo && IsSpace(s[j - 1]) then SpanEnd(s, lo, j - 1) else j
  }

  /** Python's `s.strip()`: the middle part of `s` that neither starts nor
      ends with white space, with nothing but white space on either side of
      it; empty exactly when `s` is all white space. */
  function Strip(s: string): (r: string)
    ensures |r| <= |s|
    ensures Trimmed(r)
    ensures r == "" <==> AllSpace(s)
    ensures exists i :: 0 <= i <= |s| - |r| && s[i..i + |r|] == r
                        && SpaceBetween(s, 0, i) && SpaceBetween(s, i + |r|, |s|)
  {
    var lo := SpanStart(s, 0);
    var hi := SpanEnd(s, lo, |s|);
    var r := s[lo..hi];
    assert |r| > 0 ==> r[0] == s[lo] && r[|r| - 1] == s[hi - 1];
    assert lo < hi ==> !IsSpace(s[lo]);
    r
  }

  /** Strip is determined by the white space around a trimmed core: whatever
      white space `core` is padded with, stripping gives back `core`. */
  lemma StripOfPadded(pre: string, core: string, post: string)
    requires AllSpace(pre) && AllSpace(post) && Trimmed(core)
    ensures Strip(pre + core + post) == core
  {
    var s := pre + core + post;
    var a, b := |pre|, |pre| + |core|;
    assert forall k :: 0 <= k < a ==> s[k] == pre[k];
    assert forall k :: b <= k < |s| ==> s[k] == post[k - b];
    assert forall k :: a <= k < b ==> s[k] == core[k - a];
    if core == "" {
      assert SpaceBetween(s, 0, |s|);
    } else {
      SpanStartAt(s, 0, a);
      SpanEndAt(s, a, |s|, b);
      assert s[a..b] == core;
    }
  }

  /** A run of white space from `i` up to a non-space at `m` ends at `m`. */
  lemma {:induction false} SpanStartAt(s: string, i: nat, m: nat)
    requires i <= m <= |s| && SpaceBetween(s, i, m)
    requires m < |s| ==> !IsSpace(s[m])
    ensures SpanStart(s, i) == m
    decreases m - i
  {
    if i < m {
      SpanStartAt(s, i + 1, m);
    }
  }

  /** A run of white space back from `j` to a non-space just before `e`
      starts at `e`. */
  lemma {:induction false} SpanEndAt(s: string, lo: nat, j: nat, e: nat)
    requires lo <= e <= j <= |s| && SpaceBetween(s, e, j)
    requires e > lo ==> !IsSpace(s[e - 1])
    ensures SpanEnd(s, lo, j) == e
    decreases j - e
  {
    if e < j {
      SpanEndAt(s, lo, j - 1, e);
    }
  }

  /** Stripping twice is the same as stripping once. */
  lemma StripIdempotent(s: string)
    ensures Strip(Strip(s)) == Strip(s)
  {
    var r := Strip(s);
    assert "" + r + "" == r;
    StripOfPadded("", r, "");
  }

  /** Stripping only removes characters. */
  lemma StripKeepsOnly(s: string)
    ensures forall c :: c in Strip(s) ==> c in s
  {
    var lo := SpanStart(s, 0);
    SliceMembers(s, lo, SpanEnd(s, lo, |s|));
  }

  lemma SliceMembers(s: string, i: nat, j: nat)
    requires i <= j <= |s|
    ensures forall c :: c in s[i..j] ==> c in s
  {
    forall c | c in s[i..j] ensures c in s {
      var k :| 0 <= k < j - i && s[i..j][k] == c;
      assert s[i + k] == c;
    }
  }

  /** Python's `s.split(sep)` for a one-character separator: the pieces between
      separators, in order, empty pieces included. There is always at least
      one piece, one more than there are separators, and joining the pieces
      with the separator gives back `s`. */
  function Split(s: string, sep: char): (parts: seq<string>)
    ensures |parts| == Count(s, sep) + 1
    ensures forall i :: 0 <= i < |parts| ==> sep !in parts[i]
    ensures Join(parts, sep) == s
  {
    if |s| == 0 then
      [""]
    else
      var rest := Split(s[1..], sep);
      if s[0] == sep then
        JoinAfterEmpty(rest, sep);
        [""] + rest
      else
        var parts := [[s[0]] + rest[0]] + rest[1..];
        JoinExtendFirst(s[0], rest, sep);
        assert forall i :: 1 <= i < |parts| ==> parts[i] == rest[i];
        parts
  }

  /** Number of occurrences of `c` in `s`. */
  function Count(s: string, c: char): nat
  {
    if |s| == 0 then 0 else (if s[0] == c then 1 else 0) + Count(s[1..], c)
  }

  /** A character that does not occur is counted zero times. */
  lemma {:induction false} CountAbsent(s: string, c: char)
    requires c !in s
    ensures Count(s, c) == 0
  {
    if |s| > 0 {
      CountAbsent(s[1..], c);
    }
  }

  /** A string without the separator splits into itself alone. */
  lemma SplitWithoutSeparator(s: string, sep: char)
    requires sep !in s
    ensures Split(s, sep) == [s]
  {
    CountAbsent(s, sep);
  }

  lemma JoinAfterEmpty(rest: seq<string>, sep: char)
    requires |rest| >= 1
    ensures Join([""] + rest, sep) == [sep] + Join(rest, sep)
  {
    assert ([""] + rest)[1..] == rest;
  }

  lemma JoinExtendFirst(c: char, rest: seq<string>, sep: char)
    requires |rest| >= 1
    ensures Join([[c] + rest[0]] + rest[1..], sep) == [c] + Join(rest, sep)
  {
    var parts := [[c] + rest[0]] + rest[1..];
    assert parts[1..] == rest[1..];
  }

  /** Python's `sep.join(parts)` for a one-character separator. */
  function Join(parts: seq<string>, sep: char): string
    requires |parts| >= 1
  {
    if |parts| == 1 then parts[0] else parts[0] + [sep] + Join(parts[1..], sep)
  }

  /** The other direction of the round trip: splitting a join of
      separator-free pieces gives back exactly those pieces. */
  lemma {:induction false} SplitJoin(parts: seq<string>, sep: char)
    requires |parts| >= 1
    requires forall i :: 0 <= i < |parts| ==> sep !in parts[i]
    ensures Split(Join(parts, sep), sep) == parts
  {
    var s := Join(parts, sep);
    var q := Split(s, sep);
    // Both `parts` and `q` are separator-free and join to `s`.
    JoinInjective(parts, q, sep);
  }

  /** Joining separator-free pieces loses nothing. */
  lemma {:induction false} JoinInjective(p: seq<string>, q: seq<string>, sep: char)
    requires |p| >= 1 && |q| >= 1
    requires forall i :: 0 <= i < |p| ==> sep !in p[i]
    requires forall i :: 0 <= i < |q| ==> sep !in q[i]
    requires Join(p, sep) == Join(q, sep)
    ensures p == q
    decreases |p|
  {
    var s := Join(p, sep);
    if |p| == 1 && |q| == 1 {
    } else if |p| == 1 {
      assert false;
    } else if |q| == 1 {
      assert false;
    } else {
      var tp := Join(p[1..], sep);
      var tq := Join(q[1..], sep);
      assert s == p[0] + [sep] + tp;
      assert s == q[0] + [sep] + tq;
      FirstPieceAgrees(p[0], tp, q[0], tq, sep);
      assert tp == s[|p[0]| + 1..];
      assert tq == s[|q[0]| + 1..];
      assert forall i :: 0 <= i < |p| - 1 ==> p[1..][i] == p[i + 1];
      assert forall i :: 0 <= i < |q| - 1 ==> q[1..][i] == q[i + 1];
      JoinInjective(p[1..], q[1..], sep);
      assert p == [p[0]] + p[1..];
      assert q == [q[0]] + q[1..];
    }
  }

  /** The text before the first separator is the same in two decompositions
      of one string. */
  lemma FirstPieceAgrees(a: string, x: string, b: string, y: string, sep: char)
    requires sep !in a && sep !in b
    requires a + [sep] + x == b + [sep] + y
    ensures a == b
  {
    var s := a + [sep] + x;
    FirstSeparatorAt(a, x, sep);
    FirstSeparatorAt(b, y, sep);
    assert |a| == |b|;
    assert a == s[..|a|];
    assert b == s[..|b|];
  }

  /** In `a + [sep] + x` with no separator in `a`, the first separator is the
      one right after `a`. */
  lemma FirstSeparatorAt(a: string, x: string, sep: char)
    requires sep !in a
    ensures (a + [sep] + x)[|a|] == sep
    ensures forall k :: 0 <= k < |a| ==> (a + [sep] + x)[k] != sep
  {
    assert forall k :: 0 <= k < |a| ==> (a + [sep] + x)[k] == a[k];
  }

  /** ASCII upper-case letters. */
  predicate IsUpper(c: char)
  {
    'A' <= c <= 'Z'
  }

  /** Lower-cases one character; only ASCII letters change. */
  function LowerChar(c: char): (d: char)
    ensures !IsUpper(d)
    ensures IsUpper(c) ==> d as int == c as int + 32
    ensures !IsUpper(c) ==> d == c
  {
    if IsUpper(c) then (c as int + 32) as char else c
  }

  /** `s.lower()` on ASCII letters: the same length, no upper-case letter
      left, every character lowered where it stands. */
  function Lower(s: string): (r: string)
    ensures |r| == |s|
    ensures forall i :: 0 <= i < |s| ==> r[i] == LowerChar(s[i])
    ensures forall i :: 0 <= i < |r| ==> !IsUpper(r[i])
  {
    if |s| == 0 then "" else [LowerChar(s[0])] + Lower(s[1..])
  }

  /** `w` occurs in `s` starting at index `i`. */
  predicate OccursAt(s: string, w: string, i: int)
  {
    0 <= i && i + |w| <= |s| && s[i..i + |w|] == w
  }

  /** Python's `w in s`: true exactly when `w` occurs somewhere in `s`. */
  function Contains(s: string, w: string): (b: bool)
    ensures b <==> exists i :: OccursAt(s, w, i)
  {
    if w <= s then
      assert OccursAt(s, w, 0);
      true
    else if |s| == 0 then
      assert forall i :: !OccursAt(s, w, i);
      false
    else
      OccursShift(s, w);
      var b := Contains(s[1..], w);
      if b then
        var i :| OccursAt(s[1..], w, i);
        assert OccursAt(s, w, i + 1);
        true
      else
        false
  }

  /** An occurrence past the first character of `s` is an occurrence in the
      rest of `s`, one index earlier, and the other way round. */
  lemma OccursShift(s: string, w: string)
    requires |s| > 0
    ensures forall i :: 0 < i ==> (OccursAt(s, w, i) <==> OccursAt(s[1..], w, i - 1))
  {
    forall i | 0 < i
      ensures OccursAt(s, w, i) <==> OccursAt(s[1..], w, i - 1)
    {
      if i + |w| <= |s| {
        var u, v := s[i..i + |w|], s[1..][i - 1..i - 1 + |w|];
        forall k | 0 <= k < |w| ensures u[k] == v[k] {
          assert u[k] == s[i + k];
          assert v[k] == s[1..][i - 1 + k];
        }
        assert u == v;
      }
    }
  }
}
