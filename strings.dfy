/** The JavaScript string operations the core relies on, written out over
    `seq<char>`: the `\s` class and `trim`, `indexOf`/`includes`,
    `startsWith`/`endsWith`, `replace` with a literal first argument,
    `split`/`join` on one character, `substring(0, n)` and `toLowerCase`
    on ASCII letters. */
module Strings {
  import opened Wrappers

  /** The characters JavaScript's `\s` and `String.prototype.trim` treat as
      white space: the ECMAScript WhiteSpace and LineTerminator code points
      (tab, line feed, vertical tab, form feed, carriage return, space,
      no-break space, the Unicode space separators, the line and paragraph
      separators and the byte order mark). */
  predicate IsSpace(c: char) {
    || ('\t' <= c <= '\r')
    || c == ' '
    || c == '\U{00A0}'
    || c == '\U{1680}'
    || ('\U{2000}' <= c <= '\U{200A}')
    || c == '\U{2028}'
    || c == '\U{2029}'
    || c == '\U{202F}'
    || c == '\U{205F}'
    || c == '\U{3000}'
    || c == '\U{FEFF}'
  }

  predicate AllSpace(s: string) {
    forall k :: 0 <= k < |s| ==> IsSpace(s[k])
  }

  predicate NoSpace(s: string) {
    forall k :: 0 <= k < |s| ==> !IsSpace(s[k])
  }

  /** The end of the run of white space that starts at `i` (a greedy `\s*`). */
  function SkipSpaces(s: string, i: nat): (j: nat)
    requires i <= |s|
    ensures i <= j <= |s|
    ensures AllSpace(s[i..j])
    ensures j < |s| ==> !IsSpace(s[j])
    decreases |s| - i
  {
    if i < |s| && IsSpace(s[i]) then SkipSpaces(s, i + 1) else i
  }

  /** `pat` occurs in `s` at position `i`. */
  predicate StartsAt(s: string, i: nat, pat: string) {
    i + |pat| <= |s| && s[i..i + |pat|] == pat
  }

  /** `s.startsWith(pat)`. */
  predicate StartsWith(s: string, pat: string) {
    |pat| <= |s| && s[..|pat|] == pat
  }

  predicate EndsWith(s: string, suffix: string) {
    |suffix| <= |s| && s[|s| - |suffix|..] == suffix
  }

  lemma SkipSpacesExact(s: string, i: nat, j: nat)
    requires i <= j <= |s|
    requires AllSpace(s[i..j])
    requires j < |s| ==> !IsSpace(s[j])
    ensures SkipSpaces(s, i) == j
    decreases j - i
  {
  }

  /** White space followed by a character that is not is read whole by a
      greedy `\s*`. */
  lemma SpacesFollowed(ws: string, u: string)
    requires AllSpace(ws) && u != [] && !IsSpace(u[0])
    ensures SkipSpaces(ws + u, 0) == |ws|
  {
    var s := ws + u;
    assert s[..|ws|] == ws;
    assert s[|ws|] == u[0];
    SkipSpacesExact(s, 0, |ws|);
  }

  /** An occurrence at `i` is a prefix of the text from `i` on. */
  lemma StartsAtSuffix(s: string, i: nat, pat: string)
    requires i <= |s|
    ensures StartsAt(s, i, pat) <==> StartsWith(s[i..], pat)
  {
    if i + |pat| <= |s| {
      assert s[i..][..|pat|] == s[i..i + |pat|];
    }
  }

  /** An occurrence that lies inside the first part of a concatenation is
      one in that part. */
  lemma StartsAtPrefix(x: string, y: string, k: nat, w: string)
    requires k + |w| <= |x|
    ensures StartsAt(x + y, k, w) <==> StartsAt(x, k, w)
  {
    assert (x + y)[k..k + |w|] == x[k..k + |w|];
  }

  /** A prefix followed by a prefix of the rest is a prefix. */
  lemma PrefixConcat(s: string, x: string, y: string)
    requires StartsWith(s, x) && StartsWith(s[|x|..], y)
    ensures StartsWith(s, x + y)
  {
    assert s[..|x| + |y|] == s[..|x|] + s[|x|..][..|y|];
  }

  /** A text starts with any text followed by something. */
  lemma PrefixOfConcat(x: string, y: string)
    ensures StartsWith(x + y, x) && (x + y)[|x|..] == y
  {
    assert (x + y)[..|x|] == x;
  }

  lemma HeadOfConcat(x: string, y: string, z: string)
    ensures ((x + y) + z)[..|x|] == x
  {
    assert ((x + y) + z)[..|x|] == (x + y)[..|x|];
  }

  lemma Associative(x: string, y: string, z: string)
    ensures (x + y) + z == x + (y + z)
  {
  }

  /** The characters of an occurrence of `w` at `p`. */
  lemma SliceChars(s: string, p: nat, w: string)
    requires StartsAt(s, p, w)
    ensures forall k :: p <= k < p + |w| ==> s[k] == w[k - p]
  {
    assert forall k :: p <= k < p + |w| ==> s[k] == s[p..p + |w|][k - p];
  }

  /** A piece of an occurrence of `w` at `p` is the same piece of `w`. */
  lemma SliceSub(s: string, p: nat, w: string, i: nat, j: nat)
    requires StartsAt(s, p, w) && i <= j <= |w|
    ensures s[p + i..p + j] == w[i..j]
  {
    SliceChars(s, p, w);
    assert forall k :: 0 <= k < j - i ==> s[p + i..p + j][k] == w[i..j][k];
  }

  /** `pat` occurs inside an occurrence of `w` exactly where it occurs in `w`. */
  lemma StartsAtInside(s: string, p: nat, w: string, k: nat, pat: string)
    requires StartsAt(s, p, w) && k + |pat| <= |w|
    ensures StartsAt(w, k, pat) <==> StartsAt(s, p + k, pat)
  {
    SliceSub(s, p, w, k, k + |pat|);
  }

  /** Two adjacent occurrences make one of the concatenation. */
  lemma StartsAtConcat(s: string, p: nat, x: string, y: string)
    requires StartsAt(s, p, x) && StartsAt(s, p + |x|, y)
    ensures StartsAt(s, p, x + y)
  {
    assert s[p..p + |x| + |y|] == s[p..p + |x|] + s[p + |x|..p + |x| + |y|];
  }

  /** An occurrence of a concatenation is two adjacent occurrences. */
  lemma StartsAtSplit(s: string, p: nat, x: string, y: string)
    requires StartsAt(s, p, x + y)
    ensures StartsAt(s, p, x) && StartsAt(s, p + |x|, y)
  {
    SliceSub(s, p, x + y, 0, |x|);
    SliceSub(s, p, x + y, |x|, |x| + |y|);
    assert (x + y)[..|x|] == x && (x + y)[|x|..] == y;
  }

  lemma AllSpaceSlice(s: string, i: nat, j: nat)
    requires i <= j <= |s|
    ensures AllSpace(s[i..j]) <==> forall k :: i <= k < j ==> IsSpace(s[k])
  {
    assert forall k :: i <= k < j ==> s[k] == s[i..j][k - i];
  }

  /** `s.indexOf(pat, from)`: the first position at or after `from` where
      `pat` occurs. */
  function IndexOfFrom(s: string, pat: string, from: nat): (r: Option<nat>)
    requires from <= |s|
    ensures r.Some? ==> from <= r.value && StartsAt(s, r.value, pat)
    ensures r.Some? ==> forall k :: from <= k < r.value ==> !StartsAt(s, k, pat)
    ensures r.None? ==> forall k :: from <= k <= |s| ==> !StartsAt(s, k, pat)
    decreases |s| - from
  {
    if StartsAt(s, from, pat) then Some(from)
    else if from == |s| then None
    else IndexOfFrom(s, pat, from + 1)
  }

  /** An occurrence with none before it is the one `indexOf` finds. */
  lemma {:induction false} IndexOfFromExact(s: string, pat: string, from: nat, e: nat)
    requires from <= e && StartsAt(s, e, pat)
    requires forall k :: from <= k < e ==> !StartsAt(s, k, pat)
    ensures IndexOfFrom(s, pat, from) == Some(e)
    decreases e - from
  {
    if from < e {
      IndexOfFromExact(s, pat, from + 1, e);
    }
  }

  /** `s.includes(pat)`. */
  predicate Contains(s: string, pat: string) {
    IndexOfFrom(s, pat, 0).Some?
  }

  /** `s.replace(pat, rep)` with a string pattern: the first occurrence of
      `pat` is replaced by `rep`, taken literally. */
  function ReplaceFirst(s: string, pat: string, rep: string): string {
    match IndexOfFrom(s, pat, 0)
    case None => s
    case Some(i) => s[..i] + rep + s[i + |pat|..]
  }

  /** `replace` acts on the first occurrence only: the text before it and
      after it are kept. */
  lemma ReplaceFirstAt(pre: string, pat: string, post: string, rep: string)
    requires forall k :: 0 <= k < |pre| ==> !StartsAt(pre + (pat + post), k, pat)
    ensures ReplaceFirst(pre + (pat + post), pat, rep) == pre + (rep + post)
  {
    var s := pre + (pat + post);
    PaddedSlices(pre, pat, post);
    IndexOfFromExact(s, pat, 0, |pre|);
    assert s[..|pre|] == pre && s[|pre| + |pat|..] == post;
  }

  /** The middle and the end of a text in three parts. */
  lemma MiddleSlices(pre: string, mid: string, post: string, next: nat)
    requires next == |pre| + |mid|
    ensures next <= |pre + (mid + post)|
    ensures (pre + (mid + post))[|pre|..next] == mid && (pre + (mid + post))[next..] == post
  {
    PaddedSlices(pre, mid, post);
  }

  /** An occurrence at or after `e` is one in the text from `e` on. */
  lemma StartsAtDrop(s: string, e: nat, k: nat, pat: string)
    requires e <= k <= |s|
    ensures StartsAt(s, k, pat) <==> StartsAt(s[e..], k - e, pat)
  {
    if k + |pat| <= |s| {
      assert s[e..][k - e..k - e + |pat|] == s[k..k + |pat|];
    }
  }

  /** `s.substring(0, n)`. */
  function Take(s: string, n: nat): (r: string)
    ensures |r| == if |s| < n then |s| else n
    ensures r == s[..|r|]
  {
    if |s| <= n then s else s[..n]
  }

  /** The start of the run of white space that ends at `j` and does not
      reach below `lo`. */
  function BackSpaces(s: string, lo: nat, j: nat): (k: nat)
    requires lo <= j <= |s|
    ensures lo <= k <= j
    ensures AllSpace(s[k..j])
    ensures k > lo ==> !IsSpace(s[k - 1])
    decreases j - lo
  {
    if j > lo && IsSpace(s[j - 1]) then
      var k := BackSpaces(s, lo, j - 1);
      assert s[k..j] == s[k..j - 1] + [s[j - 1]];
      k
    else j
  }

  /** `s.trim()`: the white space at both ends removed. */
  function Trim(s: string): (r: string)
    ensures |r| <= |s|
    ensures r != [] ==> !IsSpace(r[0]) && !IsSpace(r[|r| - 1])
  {
    var i := SkipSpaces(s, 0);
    s[i..BackSpaces(s, i, |s|)]
  }

  /** Trimming removes exactly the white space around a core whose ends are
      not white space. */
  lemma TrimExact(a: string, r: string, b: string)
    requires AllSpace(a) && AllSpace(b)
    requires r != [] ==> !IsSpace(r[0]) && !IsSpace(r[|r| - 1])
    ensures Trim(a + (r + b)) == r
  {
    var s := a + (r + b);
    var n := |a| + |r|;
    PaddedSlices(a, r, b);
    if r == [] {
      AllSpaceConcat(a, b);
      assert s[0..|s|] == a + b;
      SkipSpacesExact(s, 0, |s|);
    } else {
      assert s[|a|] == r[0] && s[n - 1] == r[|r| - 1];
      SkipSpacesExact(s, 0, |a|);
      BackSpacesExact(s, |a|, n, |s|);
    }
  }

  /** The three parts of a padded string, as slices of it. */
  lemma PaddedSlices(a: string, r: string, b: string)
    ensures var s := a + (r + b);
      && s[0..|a|] == a && s[|a|..|a| + |r|] == r && s[|a| + |r|..|s|] == b
  {
  }

  lemma {:induction false} BackSpacesExact(s: string, lo: nat, k: nat, j: nat)
    requires lo <= k <= j <= |s|
    requires AllSpace(s[k..j])
    requires k > lo ==> !IsSpace(s[k - 1])
    ensures BackSpaces(s, lo, j) == k
    decreases j - k
  {
    if k < j {
      assert s[j - 1] == s[k..j][j - 1 - k];
      assert s[k..j - 1] == s[k..j][..j - 1 - k];
      BackSpacesExact(s, lo, k, j - 1);
    }
  }

  /** A string without white space is its own trim (file names captured by
      `[^\s\]]+` are such strings). */
  lemma TrimNoSpace(x: string)
    requires NoSpace(x)
    ensures Trim(x) == x
  {
    assert [] + (x + []) == x;
    TrimExact([], x, []);
  }

  lemma AllSpaceConcat(a: string, b: string)
    requires AllSpace(a) && AllSpace(b)
    ensures AllSpace(a + b)
  {
    assert forall k :: |a| <= k < |a + b| ==> (a + b)[k] == b[k - |a|];
  }

  /** Every string is its trim with white space around it. */
  lemma TrimDecompose(x: string) returns (pre: string, post: string)
    ensures AllSpace(pre) && AllSpace(post)
    ensures x == pre + (Trim(x) + post)
  {
    var i := SkipSpaces(x, 0);
    var k := BackSpaces(x, i, |x|);
    assert x[0..i] == x[..i];
    pre, post := x[..i], x[k..];
    assert AllSpace(pre) && AllSpace(post);
    SliceSplit(x, i, k);
  }

  /** A string is its three slices around `i` and `k`. */
  lemma SliceSplit(x: string, i: nat, k: nat)
    requires i <= k <= |x|
    ensures x == x[..i] + (x[i..k] + x[k..])
  {
    var m := x[i..];
    assert x == x[..i] + m;
    assert m == x[i..k] + x[k..];
  }

  /** White space added around a string does not change its trim. */
  lemma TrimPadded(a: string, x: string, b: string)
    requires AllSpace(a) && AllSpace(b)
    ensures Trim(a + (x + b)) == Trim(x)
  {
    var p, q := TrimDecompose(x);
    var r := Trim(x);
    AllSpaceConcat(a, p);
    AllSpaceConcat(q, b);
    TrimExact(a + p, r, q + b);
    Regroup(a, p, r, q, b);
  }

  lemma Regroup(a: string, p: string, r: string, q: string, b: string)
    ensures a + ((p + (r + q)) + b) == (a + p) + (r + (q + b))
  {
  }

  /** `s.split(sep)` for a one-character separator. */
  function Split(s: string, sep: char): (r: seq<string>)
    ensures |r| >= 1
    ensures forall i :: 0 <= i < |r| ==> sep !in r[i]
    decreases |s|
  {
    if s == [] then [[]]
    else
      var rest := Split(s[1..], sep);
      if s[0] == sep then [[]] + rest
      else [[s[0]] + rest[0]] + rest[1..]
  }

  /** `parts.join(sep)`. */
  function Join(parts: seq<string>, sep: string): string
    decreases |parts|
  {
    if |parts| == 0 then []
    else if |parts| == 1 then parts[0]
    else parts[0] + sep + Join(parts[1..], sep)
  }

  /** Joining the pieces of a split with the separator gives back the string. */
  lemma {:induction false} JoinSplit(s: string, sep: char)
    ensures Join(Split(s, sep), [sep]) == s
    decreases |s|
  {
    if s != [] {
      var rest := Split(s[1..], sep);
      JoinSplit(s[1..], sep);
      if s[0] == sep {
        assert Split(s, sep) == [[]] + rest;
        assert s == [sep] + s[1..];
      } else {
        var r := Split(s, sep);
        assert r == [[s[0]] + rest[0]] + rest[1..];
        if |rest| == 1 {
          assert s == [s[0]] + rest[0];
        } else {
          assert r[1..] == rest[1..];
          assert Join(rest, [sep]) == rest[0] + [sep] + Join(rest[1..], [sep]);
          assert s == [s[0]] + s[1..];
        }
      }
    }
  }

  /** Splitting at a separator that joins two strings splits each of them. */
  lemma {:induction false} SplitConcat(x: string, sep: char, z: string)
    ensures Split(x + [sep] + z, sep) == Split(x, sep) + Split(z, sep)
    decreases |x|
  {
    var s := x + [sep] + z;
    if x == [] {
      assert s == [sep] + z;
      assert s[1..] == z;
    } else {
      assert s[0] == x[0];
      assert s[1..] == x[1..] + [sep] + z;
      SplitConcat(x[1..], sep, z);
    }
  }

  lemma {:induction false} SplitNoSep(z: string, sep: char)
    requires sep !in z
    ensures Split(z, sep) == [z]
    decreases |z|
  {
    if z != [] {
      assert sep !in z[1..];
      SplitNoSep(z[1..], sep);
      assert z == [z[0]] + z[1..];
    }
  }

  /** Splitting a join at a separator no part holds gives the parts back. */
  lemma {:induction false} SplitJoin(parts: seq<string>, sep: char)
    requires |parts| >= 1 && forall i :: 0 <= i < |parts| ==> sep !in parts[i]
    ensures Split(Join(parts, [sep]), sep) == parts
    decreases |parts|
  {
    SplitNoSep(parts[0], sep);
    if |parts| > 1 {
      SplitJoin(parts[1..], sep);
      SplitConcat(parts[0], sep, Join(parts[1..], [sep]));
      assert parts == [parts[0]] + parts[1..];
    }
  }

  /** A split has one piece more than the string has separators. */
  lemma {:induction false} SplitLength(s: string, sep: char)
    ensures |Split(s, sep)| == multiset(s)[sep] + 1
    decreases |s|
  {
    if s != [] {
      SplitLength(s[1..], sep);
      assert s == [s[0]] + s[1..];
      assert multiset(s) == multiset{s[0]} + multiset(s[1..]);
    }
  }

  function LowerAscii(c: char): char {
    if 'A' <= c <= 'Z' then (c as int + 32) as char else c
  }

  /** `s.toLowerCase()` on ASCII letters; other characters are kept. */
  function ToLower(s: string): (r: string)
    ensures |r| == |s|
    ensures forall k :: 0 <= k < |s| ==> r[k] == LowerAscii(s[k])
  {
    seq(|s|, k requires 0 <= k < |s| => LowerAscii(s[k]))
  }

  /** Lower-casing twice is lower-casing once, so a lower-cased text is
      compared as it is. */
  lemma ToLowerIdempotent(s: string)
    ensures ToLower(ToLower(s)) == ToLower(s)
  {
    var t := ToLower(s);
    assert forall k :: 0 <= k < |t| ==> LowerAscii(t[k]) == t[k];
  }
}
