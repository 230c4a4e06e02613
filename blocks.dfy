/** The two regular expressions of services/codingPrompts.ts and the
    `exec` loops over them.

      fileRegex    = /\[FILE:\s*([^\s\]]+)\]\s*\n?([\s\S]*?)\[END_FILE\]/g
      replaceRegex = /\[REPLACE:\s*([^\s\]]+)\]\s*\n?SEARCH:\n?([\s\S]*?)\n?REPLACE:\n?([\s\S]*?)\n?\[END_REPLACE\]/g

    Both are sequences of four kinds of piece (`Piece`), and neither needs
    backtracking to be understood: `\s*` takes all the white space (what
    follows it never starts with white space), the name is the longest run
    of characters that are neither white space nor `]` and must be followed
    by `]`, and each lazy group ends at the first occurrence of its
    delimiter.  The optional `\n?` around the groups only move a newline
    between a group and its delimiter, and the source trims every group
    before using it, so the groups here are the raw text between the
    delimiters.  A failed attempt moves on by one character; after a match
    the search resumes where it ended (`lastIndex`). */
module CodeBlocks {
  import opened Wrappers
  import opened Strings

  const FileOpen: string := "[FILE:"
  const FileClose: string := "[END_FILE]"
  const ReplaceOpen: string := "[REPLACE:"
  const SearchTag: string := "SEARCH:"
  const ReplaceTag: string := "REPLACE:"
  const ReplaceClose: string := "[END_REPLACE]"

  /** `[^\s\]]`: a character of the file name in a block header. */
  predicate IsNameChar(c: char) {
    !IsSpace(c) && c != ']'
  }

  predicate NameChars(s: string) {
    forall k :: 0 <= k < |s| ==> IsNameChar(s[k])
  }

  predicate IsName(s: string) {
    s != [] && NameChars(s)
  }

  /** The end of the run of name characters that starts at `i`. */
  function SkipName(s: string, i: nat): (j: nat)
    requires i <= |s|
    ensures i <= j <= |s|
    ensures NameChars(s[i..j])
    ensures j < |s| ==> !IsNameChar(s[j])
    decreases |s| - i
  {
    if i < |s| && IsNameChar(s[i]) then SkipName(s, i + 1) else i
  }


  lemma SkipNameExact(s: string, i: nat, j: nat)
    requires i <= j <= |s|
    requires NameChars(s[i..j])
    requires j < |s| ==> !IsNameChar(s[j])
    ensures SkipName(s, i) == j
    decreases j - i
  {
  }

  /** A name followed by a character that cannot be part of it is read
      whole. */
  lemma NameFollowed(name: string, u: string)
    requires IsName(name) && u != [] && !IsNameChar(u[0])
    ensures SkipName(name + u, 0) == |name|
  {
    var s := name + u;
    assert s[..|name|] == name;
    assert s[|name|] == u[0];
    SkipNameExact(s, 0, |name|);
  }

  /** A piece of one of the two expressions. */
  datatype Piece =
    | Text(text: string)       // the characters themselves
    | Spaces                   // `\s*`
    | Name                     // `([^\s\]]+)`, captured
    | UpTo(delim: string)      // `([\s\S]*?)` captured, then `delim`

  /** An expression: its pieces, read from the left. */
  datatype Pattern = Done | Then(head: Piece, tail: Pattern)

  function Len(ps: Pattern): nat {
    match ps
    case Done => 0
    case Then(_, t) => 1 + Len(t)
  }

  /** The number of groups a pattern captures. */
  function Groups(ps: Pattern): nat {
    match ps
    case Done => 0
    case Then(x, t) => (if x.Name? || x.UpTo? then 1 else 0) + Groups(t)
  }

  /** A successful attempt: how many characters it read and the groups it
      captured. */
  datatype Matched = Matched(len: nat, groups: seq<string>)

  /** The rest of the pattern matched after `n` characters. */
  function After(n: nat, m: Option<Matched>): Option<Matched> {
    match m
    case None => None
    case Some(mm) => Some(Matched(n + mm.len, mm.groups))
  }

  /** The same, with the group `g` captured by the first `n` characters. */
  function Capture(n: nat, g: string, m: Option<Matched>): Option<Matched> {
    match m
    case None => None
    case Some(mm) => Some(Matched(n + mm.len, [g] + mm.groups))
  }

  /** The groups piece `x` captures when it reads `f`. */
  function Own(x: Piece, f: string): seq<string> {
    if x.Name? || x.UpTo? then [f] else []
  }

  /** The rest of the pattern matched after piece `x` read `f`, which is `n`
      characters long with the delimiter of a lazy group. */
  function Continue(x: Piece, n: nat, f: string, m: Option<Matched>): Option<Matched> {
    if x.Name? || x.UpTo? then Capture(n, f, m) else After(n, m)
  }

  lemma ContinueSome(x: Piece, n: nat, f: string, k: nat, cs: seq<string>)
    ensures Continue(x, n, f, Some(Matched(k, cs))) == Some(Matched(n + k, Own(x, f) + cs))
  {
    assert [] + cs == cs;
  }

  /** The pattern `ps` tried at the start of `r` (the text from the position
      of the attempt on). */
  function MatchAt(ps: Pattern, r: string): (m: Option<Matched>)
    ensures m.Some? ==> m.value.len <= |r| && |m.value.groups| == Groups(ps)
    ensures m.Some? && ps.Then? && ps.head.Text? ==> StartsWith(r, ps.head.text) && |ps.head.text| <= m.value.len
  {
    match ps
    case Done => Some(Matched(0, []))
    case Then(Text(t), rest) => if StartsWith(r, t) then After(|t|, MatchAt(rest, r[|t|..])) else None
    case Then(Spaces, rest) =>
      var n := SkipSpaces(r, 0);
      After(n, MatchAt(rest, r[n..]))
    case Then(Name, rest) =>
      var n := SkipName(r, 0);
      if n == 0 then None else Capture(n, r[..n], MatchAt(rest, r[n..]))
    case Then(UpTo(d), rest) =>
      match IndexOfFrom(r, d, 0)
      case None => None
      case Some(e) => Capture(e + |d|, r[..e], MatchAt(rest, r[e + |d|..]))
  }

  /** The expression starts with a non-empty text, so every match is
      non-empty and the `exec` loop advances. */
  predicate Anchored(ps: Pattern) {
    ps.Then? && ps.head.Text? && ps.head.text != []
  }

  /** `regex.exec(text)` with `lastIndex == from`: the leftmost position at
      or after `from` where the pattern matches, and the match. */
  function Find(ps: Pattern, text: string, from: nat): (r: Option<(nat, Matched)>)
    requires from <= |text|
    ensures r.Some? ==> from <= r.value.0 <= |text| && MatchAt(ps, text[r.value.0..]) == Some(r.value.1)
    decreases |text| - from
  {
    match MatchAt(ps, text[from..])
    case Some(m) => Some((from, m))
    case None => if from == |text| then None else Find(ps, text, from + 1)
  }

  /** No match starts between `from` and the one found, nor anywhere after
      `from` when none is found. */
  lemma {:induction false} FindFirst(ps: Pattern, text: string, from: nat, p: nat)
    requires from <= p <= |text|
    requires Find(ps, text, from).Some? ==> p < Find(ps, text, from).value.0
    ensures MatchAt(ps, text[p..]).None?
    decreases |text| - from
  {
    if p > from {
      assert MatchAt(ps, text[from..]).None?;
      assert Find(ps, text, from) == Find(ps, text, from + 1);
      FindFirst(ps, text, from + 1, p);
    }
  }

  /** A match at `p` with none between `from` and `p` is the one found. */
  lemma {:induction false} FindAt(ps: Pattern, text: string, from: nat, p: nat)
    requires from <= p <= |text| && MatchAt(ps, text[p..]).Some?
    requires forall k :: from <= k < p ==> MatchAt(ps, text[k..]).None?
    ensures Find(ps, text, from).Some? && Find(ps, text, from).value.0 == p
    decreases p - from
  {
    if from < p {
      assert MatchAt(ps, text[from..]).None?;
      FindAt(ps, text, from + 1, p);
      assert Find(ps, text, from) == Find(ps, text, from + 1);
    }
  }

  /** An anchored expression finds nothing in a text without its opening
      text. */
  lemma {:induction false} FindNone(ps: Pattern, text: string, from: nat)
    requires from <= |text| && Anchored(ps)
    requires forall k :: from <= k <= |text| ==> !StartsAt(text, k, ps.head.text)
    ensures Find(ps, text, from).None?
    decreases |text| - from
  {
    StartsAtSuffix(text, from, ps.head.text);
    if from < |text| {
      FindNone(ps, text, from + 1);
    }
  }

  /** `delim` occurs in `body + delim` only at its end: a lazy group that stops
      at the first `delim` can capture `body`. */
  predicate EndsAtFirst(body: string, delim: string) {
    forall k :: 0 <= k < |body| ==> !StartsAt(body + delim, k, delim)
  }

  /** The first `delim` in a body that ends at its first `delim`, and
      whatever follows, is the one after the body. */
  lemma FirstDelimiter(body: string, delim: string, u: string)
    requires EndsAtFirst(body, delim)
    ensures IndexOfFrom((body + delim) + u, delim, 0) == Some(|body|)
  {
    var w := body + delim;
    assert w[|body|..|body| + |delim|] == delim;
    StartsAtPrefix(w, u, |body|, delim);
    forall k | 0 <= k < |body|
      ensures !StartsAt(w + u, k, delim)
    {
      StartsAtPrefix(w, u, k, delim);
    }
    IndexOfFromExact(w + u, delim, 0, |body|);
  }

  /** The text up to and including an occurrence, and what follows it. */
  lemma DelimSplit(r: string, e: nat, delim: string)
    requires StartsAt(r, e, delim)
    ensures r[..e + |delim|] == r[..e] + delim && r == r[..e + |delim|] + r[e + |delim|..]
  {
    assert r[..e + |delim|] == r[..e] + r[e..e + |delim|];
  }

  /** A body that is not followed by an earlier `delim` ends at its first. */
  lemma NoEarlierDelim(body: string, delim: string, y: string)
    requires forall k :: 0 <= k < |body| ==> !StartsAt((body + delim) + y, k, delim)
    ensures EndsAtFirst(body, delim)
  {
    forall k | 0 <= k < |body|
      ensures !StartsAt(body + delim, k, delim)
    {
      StartsAtPrefix(body + delim, y, k, delim);
    }
  }

  /** Where the first `delim` in `r` lies, the text before it ends at its
      first `delim`. */
  lemma FirstDelimiterSound(r: string, e: nat, delim: string)
    requires IndexOfFrom(r, delim, 0) == Some(e)
    ensures e + |delim| <= |r| && StartsWith(r, r[..e] + delim)
    ensures EndsAtFirst(r[..e], delim)
  {
    DelimSplit(r, e, delim);
    NoEarlierDelim(r[..e], delim, r[e + |delim|..]);
  }

  // ---------------------------------------------------------------------
  // Writing out text that the pieces read back

  /** What a piece reads when it is given `fill`: a text reads itself (the
      fill is not used), a group reads its fill, and a lazy group also the
      delimiter that closes it. */
  function Part(x: Piece, fill: string): string {
    match x
    case Text(t) => t
    case Spaces => fill
    case Name => fill
    case UpTo(d) => fill + d
  }

  /** The text the pattern reads when each piece is given its fill. */
  function Print(ps: Pattern, fills: seq<string>): string
    requires |fills| == Len(ps)
  {
    match ps
    case Done => []
    case Then(x, t) => Part(x, fills[0]) + Print(t, fills[1..])
  }

  /** The fills of the capturing pieces. */
  function Captured(ps: Pattern, fills: seq<string>): seq<string>
    requires |fills| == Len(ps)
  {
    match ps
    case Done => []
    case Then(x, t) => Own(x, fills[0]) + Captured(t, fills[1..])
  }

  /** Piece `x` reads exactly `fill` when `rest` follows: white space up to a
      character that is not, a name up to a character that is not a name
      character, a lazy group without its delimiter inside. */
  predicate FitsPiece(x: Piece, fill: string, rest: string) {
    match x
    case Text(_) => true
    case Spaces => AllSpace(fill) && rest != [] && !IsSpace(rest[0])
    case Name => IsName(fill) && rest != [] && !IsNameChar(rest[0])
    case UpTo(d) => EndsAtFirst(fill, d)
  }

  /** Every piece reads exactly its fill. */
  predicate Fits(ps: Pattern, fills: seq<string>)
    requires |fills| == Len(ps)
  {
    match ps
    case Done => true
    case Then(x, t) => FitsPiece(x, fills[0], Print(t, fills[1..])) && Fits(t, fills[1..])
  }

  // The fills from `k` on, given to a pattern with one more piece in front,
  // one lemma per kind of piece.

  lemma UnfoldText(t: string, rest: Pattern, fills: seq<string>, k: nat)
    requires k < |fills| && |fills| - k == 1 + Len(rest)
    ensures Print(Then(Text(t), rest), fills[k..]) == t + Print(rest, fills[k + 1..])
    ensures Captured(Then(Text(t), rest), fills[k..]) == Captured(rest, fills[k + 1..])
    ensures Fits(Then(Text(t), rest), fills[k..]) == Fits(rest, fills[k + 1..])
  {
    assert fills[k..][1..] == fills[k + 1..];
    assert [] + Captured(rest, fills[k + 1..]) == Captured(rest, fills[k + 1..]);
  }

  lemma UnfoldSpaces(rest: Pattern, fills: seq<string>, k: nat)
    requires k < |fills| && |fills| - k == 1 + Len(rest)
    ensures Print(Then(Spaces, rest), fills[k..]) == fills[k] + Print(rest, fills[k + 1..])
    ensures Captured(Then(Spaces, rest), fills[k..]) == Captured(rest, fills[k + 1..])
    ensures Fits(Then(Spaces, rest), fills[k..]) ==
      (&& AllSpace(fills[k]) && Print(rest, fills[k + 1..]) != [] && !IsSpace(Print(rest, fills[k + 1..])[0])
       && Fits(rest, fills[k + 1..]))
  {
    assert fills[k..][1..] == fills[k + 1..];
    assert [] + Captured(rest, fills[k + 1..]) == Captured(rest, fills[k + 1..]);
  }

  lemma UnfoldName(rest: Pattern, fills: seq<string>, k: nat)
    requires k < |fills| && |fills| - k == 1 + Len(rest)
    ensures Print(Then(Name, rest), fills[k..]) == fills[k] + Print(rest, fills[k + 1..])
    ensures Captured(Then(Name, rest), fills[k..]) == [fills[k]] + Captured(rest, fills[k + 1..])
    ensures Fits(Then(Name, rest), fills[k..]) ==
      (&& IsName(fills[k]) && Print(rest, fills[k + 1..]) != [] && !IsNameChar(Print(rest, fills[k + 1..])[0])
       && Fits(rest, fills[k + 1..]))
  {
    assert fills[k..][1..] == fills[k + 1..];
  }

  lemma UnfoldUpTo(d: string, rest: Pattern, fills: seq<string>, k: nat)
    requires k < |fills| && |fills| - k == 1 + Len(rest)
    ensures Print(Then(UpTo(d), rest), fills[k..]) == (fills[k] + d) + Print(rest, fills[k + 1..])
    ensures Captured(Then(UpTo(d), rest), fills[k..]) == [fills[k]] + Captured(rest, fills[k + 1..])
    ensures Fits(Then(UpTo(d), rest), fills[k..]) == (EndsAtFirst(fills[k], d) && Fits(rest, fills[k + 1..]))
  {
    assert fills[k..][1..] == fills[k + 1..];
  }

  /** The last piece of a pattern, a lazy group. */
  lemma UnfoldLast(d: string, fills: seq<string>, k: nat)
    requires k + 1 == |fills|
    ensures Print(Then(UpTo(d), Done), fills[k..]) == fills[k] + d
    ensures Captured(Then(UpTo(d), Done), fills[k..]) == [fills[k]]
    ensures Fits(Then(UpTo(d), Done), fills[k..]) == EndsAtFirst(fills[k], d)
  {
    UnfoldUpTo(d, Done, fills, k);
    assert (fills[k] + d) + [] == fills[k] + d;
    assert [fills[k]] + [] == [fills[k]];
  }

  /** One piece reads its part of a text written out from its fill. */
  lemma PrintedPiece(x: Piece, t: Pattern, f: string, u: string)
    requires FitsPiece(x, f, u)
    ensures MatchAt(Then(x, t), Part(x, f) + u) == Continue(x, |Part(x, f)|, f, MatchAt(t, u))
  {
    match x {
      case Text(s) => PrintedText(s, t, u);
      case Spaces => PrintedSpaces(f, t, u);
      case Name => PrintedName(f, t, u);
      case UpTo(d) => PrintedUpTo(f, d, t, u);
    }
  }

  lemma PrintedText(s: string, t: Pattern, u: string)
    ensures MatchAt(Then(Text(s), t), s + u) == After(|s|, MatchAt(t, u))
  {
    PrefixOfConcat(s, u);
  }

  lemma PrintedSpaces(f: string, t: Pattern, u: string)
    requires AllSpace(f) && u != [] && !IsSpace(u[0])
    ensures MatchAt(Then(Spaces, t), f + u) == After(|f|, MatchAt(t, u))
  {
    SpacesFollowed(f, u);
    PrefixOfConcat(f, u);
  }

  lemma PrintedName(f: string, t: Pattern, u: string)
    requires IsName(f) && u != [] && !IsNameChar(u[0])
    ensures MatchAt(Then(Name, t), f + u) == Capture(|f|, f, MatchAt(t, u))
  {
    NameFollowed(f, u);
    PrefixOfConcat(f, u);
  }

  lemma PrintedUpTo(f: string, d: string, t: Pattern, u: string)
    requires EndsAtFirst(f, d)
    ensures MatchAt(Then(UpTo(d), t), (f + d) + u) == Capture(|f| + |d|, f, MatchAt(t, u))
  {
    FirstDelimiter(f, d, u);
    PrefixOfConcat(f + d, u);
    HeadOfConcat(f, d, u);
    var g := UpToStep(d, t, (f + d) + u);
  }

  /** What follows the text a piece reads only matters through its first
      character. */
  lemma FitsPieceTail(x: Piece, f: string, rest: string, tail: string)
    requires FitsPiece(x, f, rest)
    ensures FitsPiece(x, f, rest + tail)
  {
    if rest != [] {
      assert (rest + tail)[0] == rest[0];
    }
  }

  /** Text written out from fitting fills is read back whatever follows it:
      the pattern matches it whole and captures the fills. */
  lemma {:induction false} MatchPrinted(ps: Pattern, fills: seq<string>, tail: string)
    requires |fills| == Len(ps) && Fits(ps, fills)
    ensures MatchAt(ps, Print(ps, fills) + tail) == Some(Matched(|Print(ps, fills)|, Captured(ps, fills)))
  {
    match ps
    case Done =>
      assert [] + tail == tail;
    case Then(x, t) =>
      var f, rest := fills[0], Print(t, fills[1..]);
      MatchPrinted(t, fills[1..], tail);
      Associative(Part(x, f), rest, tail);
      FitsPieceTail(x, f, rest, tail);
      PrintedPiece(x, t, f, rest + tail);
      ContinueSome(x, |Part(x, f)|, f, |rest|, Captured(t, fills[1..]));
  }

  /** A piece that never reads the empty text. */
  predicate NonEmptyPiece(x: Piece) {
    x.Name? || (x.Text? && x.text != []) || (x.UpTo? && x.delim != [])
  }

  /** White space and names are followed by a piece that reads something. */
  predicate Printable(ps: Pattern) {
    match ps
    case Done => true
    case Then(x, t) => (x.Spaces? || x.Name? ==> t.Then? && NonEmptyPiece(t.head)) && Printable(t)
  }

  lemma PrintNonEmpty(ps: Pattern, fills: seq<string>)
    requires |fills| == Len(ps) && ps.Then? && NonEmptyPiece(ps.head) && Fits(ps, fills)
    ensures Print(ps, fills) != []
  {
    assert |Print(ps, fills)| >= |Part(ps.head, fills[0])|;
  }

  /** What the first piece reads where the pattern matches: its fill, which
      fits whatever comes after it. */
  lemma SoundPiece(x: Piece, t: Pattern, r: string) returns (f: string)
    requires MatchAt(Then(x, t), r).Some?
    ensures StartsWith(r, Part(x, f))
    ensures var j := |Part(x, f)|;
      && MatchAt(t, r[j..]).Some?
      && MatchAt(Then(x, t), r) == Continue(x, j, f, MatchAt(t, r[j..]))
      && (x.Spaces? ==> AllSpace(f) && (j < |r| ==> !IsSpace(r[j])))
      && (x.Name? ==> IsName(f) && (j < |r| ==> !IsNameChar(r[j])))
      && (x.UpTo? ==> EndsAtFirst(f, x.delim))
  {
    match x {
      case Text(s) => f := SoundText(s, t, r);
      case Spaces => f := SoundSpaces(t, r);
      case Name => f := SoundName(t, r);
      case UpTo(d) => f := SoundUpTo(d, t, r);
    }
  }

  lemma SoundText(s: string, t: Pattern, r: string) returns (f: string)
    requires MatchAt(Then(Text(s), t), r).Some?
    ensures f == [] && StartsWith(r, s) && MatchAt(t, r[|s|..]).Some?
    ensures MatchAt(Then(Text(s), t), r) == After(|s|, MatchAt(t, r[|s|..]))
  {
    f := [];
  }

  lemma SoundSpaces(t: Pattern, r: string) returns (f: string)
    requires MatchAt(Then(Spaces, t), r).Some?
    ensures StartsWith(r, f) && AllSpace(f) && (|f| < |r| ==> !IsSpace(r[|f|]))
    ensures MatchAt(t, r[|f|..]).Some? && MatchAt(Then(Spaces, t), r) == After(|f|, MatchAt(t, r[|f|..]))
  {
    var n := SkipSpaces(r, 0);
    assert r[0..n] == r[..n];
    f := r[..n];
  }

  lemma SoundName(t: Pattern, r: string) returns (f: string)
    requires MatchAt(Then(Name, t), r).Some?
    ensures StartsWith(r, f) && IsName(f) && (|f| < |r| ==> !IsNameChar(r[|f|]))
    ensures MatchAt(t, r[|f|..]).Some? && MatchAt(Then(Name, t), r) == Capture(|f|, f, MatchAt(t, r[|f|..]))
  {
    var n := SkipName(r, 0);
    assert r[0..n] == r[..n];
    f := r[..n];
  }

  lemma SoundUpTo(d: string, t: Pattern, r: string) returns (f: string)
    requires MatchAt(Then(UpTo(d), t), r).Some?
    ensures StartsWith(r, f + d) && EndsAtFirst(f, d)
    ensures MatchAt(t, r[|f| + |d|..]).Some?
    ensures MatchAt(Then(UpTo(d), t), r) == Capture(|f| + |d|, f, MatchAt(t, r[|f| + |d|..]))
  {
    f := UpToStep(d, t, r);
    FirstDelimiterSound(r, |f|, d);
  }

  /** A lazy group reads up to the first occurrence of its delimiter. */
  lemma UpToStep(d: string, t: Pattern, r: string) returns (f: string)
    requires IndexOfFrom(r, d, 0).Some?
    ensures |f| == IndexOfFrom(r, d, 0).value && f == r[..|f|]
    ensures MatchAt(Then(UpTo(d), t), r) == Capture(|f| + |d|, f, MatchAt(t, r[|f| + |d|..]))
  {
    f := r[..IndexOfFrom(r, d, 0).value];
  }

  /** The fill of the first piece and the fills of the rest fit together. */
  lemma SoundFits(x: Piece, t: Pattern, r: string, f: string, more: seq<string>)
    requires Printable(Then(x, t)) && StartsWith(r, Part(x, f))
    requires var j := |Part(x, f)|;
      && (x.Spaces? ==> AllSpace(f) && (j < |r| ==> !IsSpace(r[j])))
      && (x.Name? ==> IsName(f) && (j < |r| ==> !IsNameChar(r[j])))
      && (x.UpTo? ==> EndsAtFirst(f, x.delim))
    requires |more| == Len(t) && Fits(t, more) && StartsWith(r[|Part(x, f)|..], Print(t, more))
    ensures Fits(Then(x, t), [f] + more) && StartsWith(r, Print(Then(x, t), [f] + more))
  {
    var fills := [f] + more;
    assert fills[1..] == more;
    var rest := Print(t, more);
    PrefixConcat(r, Part(x, f), rest);
    if x.Spaces? || x.Name? {
      PrintNonEmpty(t, more);
      assert r[|Part(x, f)|] == r[|Part(x, f)|..][..|rest|][0];
    }
  }

  /** Whatever the pattern matches is text written out from fitting fills. */
  lemma {:induction false} MatchSound(ps: Pattern, r: string) returns (fills: seq<string>)
    requires Printable(ps) && MatchAt(ps, r).Some?
    ensures |fills| == Len(ps) && Fits(ps, fills) && StartsWith(r, Print(ps, fills))
    ensures MatchAt(ps, r) == Some(Matched(|Print(ps, fills)|, Captured(ps, fills)))
  {
    match ps
    case Done =>
      fills := [];
    case Then(x, t) =>
      var f := SoundPiece(x, t, r);
      var j := |Part(x, f)|;
      var more := MatchSound(t, r[j..]);
      SoundFits(x, t, r, f, more);
      ContinueSome(x, j, f, |Print(t, more)|, Captured(t, more));
      fills := [f] + more;
      assert fills[1..] == more;
  }

  // ---------------------------------------------------------------------
  // FILE blocks

  /** `fileRegex`: the opening, the name, then everything after the name. */
  const FilePattern: Pattern := Then(Text(FileOpen), Then(Spaces, Then(Name, FileTail)))
  const FileTail: Pattern := Then(Text("]"), Then(Spaces, Then(UpTo(FileClose), Done)))

  lemma FilePatternShape()
    ensures Len(FilePattern) == 6 && Anchored(FilePattern) && Groups(FilePattern) == 2 && Printable(FilePattern)
  {
  }

  /** The text of a FILE block written with the given spacing. */
  function FileBlockText(ws1: string, name: string, ws2: string, body: string): string {
    FileOpen + (ws1 + (name + ("]" + (ws2 + (body + FileClose)))))
  }

  /** The parts of a FILE block that `fileRegex` reads back as they are: the
      body does not start with white space (`\s*` takes it) and holds no
      `[END_FILE]`. */
  predicate WellFormedFile(ws1: string, name: string, ws2: string, body: string) {
    && AllSpace(ws1) && IsName(name) && AllSpace(ws2)
    && (body != [] ==> !IsSpace(body[0]))
    && EndsAtFirst(body, FileClose)
  }

  /** Given fills, the pattern of `fileRegex` writes out a FILE block and
      captures the name and the body; the fills fit exactly when they make a
      well-formed FILE block. */
  lemma FileFills(fills: seq<string>)
    requires |fills| == 6
    ensures Len(FilePattern) == 6
    ensures Print(FilePattern, fills) == FileBlockText(fills[1], fills[2], fills[4], fills[5])
    ensures Captured(FilePattern, fills) == [fills[2], fills[5]]
    ensures Fits(FilePattern, fills) <==> WellFormedFile(fills[1], fills[2], fills[4], fills[5])
  {
    FilePatternShape();
    assert fills[0..] == fills;
    UnfoldText(FileOpen, Then(Spaces, Then(Name, FileTail)), fills, 0);
    UnfoldSpaces(Then(Name, FileTail), fills, 1);
    UnfoldName(FileTail, fills, 2);
    FileTailFills(fills);
    assert [fills[2]] + [fills[5]] == [fills[2], fills[5]];
  }

  /** The pattern after the name, given the last three fills. */
  lemma FileTailFills(fills: seq<string>)
    requires |fills| == 6
    ensures Len(FileTail) == 3
    ensures Print(FileTail, fills[3..]) == "]" + (fills[4] + (fills[5] + FileClose))
    ensures Print(FileTail, fills[3..])[0] == ']'
    ensures Captured(FileTail, fills[3..]) == [fills[5]]
    ensures Fits(FileTail, fills[3..]) <==> AllSpace(fills[4]) && (fills[5] != [] ==> !IsSpace(fills[5][0])) && EndsAtFirst(fills[5], FileClose)
  {
    UnfoldText("]", Then(Spaces, Then(UpTo(FileClose), Done)), fills, 3);
    UnfoldSpaces(Then(UpTo(FileClose), Done), fills, 4);
    UnfoldLast(FileClose, fills, 5);
    var body := fills[5];
    assert (body + FileClose)[0] == if body == [] then '[' else body[0];
  }

  /** A FILE block is read back by `fileRegex` whatever follows it. */
  lemma MatchFilePrinted(ws1: string, name: string, ws2: string, body: string, tail: string)
    requires WellFormedFile(ws1, name, ws2, body)
    ensures MatchAt(FilePattern, FileBlockText(ws1, name, ws2, body) + tail)
         == Some(Matched(|FileBlockText(ws1, name, ws2, body)|, [name, body]))
  {
    var fills := ["", ws1, name, "", ws2, body];
    FileFills(fills);
    MatchPrinted(FilePattern, fills, tail);
  }

  /** Whatever `fileRegex` matches has the written-out form of a FILE block,
      with the body ending at the first `[END_FILE]`. */
  lemma MatchFileSound(r: string) returns (ws1: string, ws2: string)
    requires MatchAt(FilePattern, r).Some?
    ensures var m := MatchAt(FilePattern, r).value;
      && |m.groups| == 2
      && WellFormedFile(ws1, m.groups[0], ws2, m.groups[1])
      && StartsWith(r, FileBlockText(ws1, m.groups[0], ws2, m.groups[1]))
      && m.len == |FileBlockText(ws1, m.groups[0], ws2, m.groups[1])|
  {
    FilePatternShape();
    var fills := MatchSound(FilePattern, r);
    FileFills(fills);
    ws1, ws2 := fills[1], fills[4];
  }

  /** A FILE block as the parser sees it: `match[0]`, the name `match[1]` and
      the body `match[2]` (after the white space `\s*` skips). */
  datatype FileBlock = FileBlock(whole: string, name: string, body: string)

  /** The successive matches of the `while ((match = fileRegex.exec(text)))`
      loop, from `lastIndex == from` on. */
  function FileBlocks(text: string, from: nat): seq<FileBlock>
    requires from <= |text|
    decreases |text| - from
  {
    match Find(FilePattern, text, from)
    case None => []
    case Some((p, m)) =>
      FilePatternShape();
      [FileBlock(text[p..p + m.len], m.groups[0], m.groups[1])] + FileBlocks(text, p + m.len)
  }

  /** One step of the `exec` loop: the match found from `from`, the block it
      makes and the blocks after it. */
  lemma FileBlocksStep(text: string, from: nat, p: nat, m: Matched, next: nat)
    requires from <= |text| && Find(FilePattern, text, from) == Some((p, m)) && next == p + m.len
    ensures from <= p && from < next <= |text| && |m.groups| == 2
    ensures FileBlocks(text, from) == [FileBlock(text[p..next], m.groups[0], m.groups[1])] + FileBlocks(text, next)
  {
    FilePatternShape();
  }

  /** A block that is the written-out form of a well-formed FILE block. */
  ghost predicate IsFileBlock(b: FileBlock) {
    exists ws1: string, ws2: string :: WellFormedFile(ws1, b.name, ws2, b.body) && b.whole == FileBlockText(ws1, b.name, ws2, b.body)
  }

  /** The matched text is a prefix of the text from the match on. */
  lemma MatchedPrefix(text: string, p: nat, next: nat, w: string)
    requires p <= next <= |text| && StartsWith(text[p..], w) && next == p + |w|
    ensures text[p..next] == w
  {
    assert text[p..next] == text[p..][..|w|];
  }

  /** Every block the first loop sees is a well-formed FILE block: its body
      ends at the first `[END_FILE]` after the header. */
  lemma {:induction false} FileBlocksWellFormed(text: string, from: nat)
    requires from <= |text|
    ensures forall b :: b in FileBlocks(text, from) ==> IsFileBlock(b)
    decreases |text| - from
  {
    match Find(FilePattern, text, from) {
      case None =>
      case Some((p, m)) =>
        var next := p + m.len;
        FileBlocksStep(text, from, p, m, next);
        FileBlockAt(text, p, m, next);
        FileBlocksWellFormed(text, next);
    }
  }

  /** The block a match makes is a well-formed FILE block. */
  lemma FileBlockAt(text: string, p: nat, m: Matched, next: nat)
    requires p <= |text| && MatchAt(FilePattern, text[p..]) == Some(m) && next == p + m.len
    ensures next <= |text| && |m.groups| == 2
    ensures IsFileBlock(FileBlock(text[p..next], m.groups[0], m.groups[1]))
  {
    var ws1, ws2 := MatchFileSound(text[p..]);
    MatchedPrefix(text, p, next, FileBlockText(ws1, m.groups[0], ws2, m.groups[1]));
  }

  // ---------------------------------------------------------------------
  // REPLACE blocks

  /** `replaceRegex`: the opening, the name, then everything after the name. */
  const ReplacePattern: Pattern := Then(Text(ReplaceOpen), Then(Spaces, Then(Name, ReplaceTail)))
  const ReplaceTail: Pattern := Then(Text("]"), Then(Spaces, ReplaceBody))
  const ReplaceBody: Pattern := Then(Text(SearchTag), Then(UpTo(ReplaceTag), Then(UpTo(ReplaceClose), Done)))

  lemma ReplacePatternShape()
    ensures Len(ReplacePattern) == 8 && Anchored(ReplacePattern) && Groups(ReplacePattern) == 3
    ensures Printable(ReplacePattern)
  {
  }

  /** The text of a REPLACE block written with the given spacing. */
  function ReplaceBlockText(ws1: string, name: string, ws2: string, search: string, replacement: string): string {
    ReplaceOpen + (ws1 + (name + ("]" + (ws2 + (SearchTag + ((search + ReplaceTag) + (replacement + ReplaceClose)))))))
  }

  /** The parts of a REPLACE block that `replaceRegex` reads back as they
      are: neither part holds its closing delimiter. */
  predicate WellFormedReplace(ws1: string, name: string, ws2: string, search: string, replacement: string) {
    && AllSpace(ws1) && IsName(name) && AllSpace(ws2)
    && EndsAtFirst(search, ReplaceTag)
    && EndsAtFirst(replacement, ReplaceClose)
  }

  /** Given fills, the pattern of `replaceRegex` writes out a REPLACE block
      and captures the name, the search text and the replacement; the fills
      fit exactly when they make a well-formed REPLACE block. */
  lemma ReplaceFills(fills: seq<string>)
    requires |fills| == 8
    ensures Len(ReplacePattern) == 8
    ensures Print(ReplacePattern, fills) == ReplaceBlockText(fills[1], fills[2], fills[4], fills[6], fills[7])
    ensures Captured(ReplacePattern, fills) == [fills[2], fills[6], fills[7]]
    ensures Fits(ReplacePattern, fills) <==> WellFormedReplace(fills[1], fills[2], fills[4], fills[6], fills[7])
  {
    ReplacePatternShape();
    assert fills[0..] == fills;
    UnfoldText(ReplaceOpen, Then(Spaces, Then(Name, ReplaceTail)), fills, 0);
    UnfoldSpaces(Then(Name, ReplaceTail), fills, 1);
    UnfoldName(ReplaceTail, fills, 2);
    ReplaceTailFills(fills);
    assert [fills[2]] + [fills[6], fills[7]] == [fills[2], fills[6], fills[7]];
  }

  /** The pattern after the name, given the last five fills. */
  lemma ReplaceTailFills(fills: seq<string>)
    requires |fills| == 8
    ensures Len(ReplaceTail) == 5
    ensures Print(ReplaceTail, fills[3..]) == "]" + (fills[4] + (SearchTag + ((fills[6] + ReplaceTag) + (fills[7] + ReplaceClose))))
    ensures Print(ReplaceTail, fills[3..])[0] == ']'
    ensures Captured(ReplaceTail, fills[3..]) == [fills[6], fills[7]]
    ensures Fits(ReplaceTail, fills[3..]) <==> AllSpace(fills[4]) && EndsAtFirst(fills[6], ReplaceTag) && EndsAtFirst(fills[7], ReplaceClose)
  {
    UnfoldText("]", Then(Spaces, ReplaceBody), fills, 3);
    UnfoldSpaces(ReplaceBody, fills, 4);
    UnfoldText(SearchTag, Then(UpTo(ReplaceTag), Then(UpTo(ReplaceClose), Done)), fills, 5);
    UnfoldUpTo(ReplaceTag, Then(UpTo(ReplaceClose), Done), fills, 6);
    UnfoldLast(ReplaceClose, fills, 7);
    assert Print(ReplaceBody, fills[5..])[0] == 'S';
    assert [fills[6]] + [fills[7]] == [fills[6], fills[7]];
  }

  /** A REPLACE block is read back by `replaceRegex` whatever follows it. */
  lemma MatchReplacePrinted(ws1: string, name: string, ws2: string, search: string, replacement: string, tail: string)
    requires WellFormedReplace(ws1, name, ws2, search, replacement)
    ensures MatchAt(ReplacePattern, ReplaceBlockText(ws1, name, ws2, search, replacement) + tail)
         == Some(Matched(|ReplaceBlockText(ws1, name, ws2, search, replacement)|, [name, search, replacement]))
  {
    var fills := ["", ws1, name, "", ws2, "", search, replacement];
    ReplaceFills(fills);
    MatchPrinted(ReplacePattern, fills, tail);
  }

  /** Whatever `replaceRegex` matches has the written-out form of a REPLACE
      block, each part ending at the first occurrence of its delimiter. */
  lemma MatchReplaceSound(r: string) returns (ws1: string, ws2: string)
    requires MatchAt(ReplacePattern, r).Some?
    ensures var m := MatchAt(ReplacePattern, r).value;
      && |m.groups| == 3
      && WellFormedReplace(ws1, m.groups[0], ws2, m.groups[1], m.groups[2])
      && StartsWith(r, ReplaceBlockText(ws1, m.groups[0], ws2, m.groups[1], m.groups[2]))
      && m.len == |ReplaceBlockText(ws1, m.groups[0], ws2, m.groups[1], m.groups[2])|
  {
    ReplacePatternShape();
    var fills := MatchSound(ReplacePattern, r);
    ReplaceFills(fills);
    ws1, ws2 := fills[1], fills[4];
  }

  /** A REPLACE block as the parser sees it: `match[0]` and the raw groups. */
  datatype ReplaceBlock = ReplaceBlock(whole: string, name: string, search: string, replacement: string)

  /** The successive matches of the `replaceRegex.exec` loop. */
  function ReplaceBlocks(text: string, from: nat): seq<ReplaceBlock>
    requires from <= |text|
    decreases |text| - from
  {
    match Find(ReplacePattern, text, from)
    case None => []
    case Some((p, m)) =>
      ReplacePatternShape();
      [ReplaceBlock(text[p..p + m.len], m.groups[0], m.groups[1], m.groups[2])] + ReplaceBlocks(text, p + m.len)
  }

  lemma ReplaceBlocksStep(text: string, from: nat, p: nat, m: Matched, next: nat)
    requires from <= |text| && Find(ReplacePattern, text, from) == Some((p, m)) && next == p + m.len
    ensures from <= p && from < next <= |text| && |m.groups| == 3
    ensures ReplaceBlocks(text, from) == [ReplaceBlock(text[p..next], m.groups[0], m.groups[1], m.groups[2])] + ReplaceBlocks(text, next)
  {
    ReplacePatternShape();
  }

  /** A block that is the written-out form of a well-formed REPLACE block. */
  ghost predicate IsReplaceBlock(b: ReplaceBlock) {
    exists ws1: string, ws2: string ::
      && WellFormedReplace(ws1, b.name, ws2, b.search, b.replacement)
      && b.whole == ReplaceBlockText(ws1, b.name, ws2, b.search, b.replacement)
  }

  /** Every block the second loop sees is a well-formed REPLACE block: the
      search text ends at the first `REPLACE:` after `SEARCH:`, the
      replacement at the first `[END_REPLACE]` after that. */
  lemma {:induction false} ReplaceBlocksWellFormed(text: string, from: nat)
    requires from <= |text|
    ensures forall b :: b in ReplaceBlocks(text, from) ==> IsReplaceBlock(b)
    decreases |text| - from
  {
    match Find(ReplacePattern, text, from) {
      case None =>
      case Some((p, m)) =>
        var next := p + m.len;
        ReplaceBlocksStep(text, from, p, m, next);
        ReplaceBlockAt(text, p, m, next);
        ReplaceBlocksWellFormed(text, next);
    }
  }

  /** The block a match makes is a well-formed REPLACE block. */
  lemma ReplaceBlockAt(text: string, p: nat, m: Matched, next: nat)
    requires p <= |text| && MatchAt(ReplacePattern, text[p..]) == Some(m) && next == p + m.len
    ensures next <= |text| && |m.groups| == 3
    ensures IsReplaceBlock(ReplaceBlock(text[p..next], m.groups[0], m.groups[1], m.groups[2]))
  {
    var ws1, ws2 := MatchReplaceSound(text[p..]);
    MatchedPrefix(text, p, next, ReplaceBlockText(ws1, m.groups[0], ws2, m.groups[1], m.groups[2]));
  }
}
