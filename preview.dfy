/** The preview source of PreviewProvider: the entry HTML file is chosen
    from the project, and its `./`-relative `<script src>` and stylesheet
    `<link>` tags are replaced by the content of the project file they
    name.  The two regular expressions are written out as scanners over
    the rest of the text; a global `replace` with a callback becomes a left
    to right pass that rewrites each match and carries on after it. */
module Preview {
  import opened Wrappers
  import opened Strings
  import opened Files

  // ---------------------------------------------------------------------
  // Looking files up by suffix

  /** `keys.find(f => f.endsWith(suffix))`, as a position. */
  function FirstEndingWith(keys: seq<string>, suffix: string): (r: Option<nat>)
    ensures r.Some? ==> r.value < |keys| && EndsWith(keys[r.value], suffix)
    ensures r.Some? ==> forall j :: 0 <= j < r.value ==> !EndsWith(keys[j], suffix)
    ensures r.None? ==> forall j :: 0 <= j < |keys| ==> !EndsWith(keys[j], suffix)
    decreases |keys|
  {
    if keys == [] then None
    else if EndsWith(keys[0], suffix) then Some(0)
    else match FirstEndingWith(keys[1..], suffix)
      case None => None
      case Some(i) => Some(i + 1)
  }

  /** `mainHtmlFile`: the first key ending with `index.html`, else the
      first ending with `.html`, else none. */
  function MainHtmlFile(files: ProjectFiles): (r: Option<string>)
    ensures r.Some? ==> r.value in Keys(files) && EndsWith(r.value, ".html")
    ensures (exists k :: k in Keys(files) && EndsWith(k, "index.html")) ==>
      r.Some? && EndsWith(r.value, "index.html") &&
      forall j :: (0 <= j < |files| && Keys(files)[j] == r.value) ==>
        forall i :: 0 <= i < j ==> !EndsWith(Keys(files)[i], "index.html")
    ensures (forall k :: k in Keys(files) ==> !EndsWith(k, "index.html")) ==>
      r == match FirstEndingWith(Keys(files), ".html") case Some(i) => Some(Keys(files)[i]) case None => None
    ensures r.None? <==> forall k :: k in Keys(files) ==> !EndsWith(k, ".html")
  {
    var keys := Keys(files);
    match FirstEndingWith(keys, "index.html")
    case Some(i) =>
      assert keys[i][|keys[i]| - 5..] == keys[i][|keys[i]| - 10..][5..];
      assert forall j :: 0 <= j < |files| && keys[j] == keys[i] ==> j == i by {
        forall j | 0 <= j < |files|
          ensures keys[j] == keys[i] ==> j == i
        {
          SameKey(files, i, j);
        }
      }
      Some(keys[i])
    case None =>
      match FirstEndingWith(keys, ".html")
      case Some(i) => Some(keys[i])
      case None => None
  }

  /** `files[keys.find(f => f.endsWith(fileName)) || '']`, with a missing
      entry read as the empty, falsy, content. */
  function Resolve(files: ProjectFiles, fileName: string): (r: string)
    ensures (forall k :: k in Keys(files) ==> !EndsWith(k, fileName)) ==> r == Content(files, "")
    ensures forall i :: (0 <= i < |files| && EndsWith(files[i].0, fileName) &&
      forall j :: 0 <= j < i ==> !EndsWith(files[j].0, fileName)) ==> r == Content(files, files[i].0)
  {
    var keys := Keys(files);
    match FirstEndingWith(keys, fileName)
    case Some(i) => Content(files, keys[i])
    case None => Content(files, "")
  }

  // ---------------------------------------------------------------------
  // Scanning a tag

  predicate IsQuote(c: char) {
    c == '"' || c == '\''
  }

  predicate NoQuote(s: string) {
    forall k :: 0 <= k < |s| ==> !IsQuote(s[k])
  }

  /** The characters `w`, then the rest of the text. */
  function Lit(s: string, w: string): (r: Option<string>)
    ensures r.Some? ==> s == w + r.value
    ensures r.None? ==> !StartsWith(s, w)
  {
    if StartsWith(s, w) then Some(s[|w|..]) else None
  }

  /** A greedy `\s*`: the white space in front, then the rest. */
  function Ws(s: string): (r: (string, string))
    ensures s == r.0 + r.1 && AllSpace(r.0)
    ensures r.1 != [] ==> !IsSpace(r.1[0])
  {
    var j := SkipSpaces(s, 0);
    assert s[0..j] == s[..j];
    (s[..j], s[j..])
  }

  /** `["']`: one quote of either kind, then the rest. */
  function Quote(s: string): (r: Option<(char, string)>)
    ensures r.Some? ==> IsQuote(r.value.0) && s == [r.value.0] + r.value.1
    ensures r.None? ==> s == [] || !IsQuote(s[0])
  {
    if s != [] && IsQuote(s[0]) then Some((s[0], s[1..])) else None
  }

  function SkipRef(s: string, i: nat): (j: nat)
    requires i <= |s|
    ensures i <= j <= |s|
    ensures NoQuote(s[i..j])
    ensures j < |s| ==> IsQuote(s[j])
    decreases |s| - i
  {
    if i < |s| && !IsQuote(s[i]) then SkipRef(s, i + 1) else i
  }

  /** A greedy `[^"']*`: the run of characters that are no quote. */
  function Ref(s: string): (r: (string, string))
    ensures s == r.0 + r.1 && NoQuote(r.0)
    ensures r.1 != [] ==> IsQuote(r.1[0])
  {
    var j := SkipRef(s, 0);
    assert s[0..j] == s[..j];
    (s[..j], s[j..])
  }

  lemma LitConcat(w: string, u: string)
    ensures Lit(w + u, w) == Some(u)
  {
    PrefixOfConcat(w, u);
  }

  lemma WsConcat(ws: string, u: string)
    requires AllSpace(ws) && (u != [] ==> !IsSpace(u[0]))
    ensures Ws(ws + u) == (ws, u)
  {
    var s := ws + u;
    assert s[..|ws|] == ws && s[|ws|..] == u;
    if u != [] {
      assert s[|ws|] == u[0];
    }
    SkipSpacesExact(s, 0, |ws|);
  }

  lemma QuoteConcat(q: char, u: string)
    requires IsQuote(q)
    ensures Quote([q] + u) == Some((q, u))
  {
    assert ([q] + u)[1..] == u;
  }

  lemma RefConcat(name: string, u: string)
    requires NoQuote(name) && (u != [] ==> IsQuote(u[0]))
    ensures Ref(name + u) == (name, u)
  {
    var s := name + u;
    assert s[..|name|] == name && s[|name|..] == u;
    if u != [] {
      assert s[|name|] == u[0];
    }
    SkipRefExact(s, 0, |name|);
  }

  lemma SkipRefExact(s: string, i: nat, j: nat)
    requires i <= j <= |s|
    requires NoQuote(s[i..j])
    requires j < |s| ==> IsQuote(s[j])
    ensures SkipRef(s, i) == j
    decreases j - i
  {
    if i < j {
      assert s[i] == s[i..j][0];
      assert s[i + 1..j] == s[i..j][1..];
      SkipRefExact(s, i + 1, j);
    }
  }

  // ---------------------------------------------------------------------
  // `\.\/([^"']+)["']\s*`: the reference, after its opening quote

  /** The file name of the `./` reference at the start of `s`, and the
      text after its closing quote and the white space that follows. */
  function RelRef(s: string): (r: Option<(string, string)>)
    ensures r.Some? ==> r.value.0 != [] && |r.value.1| < |s|
  {
    match Lit(s, "./")
    case None => None
    case Some(r1) =>
      var (name, r2) := Ref(r1);
      if name == [] then None else
      match Quote(r2)
      case None => None
      case Some((q, r3)) => Some((name, Ws(r3).1))
  }

  /** A reference as written, followed by `tail`. */
  function RelText(name: string, q: char, ws: string, tail: string): string {
    "./" + (name + ([q] + (ws + tail)))
  }

  predicate WellFormedRef(name: string, q: char, ws: string) {
    name != [] && NoQuote(name) && IsQuote(q) && AllSpace(ws)
  }

  lemma RelMatched(name: string, q: char, ws: string, tail: string)
    requires WellFormedRef(name, q, ws) && (tail != [] ==> !IsSpace(tail[0]))
    ensures RelRef(RelText(name, q, ws, tail)) == Some((name, tail))
  {
    var r3 := ws + tail;
    var r2 := [q] + r3;
    var r1 := name + r2;
    LitConcat("./", r1);
    RefConcat(name, r2);
    QuoteConcat(q, r3);
    WsConcat(ws, tail);
  }

  lemma RelSound(s: string) returns (q: char, ws: string)
    requires RelRef(s).Some?
    ensures var (name, rest) := RelRef(s).value;
      WellFormedRef(name, q, ws) && s == RelText(name, q, ws, rest)
  {
    var r1 := Lit(s, "./").value;
    var (name, r2) := Ref(r1);
    var r3;
    q, r3 := Quote(r2).value.0, Quote(r2).value.1;
    ws := Ws(r3).0;
  }

  // ---------------------------------------------------------------------
  // `<script\s+src=["']\.\/([^"']+)["']\s*><\/script>`

  const ScriptOpen: string := "<script"
  const ScriptEnd: string := "></script>"

  /** How a script tag is written around its file name: the white space
      before `src=`, the two quotes and the white space before `>`. */
  datatype ScriptLayout = ScriptLayout(ws1: string, q1: char, q2: char, ws2: string)

  predicate WellFormedScript(name: string, l: ScriptLayout) {
    l.ws1 != [] && AllSpace(l.ws1) && IsQuote(l.q1) && WellFormedRef(name, l.q2, l.ws2)
  }

  /** The script tag for file `name` written with layout `l`. */
  function ScriptTag(name: string, l: ScriptLayout): string {
    ScriptOpen + (l.ws1 + ("src=" + ([l.q1] + RelText(name, l.q2, l.ws2, ScriptEnd))))
  }

  /** The file name of the script tag at the start of `s`, and the text
      after the tag. */
  function MatchScript(s: string): (r: Option<(string, string)>)
    ensures r.Some? ==> r.value.0 != [] && |r.value.1| < |s|
  {
    match Lit(s, ScriptOpen)
    case None => None
    case Some(r1) => ScriptSrc(r1)
  }

  /** `\s+src=["']`, the reference and `></script>`. */
  function ScriptSrc(s: string): (r: Option<(string, string)>)
    ensures r.Some? ==> r.value.0 != [] && |r.value.1| < |s|
  {
    var (ws, r1) := Ws(s);
    if ws == [] then None else
    match Lit(r1, "src=")
    case None => None
    case Some(r2) =>
      match Quote(r2)
      case None => None
      case Some((q, r3)) =>
        match RelRef(r3)
        case None => None
        case Some((name, r4)) =>
          match Lit(r4, ScriptEnd)
          case None => None
          case Some(rest) => Some((name, rest))
  }

  lemma ScriptTail(name: string, l: ScriptLayout, tail: string)
    ensures ScriptTag(name, l) + tail
         == ScriptOpen + (l.ws1 + ("src=" + ([l.q1] + RelText(name, l.q2, l.ws2, ScriptEnd + tail))))
  {
  }

  lemma ScriptSrcMatched(name: string, l: ScriptLayout, tail: string)
    requires WellFormedScript(name, l)
    ensures ScriptSrc(l.ws1 + ("src=" + ([l.q1] + RelText(name, l.q2, l.ws2, ScriptEnd + tail))))
         == Some((name, tail))
  {
    var r4 := ScriptEnd + tail;
    var r3 := RelText(name, l.q2, l.ws2, r4);
    var r2 := [l.q1] + r3;
    var r1 := "src=" + r2;
    WsConcat(l.ws1, r1);
    LitConcat("src=", r2);
    QuoteConcat(l.q1, r3);
    RelMatched(name, l.q2, l.ws2, r4);
    LitConcat(ScriptEnd, tail);
  }

  /** Every well-formed script tag is matched, whatever follows it. */
  lemma ScriptMatched(name: string, l: ScriptLayout, tail: string)
    requires WellFormedScript(name, l)
    ensures MatchScript(ScriptTag(name, l) + tail) == Some((name, tail))
  {
    ScriptTail(name, l, tail);
    LitConcat(ScriptOpen, l.ws1 + ("src=" + ([l.q1] + RelText(name, l.q2, l.ws2, ScriptEnd + tail))));
    ScriptSrcMatched(name, l, tail);
  }

  lemma ScriptSrcSound(s: string) returns (l: ScriptLayout)
    requires ScriptSrc(s).Some?
    ensures var (name, rest) := ScriptSrc(s).value;
      WellFormedScript(name, l) && s == l.ws1 + ("src=" + ([l.q1] + RelText(name, l.q2, l.ws2, ScriptEnd + rest)))
  {
    var (ws1, r1) := Ws(s);
    var r2 := Lit(r1, "src=").value;
    var (q1, r3) := Quote(r2).value;
    var q2, ws2 := RelSound(r3);
    l := ScriptLayout(ws1, q1, q2, ws2);
  }

  /** Only well-formed script tags are matched: in particular a `src` that
      does not start with `./` never is. */
  lemma ScriptSound(s: string) returns (l: ScriptLayout)
    requires MatchScript(s).Some?
    ensures var (name, rest) := MatchScript(s).value;
      WellFormedScript(name, l) && s == ScriptTag(name, l) + rest
  {
    var r1 := Lit(s, ScriptOpen).value;
    l := ScriptSrcSound(r1);
    var (name, rest) := MatchScript(s).value;
    ScriptTail(name, l, rest);
  }

  // ---------------------------------------------------------------------
  // `<link\s+rel=["']stylesheet["']\s+href=["']\.\/([^"']+)["']\s*\/?>`

  const LinkOpen: string := "<link"

  /** How a stylesheet link is written around its file name: the white
      space and quotes of `rel`, those of `href`, the white space before
      the end and whether it is self-closed. */
  datatype LinkLayout = LinkLayout(ws1: string, q1: char, q2: char, ws2: string, q3: char, q4: char, ws3: string,
                                   selfClosed: bool)

  predicate WellFormedLink(name: string, l: LinkLayout) {
    l.ws1 != [] && AllSpace(l.ws1) && IsQuote(l.q1) && IsQuote(l.q2) &&
    l.ws2 != [] && AllSpace(l.ws2) && IsQuote(l.q3) && WellFormedRef(name, l.q4, l.ws3)
  }

  function Close(selfClosed: bool): string {
    if selfClosed then "/>" else ">"
  }

  /** `\s+rel=["']stylesheet["']` as written, then `tail`. */
  function RelAttr(l: LinkLayout, tail: string): string {
    l.ws1 + ("rel=" + ([l.q1] + ("stylesheet" + ([l.q2] + tail))))
  }

  /** `\s+href=["']`, the reference as written, then `tail`. */
  function HrefAttr(name: string, ws2: string, q3: char, q4: char, ws3: string, tail: string): string {
    ws2 + ("href=" + ([q3] + RelText(name, q4, ws3, tail)))
  }

  /** The stylesheet link for file `name` written with layout `l`. */
  function LinkTag(name: string, l: LinkLayout): string {
    LinkOpen + RelAttr(l, HrefAttr(name, l.ws2, l.q3, l.q4, l.ws3, Close(l.selfClosed)))
  }

  /** The end of a link tag: `/>` or `>`, then the rest. */
  function LinkEnd(s: string): (r: Option<string>)
    ensures r.Some? ==> s == "/>" + r.value || s == ">" + r.value
  {
    match Lit(s, "/>")
    case Some(rest) => Some(rest)
    case None => Lit(s, ">")
  }

  /** The file name of the stylesheet link at the start of `s`, and the
      text after the tag. */
  function MatchLink(s: string): (r: Option<(string, string)>)
    ensures r.Some? ==> r.value.0 != [] && |r.value.1| < |s|
  {
    match Lit(s, LinkOpen)
    case None => None
    case Some(r1) => LinkRel(r1)
  }

  function LinkRel(s: string): (r: Option<(string, string)>)
    ensures r.Some? ==> r.value.0 != [] && |r.value.1| < |s|
  {
    var (ws, r1) := Ws(s);
    if ws == [] then None else
    match Lit(r1, "rel=")
    case None => None
    case Some(r2) =>
      match Quote(r2)
      case None => None
      case Some((q1, r3)) =>
        match Lit(r3, "stylesheet")
        case None => None
        case Some(r4) =>
          match Quote(r4)
          case None => None
          case Some((q2, r5)) => LinkHref(r5)
  }

  function LinkHref(s: string): (r: Option<(string, string)>)
    ensures r.Some? ==> r.value.0 != [] && |r.value.1| < |s|
  {
    var (ws, r1) := Ws(s);
    if ws == [] then None else
    match Lit(r1, "href=")
    case None => None
    case Some(r2) =>
      match Quote(r2)
      case None => None
      case Some((q, r3)) =>
        match RelRef(r3)
        case None => None
        case Some((name, r4)) =>
          match LinkEnd(r4)
          case None => None
          case Some(rest) => Some((name, rest))
  }

  lemma LinkTail(name: string, l: LinkLayout, tail: string)
    ensures LinkTag(name, l) + tail == LinkOpen + RelAttr(l, HrefAttr(name, l.ws2, l.q3, l.q4, l.ws3, Close(l.selfClosed) + tail))
  {
  }

  lemma LinkEndConcat(selfClosed: bool, tail: string)
    ensures LinkEnd(Close(selfClosed) + tail) == Some(tail)
  {
    if selfClosed {
      LitConcat("/>", tail);
    } else {
      LitConcat(">", tail);
      assert !StartsWith(">" + tail, "/>") by {
        assert (">" + tail)[0] == '>';
      }
    }
  }

  lemma HrefMatched(name: string, l: LinkLayout, tail: string)
    requires WellFormedLink(name, l)
    ensures LinkHref(HrefAttr(name, l.ws2, l.q3, l.q4, l.ws3, Close(l.selfClosed) + tail)) == Some((name, tail))
  {
    var r4 := Close(l.selfClosed) + tail;
    var r3 := RelText(name, l.q4, l.ws3, r4);
    var r2 := [l.q3] + r3;
    var r1 := "href=" + r2;
    WsConcat(l.ws2, r1);
    LitConcat("href=", r2);
    QuoteConcat(l.q3, r3);
    assert r4[0] == Close(l.selfClosed)[0];
    RelMatched(name, l.q4, l.ws3, r4);
    LinkEndConcat(l.selfClosed, tail);
  }

  lemma RelAttrMatched(name: string, l: LinkLayout, tail: string)
    requires WellFormedLink(name, l)
    ensures LinkRel(RelAttr(l, HrefAttr(name, l.ws2, l.q3, l.q4, l.ws3, Close(l.selfClosed) + tail))) == Some((name, tail))
  {
    var r5 := HrefAttr(name, l.ws2, l.q3, l.q4, l.ws3, Close(l.selfClosed) + tail);
    var r4 := [l.q2] + r5;
    var r3 := "stylesheet" + r4;
    var r2 := [l.q1] + r3;
    var r1 := "rel=" + r2;
    WsConcat(l.ws1, r1);
    LitConcat("rel=", r2);
    QuoteConcat(l.q1, r3);
    LitConcat("stylesheet", r4);
    QuoteConcat(l.q2, r5);
    HrefMatched(name, l, tail);
  }

  /** Every well-formed stylesheet link is matched, whatever follows it. */
  lemma LinkMatched(name: string, l: LinkLayout, tail: string)
    requires WellFormedLink(name, l)
    ensures MatchLink(LinkTag(name, l) + tail) == Some((name, tail))
  {
    LinkTail(name, l, tail);
    LitConcat(LinkOpen, RelAttr(l, HrefAttr(name, l.ws2, l.q3, l.q4, l.ws3, Close(l.selfClosed) + tail)));
    RelAttrMatched(name, l, tail);
  }

  lemma HrefSound(s: string) returns (ws2: string, q3: char, q4: char, ws3: string, selfClosed: bool)
    requires LinkHref(s).Some?
    ensures var (name, rest) := LinkHref(s).value;
      ws2 != [] && AllSpace(ws2) && IsQuote(q3) && WellFormedRef(name, q4, ws3) &&
      s == HrefAttr(name, ws2, q3, q4, ws3, Close(selfClosed) + rest)
  {
    var (ws, r1) := Ws(s);
    ws2 := ws;
    var r2 := Lit(r1, "href=").value;
    var r3;
    q3, r3 := Quote(r2).value.0, Quote(r2).value.1;
    q4, ws3 := RelSound(r3);
    var (name, r4) := RelRef(r3).value;
    var rest := LinkEnd(r4).value;
    selfClosed := r4 == "/>" + rest;
    assert r4 == Close(selfClosed) + rest;
  }

  lemma RelAttrSound(s: string) returns (l: LinkLayout)
    requires LinkRel(s).Some?
    ensures var (name, rest) := LinkRel(s).value;
      WellFormedLink(name, l) && s == RelAttr(l, HrefAttr(name, l.ws2, l.q3, l.q4, l.ws3, Close(l.selfClosed) + rest))
  {
    var (ws1, r1) := Ws(s);
    var r2 := Lit(r1, "rel=").value;
    var (q1, r3) := Quote(r2).value;
    var r4 := Lit(r3, "stylesheet").value;
    var (q2, r5) := Quote(r4).value;
    var ws2, q3, q4, ws3, selfClosed := HrefSound(r5);
    l := LinkLayout(ws1, q1, q2, ws2, q3, q4, ws3, selfClosed);
  }

  /** Only well-formed stylesheet links are matched: in particular an
      `href` that does not start with `./` never is. */
  lemma LinkSound(s: string) returns (l: LinkLayout)
    requires MatchLink(s).Some?
    ensures var (name, rest) := MatchLink(s).value;
      WellFormedLink(name, l) && s == LinkTag(name, l) + rest
  {
    var r1 := Lit(s, LinkOpen).value;
    l := RelAttrSound(r1);
    var (name, rest) := MatchLink(s).value;
    LinkTail(name, l, rest);
  }

  // ---------------------------------------------------------------------
  // The two passes

  /** The callback: the content of the file the tag names wrapped in
      `open` and `close` when it is not empty, the tag itself otherwise. */
  function Inlined(tag: string, content: string, open: string, close: string): string {
    if content != [] then open + (content + close) else tag
  }

  /** The script pass: `html.replace(scriptRegex, ...)`. */
  function InlineScripts(s: string, files: ProjectFiles): string
    decreases |s|
  {
    if s == [] then []
    else match MatchScript(s)
      case Some((name, rest)) =>
        Inlined(s[..|s| - |rest|], Resolve(files, name), "<script>", "</script>") + InlineScripts(rest, files)
      case None => [s[0]] + InlineScripts(s[1..], files)
  }

  /** The stylesheet pass: `html.replace(linkRegex, ...)`. */
  function InlineStyles(s: string, files: ProjectFiles): string
    decreases |s|
  {
    if s == [] then []
    else match MatchLink(s)
      case Some((name, rest)) =>
        Inlined(s[..|s| - |rest|], Resolve(files, name), "<style>", "</style>") + InlineStyles(rest, files)
      case None => [s[0]] + InlineStyles(s[1..], files)
  }

  /** `generateSource`: nothing without an entry file with content;
      otherwise its text with the scripts inlined first and the
      stylesheets after. */
  function GenerateSource(files: ProjectFiles): (r: Option<string>)
    ensures r.None? <==> MainHtmlFile(files).None? || Content(files, MainHtmlFile(files).value) == []
    ensures r.Some? ==>
      r.value == InlineStyles(InlineScripts(Content(files, MainHtmlFile(files).value), files), files)
  {
    match MainHtmlFile(files)
    case None => None
    case Some(main) =>
      var html := Content(files, main);
      if html == [] then None
      else Some(InlineStyles(InlineScripts(html, files), files))
  }

  /** A script tag is replaced by the content of the first file whose name
      ends with its file name, and stays as written when that content is
      empty; the pass goes on after the tag. */
  lemma ScriptInlined(files: ProjectFiles, name: string, l: ScriptLayout, tail: string)
    requires WellFormedScript(name, l)
    ensures var tag := ScriptTag(name, l);
      var c := Resolve(files, name);
      InlineScripts(tag + tail, files)
      == (if c != [] then "<script>" + (c + "</script>") else tag) + InlineScripts(tail, files)
  {
    var tag := ScriptTag(name, l);
    ScriptMatched(name, l, tail);
    assert (tag + tail)[..|tag + tail| - |tail|] == tag;
  }

  /** The same for a stylesheet link, which becomes a `style` element. */
  lemma LinkInlined(files: ProjectFiles, name: string, l: LinkLayout, tail: string)
    requires WellFormedLink(name, l)
    ensures var tag := LinkTag(name, l);
      var c := Resolve(files, name);
      InlineStyles(tag + tail, files)
      == (if c != [] then "<style>" + (c + "</style>") else tag) + InlineStyles(tail, files)
  {
    var tag := LinkTag(name, l);
    LinkMatched(name, l, tail);
    assert (tag + tail)[..|tag + tail| - |tail|] == tag;
  }

  /** A tag naming a file no project file ends with is left as written,
      unless the project has a file with the empty name (the lookup falls
      back to that key). */
  lemma UnknownScriptKept(files: ProjectFiles, name: string, l: ScriptLayout, tail: string)
    requires WellFormedScript(name, l)
    requires forall k :: k in Keys(files) ==> !EndsWith(k, name)
    requires "" !in Keys(files)
    ensures InlineScripts(ScriptTag(name, l) + tail, files) == ScriptTag(name, l) + InlineScripts(tail, files)
  {
    ScriptInlined(files, name, l, tail);
  }

  lemma UnknownLinkKept(files: ProjectFiles, name: string, l: LinkLayout, tail: string)
    requires WellFormedLink(name, l)
    requires forall k :: k in Keys(files) ==> !EndsWith(k, name)
    requires "" !in Keys(files)
    ensures InlineStyles(LinkTag(name, l) + tail, files) == LinkTag(name, l) + InlineStyles(tail, files)
  {
    LinkInlined(files, name, l, tail);
  }

  /** No tag starts at a character other than `<`. */
  lemma NoTagHere(s: string)
    requires s != [] && s[0] != '<'
    ensures MatchScript(s).None? && MatchLink(s).None?
  {
    if |ScriptOpen| <= |s| {
      assert s[..|ScriptOpen|][0] == s[0];
    }
    if |LinkOpen| <= |s| {
      assert s[..|LinkOpen|][0] == s[0];
    }
  }

  /** A pass with no tag at the start copies the first character. */
  lemma ScriptStep(s: string, files: ProjectFiles)
    requires s != [] && MatchScript(s).None?
    ensures InlineScripts(s, files) == [s[0]] + InlineScripts(s[1..], files)
  {
  }

  lemma StyleStep(s: string, files: ProjectFiles)
    requires s != [] && MatchLink(s).None?
    ensures InlineStyles(s, files) == [s[0]] + InlineStyles(s[1..], files)
  {
  }

  /** No script tag at any position of `pre`: then none at the start, nor
      at any position of `pre[1..]`. */
  predicate NoScriptIn(pre: string, rest: string) {
    forall k :: 0 <= k < |pre| ==> MatchScript(pre[k..] + rest).None?
  }

  predicate NoLinkIn(pre: string, rest: string) {
    forall k :: 0 <= k < |pre| ==> MatchLink(pre[k..] + rest).None?
  }

  lemma NoScriptDrop(pre: string, rest: string)
    requires pre != [] && NoScriptIn(pre, rest)
    ensures MatchScript(pre + rest).None? && NoScriptIn(pre[1..], rest)
  {
    assert pre[0..] == pre;
    forall k | 0 <= k < |pre[1..]|
      ensures MatchScript(pre[1..][k..] + rest).None?
    {
      assert pre[1..][k..] == pre[k + 1..];
    }
  }

  lemma NoLinkDrop(pre: string, rest: string)
    requires pre != [] && NoLinkIn(pre, rest)
    ensures MatchLink(pre + rest).None? && NoLinkIn(pre[1..], rest)
  {
    assert pre[0..] == pre;
    forall k | 0 <= k < |pre[1..]|
      ensures MatchLink(pre[1..][k..] + rest).None?
    {
      assert pre[1..][k..] == pre[k + 1..];
    }
  }

  /** Text at none of whose positions a script tag is matched passes
      through the script pass unchanged, whatever `<` it holds. */
  lemma {:induction false} UnmatchedScripts(pre: string, rest: string, files: ProjectFiles)
    requires NoScriptIn(pre, rest)
    ensures InlineScripts(pre + rest, files) == pre + InlineScripts(rest, files)
    decreases |pre|
  {
    if pre != [] {
      var s := pre + rest;
      NoScriptDrop(pre, rest);
      ScriptStep(s, files);
      assert s[0] == pre[0] && s[1..] == pre[1..] + rest;
      UnmatchedScripts(pre[1..], rest, files);
      Associative([pre[0]], pre[1..], InlineScripts(rest, files));
      assert [pre[0]] + pre[1..] == pre;
    } else {
      assert pre + rest == rest;
    }
  }

  /** The same for stylesheet links and the stylesheet pass. */
  lemma {:induction false} UnmatchedStyles(pre: string, rest: string, files: ProjectFiles)
    requires NoLinkIn(pre, rest)
    ensures InlineStyles(pre + rest, files) == pre + InlineStyles(rest, files)
    decreases |pre|
  {
    if pre != [] {
      var s := pre + rest;
      NoLinkDrop(pre, rest);
      StyleStep(s, files);
      assert s[0] == pre[0] && s[1..] == pre[1..] + rest;
      UnmatchedStyles(pre[1..], rest, files);
      Associative([pre[0]], pre[1..], InlineStyles(rest, files));
      assert [pre[0]] + pre[1..] == pre;
    } else {
      assert pre + rest == rest;
    }
  }

  /** A script whose `src` does not start with `./` (`js/a.js`, an URL) is
      never matched, so it is never inlined. */
  lemma NonRelativeScript(ws: string, q: char, r: string)
    requires ws != [] && AllSpace(ws) && IsQuote(q) && !StartsWith(r, "./")
    ensures MatchScript(ScriptOpen + (ws + ("src=" + ([q] + r)))).None?
  {
    var u := "src=" + ([q] + r);
    LitConcat(ScriptOpen, ws + u);
    assert u[0] == 's';
    WsConcat(ws, u);
    LitConcat("src=", [q] + r);
    QuoteConcat(q, r);
  }

  /** The `href` attribute of a link with a reference not starting with
      `./` is not matched. */
  lemma NonRelativeHref(ws2: string, q3: char, r: string)
    requires ws2 != [] && AllSpace(ws2) && IsQuote(q3) && !StartsWith(r, "./")
    ensures LinkHref(ws2 + ("href=" + ([q3] + r))).None?
  {
    var h := "href=" + ([q3] + r);
    assert h[0] == 'h';
    WsConcat(ws2, h);
    LitConcat("href=", [q3] + r);
    QuoteConcat(q3, r);
  }

  /** A stylesheet link whose `href` does not start with `./` is never
      matched, so it is never inlined. */
  lemma NonRelativeLink(ws1: string, q1: char, q2: char, ws2: string, q3: char, r: string)
    requires ws1 != [] && AllSpace(ws1) && IsQuote(q1) && IsQuote(q2)
    requires ws2 != [] && AllSpace(ws2) && IsQuote(q3) && !StartsWith(r, "./")
    ensures MatchLink(LinkOpen + (ws1 + ("rel=" + ([q1] + ("stylesheet" + ([q2] + (ws2 + ("href=" + ([q3] + r))))))))).None?
  {
    var h := ws2 + ("href=" + ([q3] + r));
    var u := "rel=" + ([q1] + ("stylesheet" + ([q2] + h)));
    NonRelativeHref(ws2, q3, r);
    LitConcat(LinkOpen, ws1 + u);
    assert u[0] == 'r';
    WsConcat(ws1, u);
    LitConcat("rel=", [q1] + ("stylesheet" + ([q2] + h)));
    QuoteConcat(q1, "stylesheet" + ([q2] + h));
    LitConcat("stylesheet", [q2] + h);
    QuoteConcat(q2, h);
  }

  /** Text without a tag opening passes through either pass unchanged. */
  lemma PlainScripts(pre: string, rest: string, files: ProjectFiles)
    requires '<' !in pre
    ensures InlineScripts(pre + rest, files) == pre + InlineScripts(rest, files)
  {
    forall k | 0 <= k < |pre|
      ensures MatchScript(pre[k..] + rest).None?
    {
      var s := pre[k..] + rest;
      assert s[0] == pre[k] && pre[k] in pre;
      NoTagHere(s);
    }
    UnmatchedScripts(pre, rest, files);
  }

  lemma PlainStyles(pre: string, rest: string, files: ProjectFiles)
    requires '<' !in pre
    ensures InlineStyles(pre + rest, files) == pre + InlineStyles(rest, files)
  {
    forall k | 0 <= k < |pre|
      ensures MatchLink(pre[k..] + rest).None?
    {
      var s := pre[k..] + rest;
      assert s[0] == pre[k] && pre[k] in pre;
      NoTagHere(s);
    }
    UnmatchedStyles(pre, rest, files);
  }
}
