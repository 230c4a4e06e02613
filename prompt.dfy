/** `getCodingSystemPrompt` (services/codingPrompts.ts): the system prompt
    of a coding turn, with the list of the project's files and an excerpt
    of every file that is not an image. */
module SystemPrompt {
  import opened Strings
  import opened Files
  import opened Types

  /** `IMAGE_EXTENSIONS`. */
  const ImageExtensions: seq<string> := ["png", "jpg", "jpeg", "gif", "xpm", "ico", "svg", "webp"]

  /** The number of characters of a file the excerpt keeps. */
  const ExcerptLength: nat := 8000

  /** `parts.pop() || ''`: the last part, or the empty string. */
  function LastPart(parts: seq<string>): (r: string)
    ensures parts != [] ==> r == parts[|parts| - 1]
  {
    if parts == [] then "" else parts[|parts| - 1]
  }

  /** `name.split('.').pop()?.toLowerCase() || ''`. */
  function Extension(name: string): string {
    ToLower(LastPart(Split(name, '.')))
  }

  /** The test of the `filter`. */
  predicate IsImage(name: string) {
    Extension(name) in ImageExtensions
  }

  /** The extension is what follows the last dot, lower-cased. */
  lemma ExtensionAfterDot(stem: string, ext: string)
    requires '.' !in ext
    ensures Extension(stem + "." + ext) == ToLower(ext)
  {
    SplitConcat(stem, '.', ext);
    SplitNoSep(ext, '.');
    assert stem + "." + ext == stem + ['.'] + ext;
  }

  /** A name without a dot is its own extension. */
  lemma ExtensionNoDot(name: string)
    requires '.' !in name
    ensures Extension(name) == ToLower(name)
  {
    SplitNoSep(name, '.');
  }

  /** Upper-case extensions count. */
  lemma UpperCaseImage(stem: string)
    ensures IsImage(stem + ".PNG")
  {
    ExtensionAfterDot(stem, "PNG");
    assert stem + ".PNG" == stem + "." + "PNG";
    assert ToLower("PNG") == "png";
  }

  /** The image test ignores the case of the extension. */
  lemma ImageIgnoresCase(stem: string, ext: string)
    requires '.' !in ext
    ensures IsImage(stem + "." + ext) <==> IsImage(stem + "." + ToLower(ext))
  {
    var low := ToLower(ext);
    forall k | 0 <= k < |low|
      ensures low[k] != '.'
    {
      assert ext[k] in ext;
    }
    ExtensionAfterDot(stem, ext);
    ExtensionAfterDot(stem, low);
    ToLowerIdempotent(ext);
  }

  /** A name without a dot is read as an extension of its own. */
  lemma BareExtensionImage()
    ensures IsImage("svg")
  {
    ExtensionNoDot("svg");
    assert ToLower("svg") == "svg";
  }

  /** `content.substring(0, 8000)`. */
  function Excerpt(content: string): (r: string)
    ensures |r| <= ExcerptLength && StartsWith(content, r)
    ensures |content| <= ExcerptLength ==> r == content
    ensures |content| > ExcerptLength ==> |r| == ExcerptLength
  {
    Take(content, ExcerptLength)
  }

  /** One entry of the context: the first characters of the file between its
      path and `[END_PATH]`. */
  function PathBlock(e: Entry): string {
    "[PATH:" + e.0 + "]\n" + Excerpt(e.1) + "\n[END_PATH]"
  }

  /** The entries the `filter` keeps, in order. */
  function Kept(es: seq<Entry>): (r: seq<Entry>)
    ensures |r| <= |es|
    ensures forall e :: e in r <==> e in es && !IsImage(e.0)
    decreases |es|
  {
    if es == [] then []
    else if IsImage(es[0].0) then Kept(es[1..])
    else [es[0]] + Kept(es[1..])
  }

  /** The filter keeps the order of `Object.entries`. */
  lemma {:induction false} KeptConcat(xs: seq<Entry>, ys: seq<Entry>)
    ensures Kept(xs + ys) == Kept(xs) + Kept(ys)
    decreases |xs|
  {
    if xs == [] {
      assert xs + ys == ys;
    } else {
      assert (xs + ys)[0] == xs[0] && (xs + ys)[1..] == xs[1..] + ys;
      KeptConcat(xs[1..], ys);
    }
  }

  /** The entries of the `map`. */
  function PathBlocks(es: seq<Entry>): (r: seq<string>)
    ensures |r| == |es|
    ensures forall i :: 0 <= i < |es| ==> r[i] == PathBlock(es[i])
  {
    seq(|es|, i requires 0 <= i < |es| => PathBlock(es[i]))
  }

  /** `fileContext`. */
  function FileContext(files: ProjectFiles): string {
    Join(PathBlocks(Kept(files)), "\n")
  }

  /** `structure || "Nouveau projet."`. */
  function Listing(files: ProjectFiles): string {
    var structure := Join(Keys(files), "\n");
    if structure == "" then "Nouveau projet." else structure
  }

  /** An empty project is announced as new. */
  lemma ListingEmpty(files: ProjectFiles)
    requires files == Empty
    ensures Listing(files) == "Nouveau projet."
  {
  }

  /** The listing names every file, one per line, in the order of
      `Object.keys`, when some name is non-empty and none holds a line
      break. */
  lemma ListingLines(files: ProjectFiles)
    requires exists i :: 0 <= i < |files| && files[i].0 != ""
    requires forall i :: 0 <= i < |files| ==> '\n' !in files[i].0
    ensures Split(Listing(files), '\n') == Keys(files)
  {
    var keys := Keys(files);
    SplitJoin(keys, '\n');
    var i :| 0 <= i < |files| && files[i].0 != "";
    assert Split(Join(keys, "\n"), '\n')[i] != "";
    assert Split([], '\n') == [[]];
  }

  /** `sender.includes('Alpha')`. */
  predicate IsAlpha(sender: Sender) {
    Contains(sender.Value(), "Alpha")
  }

  /** The identity line. */
  function Identity(sender: Sender): string {
    if IsAlpha(sender) then "ARCHITECTE & LEAD DESIGNER (Alpha)" else "INGÉNIEUR PRINCIPAL (Omega)"
  }

  /** No value of `Sender` holds a lower-case `l`, so none includes
      `Alpha`: every coding turn gets the Omega identity. */
  lemma AlwaysOmega(sender: Sender)
    ensures !IsAlpha(sender)
    ensures Identity(sender) == "INGÉNIEUR PRINCIPAL (Omega)"
  {
    var v := sender.Value();
    assert forall i :: 0 <= i < |v| ==> v[i] != 'l';
    forall k | 0 <= k <= |v|
      ensures !StartsAt(v, k, "Alpha")
    {
      if k + 5 <= |v| {
        assert v[k..k + 5][1] == v[k + 1];
      }
    }
  }

  /** The fixed parts of the prompt, around the identity, the listing and
      the context. */
  const Preamble: string := "Tu es un expert en développement de jeux chez Google. \nIdentité : "
  const Rules: string := ".\n\nTRAVAIL COLLABORATIF :\n1. GDD : Si GDD.md est absent, Alpha le crée. Omega le valide.\n2. CODE PRO : Toujours utiliser requestAnimationFrame, Canvas, et un système de particules.\n3. MODIFICATIONS :\n   - [FILE:nom.ext] code complet [END_FILE]\n   - [REPLACE:nom.ext] SEARCH: (code) REPLACE: (code) [END_REPLACE]\n\nRESTE CONCIS. Pas de blabla inutile.\n\nPROJET :\n"
  const ContextHeading: string := "\n\nCONTEXTE :\n"

  /** The prompt: the fixed instructions, the identity, the listing and the
      context. */
  function CodingSystemPrompt(sender: Sender, files: ProjectFiles): string {
    Preamble + (Identity(sender) + (Rules + (Listing(files) + (ContextHeading + FileContext(files)))))
  }

  /** The system prompt does not depend on which agent it is for. */
  lemma SameForEveryAgent(a: Sender, b: Sender, files: ProjectFiles)
    ensures CodingSystemPrompt(a, files) == CodingSystemPrompt(b, files)
  {
    AlwaysOmega(a);
    AlwaysOmega(b);
  }
}
