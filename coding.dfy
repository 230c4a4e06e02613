/** `parseCodeFromResponse` (services/codingPrompts.ts): the FILE blocks of a
    model's answer overwrite whole files, then its REPLACE blocks patch them,
    and each block that took effect is replaced by a marker in the text shown
    to the user. */
module CodingPrompts {
  import opened Wrappers
  import opened Strings
  import opened Files
  import opened CodeBlocks

  const Fence: string := "```"

  /** `lines.slice(1, -1)`: every line but the first and the last. */
  function Inner(lines: seq<string>): (r: seq<string>)
    ensures |lines| >= 2 ==> r == lines[1..|lines| - 1]
    ensures |lines| < 2 ==> r == []
  {
    if |lines| < 2 then [] else lines[1..|lines| - 1]
  }

  /** The content a FILE body gives its file: trimmed, and without its first
      and last lines when it starts with a Markdown fence. */
  function FileContent(body: string): string {
    var content := Trim(body);
    if StartsWith(content, Fence) then Join(Inner(Split(content, '\n')), "\n") else content
  }

  /** Code in a fence comes out of it as it went in. */
  lemma Unfenced(open: string, code: string, close: string)
    requires StartsWith(open, Fence) && '\n' !in open && '\n' !in close
    ensures var s := open + "\n" + code + "\n" + close;
      StartsWith(s, Fence) && Join(Inner(Split(s, '\n')), "\n") == code
  {
    var s := open + "\n" + code + "\n" + close;
    assert s[..|Fence|] == open[..|Fence|];
    assert s == open + ['\n'] + (code + ['\n'] + close);
    SplitConcat(open, '\n', code + ['\n'] + close);
    SplitConcat(code, '\n', close);
    SplitNoSep(open, '\n');
    SplitNoSep(close, '\n');
    var lines := Split(s, '\n');
    assert lines == [open] + (Split(code, '\n') + [close]);
    assert Inner(lines) == Split(code, '\n');
    JoinSplit(code, '\n');
  }

  /** A fence without a line break leaves nothing. */
  lemma UnfencedOneLine(content: string)
    requires StartsWith(content, Fence) && '\n' !in content
    ensures Join(Inner(Split(content, '\n')), "\n") == []
  {
    SplitNoSep(content, '\n');
  }

  /** The marker that takes the place of an applied FILE block. */
  function FileMarker(name: string): string {
    "\n> ✨ MAJ : " + name + "\n"
  }

  /** The marker that takes the place of an applied REPLACE block. */
  function PatchMarker(name: string): string {
    "\n> \U{1F6E0}\U{FE0F} PATCH : " + name + "\n"
  }

  // ---------------------------------------------------------------------
  // What the two loops compute

  /** The assignment `updatedFiles[fileName] = content` of a FILE block. */
  function FileWrite(b: FileBlock): Entry {
    (Trim(b.name), FileContent(b.body))
  }

  function FileWrites(bs: seq<FileBlock>): (es: seq<Entry>)
    ensures |es| == |bs|
    ensures forall i :: 0 <= i < |bs| ==> es[i] == FileWrite(bs[i])
    decreases |bs|
  {
    if bs == [] then [] else [FileWrite(bs[0])] + FileWrites(bs[1..])
  }

  /** The first loop, over the FILE blocks in order. */
  function ApplyFiles(files: ProjectFiles, clean: string, bs: seq<FileBlock>): (ProjectFiles, string)
    decreases |bs|
  {
    if bs == [] then (files, clean)
    else
      var (name, content) := FileWrite(bs[0]);
      ApplyFiles(Set(files, name, content), ReplaceFirst(clean, bs[0].whole, FileMarker(name)), bs[1..])
  }

  /** The test of the second loop: the target has a non-empty content that
      includes the trimmed search text. */
  predicate Applies(files: ProjectFiles, b: ReplaceBlock) {
    var current := Content(files, Trim(b.name));
    current != [] && Contains(current, Trim(b.search))
  }

  /** The content a REPLACE block gives its target when it applies. */
  function Patched(files: ProjectFiles, b: ReplaceBlock): string {
    ReplaceFirst(Content(files, Trim(b.name)), Trim(b.search), Trim(b.replacement))
  }

  /** The second loop, over the REPLACE blocks in order. */
  function ApplyPatches(files: ProjectFiles, clean: string, bs: seq<ReplaceBlock>): (ProjectFiles, string)
    decreases |bs|
  {
    if bs == [] then (files, clean)
    else if Applies(files, bs[0]) then
      var name := Trim(bs[0].name);
      ApplyPatches(Set(files, name, Patched(files, bs[0])), ReplaceFirst(clean, bs[0].whole, PatchMarker(name)), bs[1..])
    else ApplyPatches(files, clean, bs[1..])
  }

  /** The result of `parseCodeFromResponse(text, currentFiles)`: the files
      and the clean text. */
  function Parse(text: string, currentFiles: ProjectFiles): (ProjectFiles, string) {
    var (files, clean) := ApplyFiles(Merge(Empty, currentFiles), text, FileBlocks(text, 0));
    ApplyPatches(files, clean, ReplaceBlocks(text, 0))
  }

  lemma ApplyFilesStep(files: ProjectFiles, clean: string, b: FileBlock, rest: seq<FileBlock>)
    ensures ApplyFiles(files, clean, [b] + rest)
         == ApplyFiles(Set(files, Trim(b.name), FileContent(b.body)), ReplaceFirst(clean, b.whole, FileMarker(Trim(b.name))), rest)
  {
    assert ([b] + rest)[1..] == rest;
  }

  lemma ApplyPatchesStep(files: ProjectFiles, clean: string, b: ReplaceBlock, rest: seq<ReplaceBlock>)
    ensures var name := Trim(b.name);
      var current := Content(files, name);
      var search := Trim(b.search);
      ApplyPatches(files, clean, [b] + rest)
      == if current != [] && Contains(current, search) then
           ApplyPatches(Set(files, name, ReplaceFirst(current, search, Trim(b.replacement))),
                        ReplaceFirst(clean, b.whole, PatchMarker(name)), rest)
         else ApplyPatches(files, clean, rest)
  {
    assert ([b] + rest)[1..] == rest;
  }

  /** `parseCodeFromResponse`: the two `exec` loops one after the other. */
  method ParseCodeFromResponse(text: string, currentFiles: ProjectFiles) returns (updatedFiles: ProjectFiles, cleanText: string)
    ensures (updatedFiles, cleanText) == Parse(text, currentFiles)
  {
    updatedFiles, cleanText := ApplyFileBlocks(text, Merge(Empty, currentFiles));
    updatedFiles, cleanText := ApplyReplaceBlocks(text, updatedFiles, cleanText);
  }

  /** The first loop: `fileRegex.exec(text)` is `Find` from `lastIndex`,
      which each match leaves at its end. */
  method ApplyFileBlocks(text: string, files: ProjectFiles) returns (updatedFiles: ProjectFiles, cleanText: string)
    ensures (updatedFiles, cleanText) == ApplyFiles(files, text, FileBlocks(text, 0))
  {
    updatedFiles, cleanText := files, text;
    var lastIndex: nat := 0;
    ghost var goal := ApplyFiles(files, text, FileBlocks(text, 0));
    while true
      invariant lastIndex <= |text|
      invariant ApplyFiles(updatedFiles, cleanText, FileBlocks(text, lastIndex)) == goal
      decreases |text| - lastIndex
    {
      var found := Find(FilePattern, text, lastIndex);
      if found.None? {
        break;
      }
      var p, m := found.value.0, found.value.1;
      var next := p + m.len;
      FileBlocksStep(text, lastIndex, p, m, next);
      ApplyFilesStep(updatedFiles, cleanText, FileBlock(text[p..next], m.groups[0], m.groups[1]), FileBlocks(text, next));
      var fileName := Trim(m.groups[0]);
      updatedFiles := Set(updatedFiles, fileName, FileContent(m.groups[1]));
      cleanText := ReplaceFirst(cleanText, text[p..next], FileMarker(fileName));
      lastIndex := next;
    }
  }

  /** The second loop, over `replaceRegex` in the same way. */
  method ApplyReplaceBlocks(text: string, files: ProjectFiles, clean: string) returns (updatedFiles: ProjectFiles, cleanText: string)
    ensures (updatedFiles, cleanText) == ApplyPatches(files, clean, ReplaceBlocks(text, 0))
  {
    updatedFiles, cleanText := files, clean;
    var lastIndex: nat := 0;
    ghost var goal := ApplyPatches(files, clean, ReplaceBlocks(text, 0));
    while true
      invariant lastIndex <= |text|
      invariant ApplyPatches(updatedFiles, cleanText, ReplaceBlocks(text, lastIndex)) == goal
      decreases |text| - lastIndex
    {
      var found := Find(ReplacePattern, text, lastIndex);
      if found.None? {
        break;
      }
      var p, m := found.value.0, found.value.1;
      var next := p + m.len;
      ReplaceBlocksStep(text, lastIndex, p, m, next);
      ApplyPatchesStep(updatedFiles, cleanText, ReplaceBlock(text[p..next], m.groups[0], m.groups[1], m.groups[2]), ReplaceBlocks(text, next));
      var fileName := Trim(m.groups[0]);
      var searchText := Trim(m.groups[1]);
      var replaceText := Trim(m.groups[2]);
      var current := Content(updatedFiles, fileName);
      if current != [] && Contains(current, searchText) {
        updatedFiles := Set(updatedFiles, fileName, ReplaceFirst(current, searchText, replaceText));
        cleanText := ReplaceFirst(cleanText, text[p..next], PatchMarker(fileName));
      }
      lastIndex := next;
    }
  }

  // ---------------------------------------------------------------------
  // What the parse promises

  /** The files the first loop leaves are its writes assigned in order. */
  lemma {:induction false} ApplyFilesWrites(files: ProjectFiles, clean: string, bs: seq<FileBlock>)
    ensures ApplyFiles(files, clean, bs).0 == AssignAll(files, FileWrites(bs))
    decreases |bs|
  {
    if bs != [] {
      var (name, content) := FileWrite(bs[0]);
      ApplyFilesWrites(Set(files, name, content), ReplaceFirst(clean, bs[0].whole, FileMarker(name)), bs[1..]);
      assert FileWrites(bs)[1..] == FileWrites(bs[1..]);
    }
  }

  /** When several FILE blocks name a file, the last one wins; a file no
      FILE block names keeps its content. */
  lemma FileLoopGet(files: ProjectFiles, clean: string, bs: seq<FileBlock>, k: string)
    ensures Get(ApplyFiles(files, clean, bs).0, k) == match LastAssigned(FileWrites(bs), k)
      case Some(v) => Some(v)
      case None => Get(files, k)
  {
    ApplyFilesWrites(files, clean, bs);
    AssignAllGet(files, FileWrites(bs), k);
  }

  /** The FILE loop keeps the keys it was given, in their order, in front. */
  lemma FileLoopKeys(files: ProjectFiles, clean: string, bs: seq<FileBlock>)
    ensures var r := ApplyFiles(files, clean, bs).0;
      |r| >= |files| && Keys(r)[..|files|] == Keys(files)
  {
    ApplyFilesWrites(files, clean, bs);
    AssignAllKeys(files, FileWrites(bs));
  }

  /** A file that no FILE block names is left as it was. */
  lemma FileLoopOther(files: ProjectFiles, clean: string, bs: seq<FileBlock>, k: string)
    requires forall b :: b in bs ==> Trim(b.name) != k
    ensures Get(ApplyFiles(files, clean, bs).0, k) == Get(files, k)
  {
    FileLoopGet(files, clean, bs, k);
    var es := FileWrites(bs);
    forall i | 0 <= i < |es|
      ensures es[i].0 != k
    {
      assert bs[i] in bs;
    }
  }

  /** Patches never create a file: only a file with content can be patched. */
  lemma {:induction false} PatchLoopKeys(files: ProjectFiles, clean: string, bs: seq<ReplaceBlock>)
    ensures Keys(ApplyPatches(files, clean, bs).0) == Keys(files)
    decreases |bs|
  {
    if bs != [] {
      var name := Trim(bs[0].name);
      if Applies(files, bs[0]) {
        assert Get(files, name).Some?;
        PatchLoopKeys(Set(files, name, Patched(files, bs[0])), ReplaceFirst(clean, bs[0].whole, PatchMarker(name)), bs[1..]);
      } else {
        PatchLoopKeys(files, clean, bs[1..]);
      }
    }
  }

  /** A file that no REPLACE block names is left as it was. */
  lemma {:induction false} PatchLoopOther(files: ProjectFiles, clean: string, bs: seq<ReplaceBlock>, k: string)
    requires forall b :: b in bs ==> Trim(b.name) != k
    ensures Get(ApplyPatches(files, clean, bs).0, k) == Get(files, k)
    decreases |bs|
  {
    if bs != [] {
      var name := Trim(bs[0].name);
      assert bs[0] in bs;
      assert forall b :: b in bs[1..] ==> b in bs;
      if Applies(files, bs[0]) {
        PatchLoopOther(Set(files, name, Patched(files, bs[0])), ReplaceFirst(clean, bs[0].whole, PatchMarker(name)), bs[1..], k);
      } else {
        PatchLoopOther(files, clean, bs[1..], k);
      }
    }
  }

  /** A REPLACE block whose search text occurs in its target replaces the
      first occurrence and keeps the text around it. */
  lemma PatchFirstOccurrence(files: ProjectFiles, b: ReplaceBlock, pre: string, post: string)
    requires Content(files, Trim(b.name)) == pre + (Trim(b.search) + post)
    requires pre + (Trim(b.search) + post) != []
    requires forall k :: 0 <= k < |pre| ==> !StartsAt(pre + (Trim(b.search) + post), k, Trim(b.search))
    ensures Applies(files, b)
    ensures Patched(files, b) == pre + (Trim(b.replacement) + post)
  {
    var s := pre + (Trim(b.search) + post);
    PaddedSlices(pre, Trim(b.search), post);
    IndexOfFromExact(s, Trim(b.search), 0, |pre|);
    ReplaceFirstAt(pre, Trim(b.search), post, Trim(b.replacement));
  }

  /** A REPLACE block that does not apply changes neither the files nor the
      text shown. */
  lemma PatchSkipped(files: ProjectFiles, clean: string, b: ReplaceBlock, rest: seq<ReplaceBlock>)
    requires !Applies(files, b)
    ensures ApplyPatches(files, clean, [b] + rest) == ApplyPatches(files, clean, rest)
  {
    ApplyPatchesStep(files, clean, b, rest);
  }

  /** Every file the parse does not target keeps its content. */
  lemma ParseOther(text: string, currentFiles: ProjectFiles, k: string)
    requires forall b :: b in FileBlocks(text, 0) ==> Trim(b.name) != k
    requires forall b :: b in ReplaceBlocks(text, 0) ==> Trim(b.name) != k
    ensures Get(Parse(text, currentFiles).0, k) == Get(currentFiles, k)
  {
    MergeEmpty(currentFiles);
    var (files, clean) := ApplyFiles(currentFiles, text, FileBlocks(text, 0));
    FileLoopOther(currentFiles, text, FileBlocks(text, 0), k);
    PatchLoopOther(files, clean, ReplaceBlocks(text, 0), k);
  }

  /** The parse keeps every file it was given, in its order, in front. */
  lemma ParseKeys(text: string, currentFiles: ProjectFiles)
    ensures var r := Parse(text, currentFiles).0;
      |r| >= |currentFiles| && Keys(r)[..|currentFiles|] == Keys(currentFiles)
  {
    MergeEmpty(currentFiles);
    var (files, clean) := ApplyFiles(currentFiles, text, FileBlocks(text, 0));
    FileLoopKeys(currentFiles, text, FileBlocks(text, 0));
    PatchLoopKeys(files, clean, ReplaceBlocks(text, 0));
  }

  /** The REPLACE blocks run after every FILE block, wherever they stand in
      the text: the first one patches the content the FILE blocks left,
      even when it comes before the FILE block that wrote it. */
  lemma PatchSeesWrites(text: string, currentFiles: ProjectFiles, b: ReplaceBlock, rest: seq<ReplaceBlock>, v: string)
    requires ReplaceBlocks(text, 0) == [b] + rest
    requires LastAssigned(FileWrites(FileBlocks(text, 0)), Trim(b.name)) == Some(v)
    requires v != [] && Contains(v, Trim(b.search))
    ensures var (files, clean) := ApplyFiles(Merge(Empty, currentFiles), text, FileBlocks(text, 0));
      var name := Trim(b.name);
      Parse(text, currentFiles)
      == ApplyPatches(Set(files, name, ReplaceFirst(v, Trim(b.search), Trim(b.replacement))),
                      ReplaceFirst(clean, b.whole, PatchMarker(name)), rest)
  {
    var (files, clean) := ApplyFiles(Merge(Empty, currentFiles), text, FileBlocks(text, 0));
    FileLoopGet(Merge(Empty, currentFiles), text, FileBlocks(text, 0), Trim(b.name));
    ApplyPatchesStep(files, clean, b, rest);
  }

  /** A text with no block opening changes nothing. */
  lemma ParseNoBlocks(text: string, currentFiles: ProjectFiles)
    requires !Contains(text, FileOpen) && !Contains(text, ReplaceOpen)
    ensures Parse(text, currentFiles) == (currentFiles, text)
  {
    FilePatternShape();
    ReplacePatternShape();
    FindNone(FilePattern, text, 0);
    FindNone(ReplacePattern, text, 0);
    MergeEmpty(currentFiles);
  }

  /** No occurrence of a text starting with `[` begins inside a prefix
      without `[`. */
  lemma NoneInPrefix(pre: string, rest: string, w: string)
    requires forall i :: 0 <= i < |pre| ==> pre[i] != '['
    requires w != [] && w[0] == '['
    ensures forall k :: 0 <= k < |pre| ==> !StartsAt(pre + rest, k, w)
  {
    forall k | 0 <= k < |pre|
      ensures !StartsAt(pre + rest, k, w)
    {
      if k + |w| <= |pre + rest| {
        assert (pre + rest)[k..k + |w|][0] == pre[k];
      }
    }
  }

  /** The first loop sees a FILE block that follows a text without `[`. */
  lemma FirstFileBlock(pre: string, ws1: string, name: string, ws2: string, body: string, post: string)
    requires WellFormedFile(ws1, name, ws2, body)
    requires forall i :: 0 <= i < |pre| ==> pre[i] != '['
    ensures var blk := FileBlockText(ws1, name, ws2, body);
      Find(FilePattern, pre + (blk + post), 0) == Some((|pre|, Matched(|blk|, [name, body])))
  {
    var blk := FileBlockText(ws1, name, ws2, body);
    var text := pre + (blk + post);
    FilePatternShape();
    NoneInPrefix(pre, blk + post, FileOpen);
    forall k | 0 <= k < |pre|
      ensures MatchAt(FilePattern, text[k..]).None?
    {
      StartsAtSuffix(text, k, FileOpen);
    }
    assert text[|pre|..] == blk + post;
    MatchFilePrinted(ws1, name, ws2, body, post);
    FindAt(FilePattern, text, 0, |pre|);
  }

  /** Nothing is found after the last `[FILE:`. */
  lemma NoFileBlockAfter(text: string, e: nat)
    requires e <= |text| && !Contains(text[e..], FileOpen)
    ensures FileBlocks(text, e) == []
  {
    FilePatternShape();
    forall k | e <= k <= |text|
      ensures !StartsAt(text, k, FileOpen)
    {
      StartsAtDrop(text, e, k, FileOpen);
    }
    FindNone(FilePattern, text, e);
  }

  /** The FILE blocks of a text with one FILE block. */
  lemma OnlyFileBlock(pre: string, ws1: string, name: string, ws2: string, body: string, post: string)
    requires WellFormedFile(ws1, name, ws2, body)
    requires forall i :: 0 <= i < |pre| ==> pre[i] != '['
    requires !Contains(post, FileOpen)
    ensures var blk := FileBlockText(ws1, name, ws2, body);
      FileBlocks(pre + (blk + post), 0) == [FileBlock(blk, name, body)]
  {
    var blk := FileBlockText(ws1, name, ws2, body);
    var text := pre + (blk + post);
    var next := |pre| + |blk|;
    FirstFileBlock(pre, ws1, name, ws2, body, post);
    FileBlocksStep(text, 0, |pre|, Matched(|blk|, [name, body]), next);
    MiddleSlices(pre, blk, post, next);
    NoFileBlockAfter(text, next);
  }

  /** A block that opens with `[` after a text without `[` is replaced in
      place by its marker. */
  lemma MarkBlock(pre: string, blk: string, post: string, marker: string)
    requires forall i :: 0 <= i < |pre| ==> pre[i] != '['
    requires blk != [] && blk[0] == '['
    ensures ReplaceFirst(pre + (blk + post), blk, marker) == pre + (marker + post)
  {
    NoneInPrefix(pre, blk + post, blk);
    ReplaceFirstAt(pre, blk, post, marker);
  }

  /** A text with one FILE block: the file gets the block's content and the
      block is replaced by its marker, the text around it kept. */
  lemma OneFileBlock(files: ProjectFiles, pre: string, ws1: string, name: string, ws2: string, body: string, post: string)
    requires WellFormedFile(ws1, name, ws2, body)
    requires forall i :: 0 <= i < |pre| ==> pre[i] != '['
    requires !Contains(post, FileOpen)
    ensures var blk := FileBlockText(ws1, name, ws2, body);
      var text := pre + (blk + post);
      && FileBlocks(text, 0) == [FileBlock(blk, name, body)]
      && ApplyFiles(files, text, FileBlocks(text, 0))
         == (Set(files, Trim(name), FileContent(body)), pre + (FileMarker(Trim(name)) + post))
  {
    var blk := FileBlockText(ws1, name, ws2, body);
    OnlyFileBlock(pre, ws1, name, ws2, body, post);
    ApplyFilesStep(files, pre + (blk + post), FileBlock(blk, name, body), []);
    MarkBlock(pre, blk, post, FileMarker(Trim(name)));
  }
}
