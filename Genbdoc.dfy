/**
 * The package module of the converter: it classifies each notebook cell,
 * renders it to a Markdown fragment and joins the fragments into one
 * document, closing an open `python` fence before any block that follows an
 * interactive snippet.
 */
module Genbdoc {
  import opened Text
  import opened Notebook

  const Fence := "```\n"
  const PythonFence := "```python\n"
  const TracebackMarker := "Traceback "
  const PassPrompt := ">>> pass"

  /** `__end_snippet`: the fence line that closes an open snippet block. */
  function EndSnippet(previousWasSnippet: bool): string {
    if previousWasSnippet then Fence else ""
  }

  // =====================================================================
  // Cell classifier

  predicate IsCodeCellWithSourceContent(c: Cell) {
    c.cellType == Code && |c.source| > 0
  }

  predicate IsCodeCellStartingWith(c: Cell, prefix: string) {
    IsCodeCellWithSourceContent(c) && StartsWith(c.source[0], prefix)
  }

  predicate IsShellCommandCodeCell(c: Cell) {
    IsCodeCellStartingWith(c, "!")
  }

  /** The file test reads `source[1]` of every code cell whose first line starts with `%%`. */
  predicate MagicLineReadable(c: Cell) {
    IsCodeCellStartingWith(c, "%%") ==> |c.source| > 1
  }

  predicate IsPythonFileCodeCell(c: Cell)
    requires MagicLineReadable(c)
  {
    IsCodeCellStartingWith(c, "%%") && StartsWith(c.source[1], "#")
  }

  predicate IsPythonReplCodeCell(c: Cell)
    requires MagicLineReadable(c)
  {
    IsCodeCellWithSourceContent(c) && !(IsShellCommandCodeCell(c) || IsPythonFileCodeCell(c))
  }

  /**
   * A code cell with source is exactly one of shell command, python file and
   * interactive snippet; a markdown cell or a code cell without source is none.
   */
  lemma ClassificationPartition(c: Cell)
    requires MagicLineReadable(c)
    ensures IsCodeCellWithSourceContent(c) ==>
      (IsShellCommandCodeCell(c) || IsPythonFileCodeCell(c) || IsPythonReplCodeCell(c))
      && !(IsShellCommandCodeCell(c) && IsPythonFileCodeCell(c))
      && !(IsShellCommandCodeCell(c) && IsPythonReplCodeCell(c))
      && !(IsPythonFileCodeCell(c) && IsPythonReplCodeCell(c))
    ensures !IsCodeCellWithSourceContent(c) ==>
      !IsShellCommandCodeCell(c) && !IsPythonFileCodeCell(c) && !IsPythonReplCodeCell(c)
  {
    if IsCodeCellWithSourceContent(c) {
      BangIsNotMagic(c.source[0]);
    }
  }

  /** A line cannot start with both `!` and `%%`. */
  lemma BangIsNotMagic(s: string)
    ensures StartsWith(s, "!") ==> !StartsWith(s, "%%")
  {
    if StartsWith(s, "!") {
      assert s[0] == s[..1][0] == '!';
      assert |s| >= 2 ==> s[..2][0] == s[0];
    }
  }

  // =====================================================================
  // Output extractor

  /** What one output adds to the list of texts: stream text or plain result text. */
  function OutputPiece(o: Output): seq<string> {
    match o.outputType
    case Stream => [Concat(o.text)]
    case ExecuteResult => [Concat(o.plain)]
    case OtherOutput => []
  }

  /** The list the output loop builds, in output order. */
  function CollectedTexts(outputs: seq<Output>): seq<string> {
    if outputs == [] then []
    else CollectedTexts(outputs[..|outputs| - 1]) + OutputPiece(outputs[|outputs| - 1])
  }

  function JoinedOutput(outputs: seq<Output>): string {
    Concat(CollectedTexts(outputs))
  }

  /** The traceback branch reads the last line of the last output's `text`. */
  predicate TracebackReadable(outputs: seq<Output>) {
    Contains(JoinedOutput(outputs), TracebackMarker) ==>
      |outputs| > 0 && |outputs[|outputs| - 1].text| > 0
  }

  function LastLine(outputs: seq<Output>): string
    requires |outputs| > 0 && |outputs[|outputs| - 1].text| > 0
  {
    var texts := outputs[|outputs| - 1].text;
    texts[|texts| - 1]
  }

  /** `out.strip() + "\n" if out else ""` */
  function Normalize(out: string): string {
    if out == "" then "" else Strip(out) + "\n"
  }

  /** The output text of a cell, before the python-file exemption. */
  function OutputText(outputs: seq<Output>): string
    requires TracebackReadable(outputs)
  {
    var joined := JoinedOutput(outputs);
    Normalize(if Contains(joined, TracebackMarker) then LastLine(outputs) else joined)
  }

  /** `__get_outputs`: python-file cells never show their output. */
  function Outputs(c: Cell): string
    requires MagicLineReadable(c)
    requires !IsPythonFileCodeCell(c) ==> TracebackReadable(c.outputs)
  {
    if IsPythonFileCodeCell(c) then "" else OutputText(c.outputs)
  }

  /** `core` is `s` with only blank text removed on its two sides. */
  predicate TrimmedFrom(core: string, s: string) {
    exists i | 0 <= i <= |s| - |core| :: OccursAt(s, core, i) && IsBlank(s[..i]) && IsBlank(s[i + |core|..])
  }

  /**
   * The output text is empty or ends in one line break. Without a traceback
   * marker it is empty exactly when the joined text is, and otherwise keeps
   * all of the joined text but the whitespace around it.
   */
  lemma OutputTextKeepsText(outputs: seq<Output>)
    requires TracebackReadable(outputs)
    ensures var r := OutputText(outputs); r == "" || r[|r| - 1] == '\n'
    ensures var r := OutputText(outputs); r != "" ==>
      var core := r[..|r| - 1]; core == [] || (!IsSpace(core[0]) && !IsSpace(core[|core| - 1]))
    ensures var r := OutputText(outputs); var joined := JoinedOutput(outputs);
      !Contains(joined, TracebackMarker) ==>
        (r == "" <==> joined == "") && (r != "" ==> TrimmedFrom(r[..|r| - 1], joined))
  {
    var r := OutputText(outputs);
    var joined := JoinedOutput(outputs);
    if !Contains(joined, TracebackMarker) && joined != "" {
      var core := Strip(joined);
      var i := SkipSpaces(joined, 0);
      assert r[..|r| - 1] == core;
      assert OccursAt(joined, core, i);
    }
  }

  /**
   * When the joined text holds a traceback, the result is what the last line
   * of the last output alone would give: everything else is dropped.
   */
  lemma {:induction false} TracebackKeepsOnlyLastLine(outputs: seq<Output>)
    requires TracebackReadable(outputs)
    requires Contains(JoinedOutput(outputs), TracebackMarker)
    ensures var last := [Output(Stream, [LastLine(outputs)], [])];
      TracebackReadable(last) && OutputText(outputs) == OutputText(last)
      && OutputText(outputs) == Normalize(LastLine(outputs))
  {
    var line := LastLine(outputs);
    var last := [Output(Stream, [line], [])];
    assert CollectedTexts(last) == [Concat([line])] by {
      assert last[..0] == [];
    }
    ConcatSingle(line);
    ConcatSingle(Concat([line]));
    assert JoinedOutput(last) == line;
  }

  lemma NoNewlineInMarker(m: string)
    requires Contains(m + "\n", TracebackMarker)
    ensures Contains(m, TracebackMarker)
  {
    var s := m + "\n";
    var i :| 0 <= i <= |s| - |TracebackMarker| && OccursAt(s, TracebackMarker, i);
    assert s[i + 9] == s[i..i + |TracebackMarker|][9] == ' ';
    assert s[|s| - 1] == '\n';
    assert i + |TracebackMarker| <= |m|;
    assert s[i..i + |TracebackMarker|] == m[i..i + |TracebackMarker|];
    assert OccursAt(m, TracebackMarker, i);
  }

  /**
   * Extraction is idempotent on text without a traceback marker: feeding the
   * result back as a single stream output gives it back unchanged.
   */
  lemma OutputTextIdempotent(outputs: seq<Output>)
    requires TracebackReadable(outputs)
    requires !Contains(JoinedOutput(outputs), TracebackMarker)
    ensures var r := OutputText(outputs); var again := [Output(Stream, [r], [])];
      TracebackReadable(again) && OutputText(again) == r
  {
    var joined := JoinedOutput(outputs);
    var r := OutputText(outputs);
    JoinedOfOneStream(r);
    if r != "" {
      MarkerOnlyFromJoined(joined);
      StripOfStripped(joined);
    }
  }

  /** One stream output joins to its own text. */
  lemma JoinedOfOneStream(t: string)
    ensures JoinedOutput([Output(Stream, [t], [])]) == t
  {
    var outs := [Output(Stream, [t], [])];
    assert CollectedTexts(outs) == [Concat([t])] by {
      assert outs[..0] == [];
    }
    ConcatSingle(t);
  }

  /** Stripping and adding a line break never creates the traceback marker. */
  lemma MarkerOnlyFromJoined(joined: string)
    ensures Contains(Strip(joined) + "\n", TracebackMarker) ==> Contains(joined, TracebackMarker)
  {
    var core := Strip(joined);
    if Contains(core + "\n", TracebackMarker) {
      NoNewlineInMarker(core);
      var i := SkipSpaces(joined, 0);
      ContainsInSlice(joined, TracebackMarker, i, i + |core|);
    }
  }

  /** A traceback printed by a stream keeps only its last line. */
  lemma TracebackExample()
    ensures var outs := [Output(Stream, ["Traceback (most recent call last):\n", " line2\n"], [])];
      TracebackReadable(outs) && OutputText(outs) == "line2\n"
  {
    var lines := ["Traceback (most recent call last):\n", " line2\n"];
    var outs := [Output(Stream, lines, [])];
    assert StartsWith(lines[0], TracebackMarker) by {
      assert lines[0] == TracebackMarker + "(most recent call last):\n";
    }
    TracebackJoined(lines);
    TracebackKeepsOnlyLastLine(outs);
    assert LastLine(outs) == " line2\n";
    StripOfIndentedLine();
  }

  lemma StripOfIndentedLine()
    ensures Normalize(" line2\n") == "line2\n"
  {
    StripFrame(" ", "line2", "\n");
    assert " " + "line2" + "\n" == " line2\n";
    assert "line2" + "\n" == "line2\n";
  }

  /** The joined text of one stream output that starts with the traceback marker contains it. */
  lemma TracebackJoined(lines: seq<string>)
    requires |lines| == 2 && StartsWith(lines[0], TracebackMarker)
    ensures Contains(JoinedOutput([Output(Stream, lines, [])]), TracebackMarker)
  {
    var outs := [Output(Stream, lines, [])];
    assert outs[..0] == [];
    assert lines[..1] == [lines[0]];
    ConcatSingle(lines[0]);
    var joined := lines[0] + lines[1];
    assert Concat(lines) == joined;
    assert CollectedTexts(outs) == [joined];
    ConcatSingle(joined);
    assert JoinedOutput(outs) == joined;
    assert joined[..|TracebackMarker|] == lines[0][..|TracebackMarker|];
    assert OccursAt(joined, TracebackMarker, 0);
  }

  /** The loop of `__get_outputs`: append each stream text and each result text. */
  method CollectOutputTexts(outputs: seq<Output>) returns (lines: seq<string>)
    ensures lines == CollectedTexts(outputs)
  {
    lines := [];
    for i := 0 to |outputs|
      invariant lines == CollectedTexts(outputs[..i])
    {
      var o := outputs[i];
      assert outputs[..i + 1][..i] == outputs[..i];
      if o.outputType == Stream {
        lines := lines + [Concat(o.text)];
      }
      if o.outputType == ExecuteResult {
        lines := lines + [Concat(o.plain)];
      }
    }
    assert outputs[..|outputs|] == outputs;
  }

  /**
   * The shared body of `__get_outputs` and of the older `get_outputs`: join
   * the collected texts, truncate a traceback to its last line, strip.
   */
  method JoinOutputs(outputs: seq<Output>) returns (out: string)
    requires TracebackReadable(outputs)
    ensures out == OutputText(outputs)
  {
    var lines := CollectOutputTexts(outputs);
    out := Concat(lines);
    if Contains(out, TracebackMarker) {
      var texts := outputs[|outputs| - 1].text;
      out := texts[|texts| - 1];
    }
    out := if out != "" then Strip(out) + "\n" else "";
  }

  /** `__get_outputs` */
  method GetOutputs(c: Cell) returns (out: string)
    requires MagicLineReadable(c)
    requires !IsPythonFileCodeCell(c) ==> TracebackReadable(c.outputs)
    ensures out == Outputs(c)
    ensures IsPythonFileCodeCell(c) ==> out == ""
  {
    if IsPythonFileCodeCell(c) {
      return "";
    }
    out := JoinOutputs(c.outputs);
  }

  // =====================================================================
  // Renderers

  /** `__format_markdown_cell` */
  function MarkdownFragment(c: Cell, previousWasSnippet: bool): string {
    Strip(EndSnippet(previousWasSnippet) + Concat(c.source)) + "\n\n"
  }

  /**
   * A markdown fragment is its text stripped, with two line breaks. After a
   * snippet it starts with the closing fence, which shields the text's own
   * indentation from `strip`.
   */
  lemma MarkdownCloseBeforeOpen(c: Cell)
    ensures MarkdownFragment(c, false) == Strip(Concat(c.source)) + "\n\n"
    ensures var md := Concat(c.source);
      MarkdownFragment(c, true) == (if IsBlank(md) then "```" else Fence + RStrip(md)) + "\n\n"
  {
    var md := Concat(c.source);
    assert EndSnippet(false) + md == md;
    if IsBlank(md) {
      BlankJoin("\n", md);
      StripBeforeBlank("```", "\n" + md);
      assert Fence + md == "```" + ("\n" + md);
    } else {
      StripBehindHead(Fence, md);
    }
  }

  function Tail(lines: seq<string>): seq<string> {
    if lines == [] then [] else lines[1..]
  }

  /** `__format_python_file_cell` */
  function FileFragment(c: Cell, previousWasSnippet: bool): string {
    EndSnippet(previousWasSnippet) + PythonFence + Concat(Tail(c.source)) + "\n" + "```\n"
  }

  /**
   * A file fragment is a closed `python` block of every source line but the
   * first: the `%%` line never shows. It starts with the closing fence
   * exactly when the previous cell left a snippet open.
   */
  lemma FileFragmentShape(c: Cell, magic: string)
    requires |c.source| > 0
    ensures FileFragment(c, true) == Fence + FileFragment(c, false)
    ensures StartsWith(FileFragment(c, false), PythonFence)
    ensures EndsWith(FileFragment(c, false), "\n```\n")
    ensures FileFragment(c.(source := [magic] + c.source[1..]), false) == FileFragment(c, false)
  {
    assert ([magic] + c.source[1..])[1..] == c.source[1..];
  }

  /** `__format_shell_cell` */
  function ShellFragment(c: Cell, previousWasSnippet: bool): string
    requires |c.source| > 0
    requires MagicLineReadable(c)
    requires !IsPythonFileCodeCell(c) ==> TracebackReadable(c.outputs)
  {
    EndSnippet(previousWasSnippet) + ("```\n>" + LStripChar(c.source[0], '!')) + "\n\n" + Outputs(c) + "```\n"
  }

  /**
   * A shell fragment is a closed plain block: the prompt line is the first
   * source line without its leading `!`s, then a blank line, then the
   * cell's output, which a shell cell always shows.
   */
  lemma ShellFragmentShape(c: Cell)
    requires IsShellCommandCodeCell(c)
    requires TracebackReadable(c.outputs)
    ensures MagicLineReadable(c) && !IsPythonFileCodeCell(c)
    ensures ShellFragment(c, true) == Fence + ShellFragment(c, false)
    ensures ShellFragment(c, false) ==
      "```\n>" + LStripChar(c.source[0], '!') + "\n\n" + OutputText(c.outputs) + "```\n"
  {
    assert !IsPythonFileCodeCell(c) by {
      BangIsNotMagic(c.source[0]);
    }
    var body := "```\n>" + LStripChar(c.source[0], '!') + "\n\n" + OutputText(c.outputs) + "```\n";
    ShellFragmentGrouped(c, false);
    ShellFragmentGrouped(c, true);
    assert ShellFragment(c, false) == body by {
      assert [] + body == body;
    }
  }

  /** The fence closing a snippet comes first; the rest of a shell fragment is one block. */
  lemma ShellFragmentGrouped(c: Cell, previousWasSnippet: bool)
    requires |c.source| > 0 && MagicLineReadable(c) && !IsPythonFileCodeCell(c) && TracebackReadable(c.outputs)
    ensures ShellFragment(c, previousWasSnippet) ==
      EndSnippet(previousWasSnippet) + ("```\n>" + LStripChar(c.source[0], '!') + "\n\n" + OutputText(c.outputs) + "```\n")
  {
    assert Outputs(c) == OutputText(c.outputs);
    Regroup4(EndSnippet(previousWasSnippet), "```\n>" + LStripChar(c.source[0], '!'), "\n\n", OutputText(c.outputs), "```\n");
  }

  /**
   * The prompt of a shell fragment is the command line without its leading
   * run of `!`: what is dropped is only `!`, and the kept text does not start with one.
   */
  lemma ShellPromptDropsOnlyBangs(line: string)
    requires StartsWith(line, "!")
    ensures var command := LStripChar(line, '!');
      |command| < |line| && line == line[..|line| - |command|] + command
      && (forall k :: 0 <= k < |line| - |command| ==> line[k] == '!')
      && (command == [] || command[0] != '!')
  {
    assert line[0] == line[..1][0] == '!';
    LStripCharSplit(line, '!');
  }

  lemma Regroup4(h: string, a: string, b: string, c: string, d: string)
    ensures h + a + b + c + d == h + (a + b + c + d)
  {
  }

  /** The shell cell of the test notebook that prints `hello`. */
  lemma ShellExample()
    ensures var c := Cell(Code, ["! python -c \"print('hello')\""], Metadata(None, {}),
                          [Output(Stream, ["hello\n"], [])]);
      IsShellCommandCodeCell(c) && MagicLineReadable(c) && TracebackReadable(c.outputs) &&
      ShellFragment(c, false) == "```\n>" + " python -c \"print('hello')\"" + "\n\n" + "hello\n" + "```\n"
  {
    var line := "! python -c \"print('hello')\"";
    var c := Cell(Code, [line], Metadata(None, {}), [Output(Stream, ["hello\n"], [])]);
    assert IsShellCommandCodeCell(c) by {
      assert line[..1] == "!";
    }
    assert LStripChar(line, '!') == " python -c \"print('hello')\"" by {
      assert line[1..] == " python -c \"print('hello')\"";
    }
    HelloOutput();
    ShellFragmentShape(c);
  }

  /** The output of the `hello` cell: one stream output, shown stripped with one line break. */
  lemma HelloOutput()
    ensures var outs := [Output(Stream, ["hello\n"], [])];
      TracebackReadable(outs) && OutputText(outs) == "hello\n"
  {
    var outs := [Output(Stream, ["hello\n"], [])];
    assert outs[..0] == [];
    ConcatSingle("hello\n");
    ConcatSingle(Concat(["hello\n"]));
    assert JoinedOutput(outs) == "hello\n";
    MissingCharExcludes("hello\n", TracebackMarker, 0);
    StripBeforeBlank("hello", "\n");
    assert "hello" + "\n" == "hello\n";
  }

  /** A REPL line gets the continuation prompt when indented or blank, else the primary prompt. */
  function PromptLine(line: string): string {
    if StartsWith(line, " ") || IsBlank(line) then "... " + line else ">>> " + line
  }

  lemma PrimaryPrompt(line: string)
    requires line != [] && !IsSpace(line[0])
    ensures PromptLine(line) == ">>> " + line
  {
    assert !StartsWith(line, " ") by {
      assert |line| >= 1 ==> line[..1][0] == line[0];
    }
  }

  function PromptLines(source: seq<string>): (lines: seq<string>)
    ensures |lines| == |source|
    ensures forall k :: 0 <= k < |source| ==> lines[k] == PromptLine(source[k])
  {
    if source == [] then []
    else PromptLines(source[..|source| - 1]) + [PromptLine(source[|source| - 1])]
  }

  /** `[line for line in lines if ">>> pass" not in line]` */
  function DropPass(lines: seq<string>): (kept: seq<string>)
    ensures |kept| <= |lines|
    ensures forall x :: x in kept <==> x in lines && !Contains(x, PassPrompt)
  {
    if lines == [] then []
    else (if Contains(lines[0], PassPrompt) then [] else [lines[0]]) + DropPass(lines[1..])
  }

  /**
   * The filter works line by line, in order: it distributes over
   * concatenation and keeps a single line exactly when it is clean.
   */
  lemma DropPassAppend(a: seq<string>, b: seq<string>, line: string)
    ensures DropPass(a + b) == DropPass(a) + DropPass(b)
    ensures DropPass([line]) == if Contains(line, PassPrompt) then [] else [line]
  {
    DropPassConcat(a, b);
    assert [line][1..] == [];
  }

  lemma {:induction false} DropPassConcat(a: seq<string>, b: seq<string>)
    ensures DropPass(a + b) == DropPass(a) + DropPass(b)
    decreases |a|
  {
    if a == [] {
      assert a + b == b;
    } else {
      var head := if Contains(a[0], PassPrompt) then [] else [a[0]];
      assert DropPass(a + b) == head + DropPass(a[1..] + b) by {
        assert (a + b)[0] == a[0] && (a + b)[1..] == a[1..] + b;
      }
      DropPassConcat(a[1..], b);
      var x, y := DropPass(a[1..]), DropPass(b);
      assert head + (x + y) == (head + x) + y;
    }
  }

  /** The filter keeps every line when none holds `>>> pass`, in order. */
  lemma {:induction false} DropPassKeepsClean(lines: seq<string>)
    requires forall k :: 0 <= k < |lines| ==> !Contains(lines[k], PassPrompt)
    ensures DropPass(lines) == lines
  {
    if lines != [] {
      DropPassKeepsClean(lines[1..]);
    }
  }

  predicate Prompted(line: string) {
    StartsWith(line, "... ") || StartsWith(line, ">>> ")
  }

  lemma PromptLineRoundTrip(line: string)
    ensures Prompted(PromptLine(line)) && PromptLine(line)[4..] == line
    ensures StartsWith(PromptLine(line), "... ") <==> StartsWith(line, " ") || IsBlank(line)
  {
  }

  lemma {:induction false} ConcatOfPrompted(lines: seq<string>)
    requires forall x :: x in lines ==> Prompted(x)
    ensures Concat(lines) == [] || (|Concat(lines)| >= 4 && Prompted(Concat(lines)))
    ensures lines != [] ==> Concat(lines) != []
    decreases |lines|
  {
    if lines != [] {
      var init := lines[..|lines| - 1];
      assert forall x :: x in init ==> x in lines;
      ConcatOfPrompted(init);
      var last := lines[|lines| - 1];
      assert last in lines;
      if Concat(init) != [] {
        assert (Concat(init) + last)[..4] == Concat(init)[..4];
      } else {
        assert Concat(lines) == last;
      }
    }
  }

  /** The prompted, filtered lines of a REPL cell, joined. */
  function PromptedText(source: seq<string>): string {
    Concat(DropPass(PromptLines(source)))
  }

  /** The REPL block of `__format_python_repl_snippet_cell`, before the cell's output. */
  function ReplBlock(source: seq<string>, previousWasSnippet: bool): string {
    Strip((if previousWasSnippet then "" else PythonFence) + PromptedText(source)) + "\n"
  }

  lemma PromptedTextStartsWithPrompt(source: seq<string>)
    ensures PromptedText(source) == [] || (|PromptedText(source)| >= 4 && Prompted(PromptedText(source)))
  {
    var kept := DropPass(PromptLines(source));
    forall x | x in kept
      ensures Prompted(x)
    {
      var k :| 0 <= k < |source| && PromptLines(source)[k] == x;
      PromptLineRoundTrip(source[k]);
    }
    ConcatOfPrompted(kept);
  }

  /**
   * The REPL block opens a `python` fence exactly when no snippet is open:
   * with the fence it is the fence followed by the same block (or the fence
   * alone when that block is a lone line break), and without it, it never
   * starts with a backtick.
   */
  lemma ReplBlockOpensFenceOnlyWhenClosed(source: seq<string>)
    ensures StartsWith(ReplBlock(source, false), PythonFence)
    ensures |ReplBlock(source, true)| > 0 && ReplBlock(source, true)[0] != '`'
    ensures ReplBlock(source, true) != "\n" ==>
      ReplBlock(source, false) == PythonFence + ReplBlock(source, true)
    ensures ReplBlock(source, true) == "\n" ==> ReplBlock(source, false) == PythonFence
  {
    var text := PromptedText(source);
    assert ReplBlock(source, true) == Strip(text) + "\n" by {
      assert "" + text == text;
    }
    assert ReplBlock(source, false) == Strip(PythonFence + text) + "\n";
    PromptedTextStartsWithPrompt(source);
    FenceCases(text);
  }

  lemma FenceCases(text: string)
    requires text == [] || (|text| >= 4 && Prompted(text))
    ensures var open := Strip(PythonFence + text) + "\n"; var cont := Strip(text) + "\n";
      StartsWith(open, PythonFence) && |cont| > 0 && cont[0] != '`' &&
      (cont != "\n" ==> open == PythonFence + cont) && (cont == "\n" ==> open == PythonFence)
  {
    if text == [] {
      FenceAloneStrips();
    } else {
      assert text[0] == text[..4][0];
      FenceBeforeTextStrips(text);
    }
  }

  lemma FenceAloneStrips()
    ensures Strip(PythonFence + []) + "\n" == PythonFence
    ensures Strip([]) + "\n" == "\n"
  {
    assert PythonFence + [] == "```python" + "\n";
    StripBeforeBlank("```python", "\n");
  }

  lemma FenceBeforeTextStrips(text: string)
    requires text != [] && !IsSpace(text[0]) && text[0] != '`'
    ensures var block := Strip(text) + "\n";
      block != "\n" && block[0] != '`' &&
      Strip(PythonFence + text) + "\n" == PythonFence + block
  {
    StripOfNonSpaceStart(text);
    StripBehindHead(PythonFence, text);
    RStripOfNonBlank(text);
    Regroup(PythonFence, RStrip(text), "\n");
  }

  /** `__format_python_repl_snippet_cell`: the block and the cell's output; the fence stays open. */
  function ReplFragment(c: Cell, previousWasSnippet: bool): string
    requires MagicLineReadable(c)
    requires !IsPythonFileCodeCell(c) ==> TracebackReadable(c.outputs)
  {
    ReplBlock(c.source, previousWasSnippet) + Outputs(c)
  }

  /** The prompting and filtering loop of the REPL renderers. */
  method FormatReplBlock(source: seq<string>, previousWasSnippet: bool) returns (block: string)
    ensures block == ReplBlock(source, previousWasSnippet)
  {
    var lines: seq<string> := [];
    for i := 0 to |source|
      invariant lines == PromptLines(source[..i])
    {
      var line := source[i];
      assert source[..i + 1][..i] == source[..i];
      lines := lines + [if StartsWith(line, " ") || IsBlank(line) then "... " + line else ">>> " + line];
    }
    assert source[..|source|] == source;
    lines := DropPass(lines);
    var content := (if previousWasSnippet then "" else PythonFence) + Concat(lines);
    block := Strip(content) + "\n";
  }

  /** `__format_python_repl_snippet_cell` */
  method FormatPythonReplSnippetCell(c: Cell, previousWasSnippet: bool) returns (fragment: string)
    requires MagicLineReadable(c)
    requires !IsPythonFileCodeCell(c) ==> TracebackReadable(c.outputs)
    ensures fragment == ReplFragment(c, previousWasSnippet)
  {
    var block := FormatReplBlock(c.source, previousWasSnippet);
    var out := GetOutputs(c);
    fragment := block + out;
  }

  // =====================================================================
  // Document assembler (`nbtomd`)

  /** The assembler's state: the text so far and whether it ends inside an open snippet. */
  datatype Doc = Doc(text: string, previousWasSnippet: bool)

  const Start := Doc("", false)

  /** What the loop of `nbtomd` reads of one cell without raising. */
  predicate CellReadable(c: Cell) {
    TagsReadable(c.metadata) &&
    (!IsHidden(c) ==>
      MagicLineReadable(c) &&
      ((IsShellCommandCodeCell(c) || IsPythonReplCodeCell(c)) ==> TracebackReadable(c.outputs)))
  }

  predicate AllReadable(cells: seq<Cell>) {
    forall i :: 0 <= i < |cells| ==> CellReadable(cells[i])
  }

  /** One iteration of the loop of `nbtomd`. */
  function Step(d: Doc, c: Cell): Doc
    requires CellReadable(c)
  {
    if IsHidden(c) then d
    else if c.cellType == Markdown then Doc(d.text + MarkdownFragment(c, d.previousWasSnippet), false)
    else if IsShellCommandCodeCell(c) then Doc(d.text + ShellFragment(c, d.previousWasSnippet), false)
    else if IsPythonFileCodeCell(c) then Doc(d.text + FileFragment(c, d.previousWasSnippet), false)
    else if IsPythonReplCodeCell(c) then Doc(d.text + ReplFragment(c, d.previousWasSnippet), true)
    else d
  }

  function Run(d: Doc, cells: seq<Cell>): Doc
    requires AllReadable(cells)
    decreases |cells|
  {
    if cells == [] then d else Run(Step(d, cells[0]), cells[1..])
  }

  /** The Markdown text of a notebook. */
  function Render(cells: seq<Cell>): string
    requires AllReadable(cells)
  {
    Run(Start, cells).text
  }

  lemma {:induction false} RunSnoc(d: Doc, cells: seq<Cell>, c: Cell)
    requires AllReadable(cells) && CellReadable(c)
    ensures AllReadable(cells + [c])
    ensures Run(d, cells + [c]) == Step(Run(d, cells), c)
    decreases |cells|
  {
    var all := cells + [c];
    assert forall i :: 0 <= i < |all| ==> all[i] == if i < |cells| then cells[i] else c;
    if cells != [] {
      assert all[1..] == cells[1..] + [c];
      RunSnoc(Step(d, cells[0]), cells[1..], c);
    }
  }

  /** `nbtomd` without the file handling: the loop over the cells. */
  method NotebookToMarkdown(cells: seq<Cell>) returns (text: string)
    requires AllReadable(cells)
    ensures text == Render(cells)
  {
    var lines: seq<string> := [];
    var previousWasSimplePythonReplSnippet := false;
    for i := 0 to |cells|
      invariant Concat(lines) == Run(Start, cells[..i]).text
      invariant previousWasSimplePythonReplSnippet == Run(Start, cells[..i]).previousWasSnippet
    {
      var cell := cells[i];
      assert cells[..i + 1] == cells[..i] + [cell];
      assert AllReadable(cells[..i]);
      RunSnoc(Start, cells[..i], cell);
      ghost var d := Run(Start, cells[..i]);
      if IsHidden(cell) {
        continue;
      }
      ClassificationPartition(cell);
      if cell.cellType == Markdown {
        var fragment := MarkdownFragment(cell, previousWasSimplePythonReplSnippet);
        ConcatSnoc(lines, fragment);
        lines := lines + [fragment];
        previousWasSimplePythonReplSnippet := false;
      }
      if IsShellCommandCodeCell(cell) {
        StepOfShell(d, cell);
        var fragment := ShellFragment(cell, previousWasSimplePythonReplSnippet);
        ConcatSnoc(lines, fragment);
        lines := lines + [fragment];
        previousWasSimplePythonReplSnippet := false;
      }
      if IsPythonFileCodeCell(cell) {
        StepOfFile(d, cell);
        var fragment := FileFragment(cell, previousWasSimplePythonReplSnippet);
        ConcatSnoc(lines, fragment);
        lines := lines + [fragment];
        previousWasSimplePythonReplSnippet := false;
      }
      if IsPythonReplCodeCell(cell) {
        StepOfSnippet(d, cell);
        var fragment := FormatPythonReplSnippetCell(cell, previousWasSimplePythonReplSnippet);
        ConcatSnoc(lines, fragment);
        lines := lines + [fragment];
        previousWasSimplePythonReplSnippet := true;
      }
    }
    assert cells[..|cells|] == cells;
    text := Concat(lines);
  }

  // ---------------------------------------------------------------------
  // Properties of the assembler

  /** The cells that are not hidden, in order. */
  function Visible(cells: seq<Cell>): (vs: seq<Cell>)
    requires AllReadable(cells)
    ensures AllReadable(vs)
    ensures forall c :: c in vs ==> c in cells && !IsHidden(c)
  {
    if cells == [] then []
    else (if IsHidden(cells[0]) then [] else [cells[0]]) + Visible(cells[1..])
  }

  /**
   * The visible cells are picked cell by cell, in order: the selection
   * distributes over concatenation and keeps a single cell exactly when it
   * is not hidden.
   */
  lemma VisibleAppend(a: seq<Cell>, b: seq<Cell>, c: Cell)
    requires AllReadable(a) && AllReadable(b) && CellReadable(c)
    ensures AllReadable(a + b) && AllReadable([c])
    ensures Visible(a + b) == Visible(a) + Visible(b)
    ensures Visible([c]) == if IsHidden(c) then [] else [c]
  {
    VisibleConcat(a, b);
    assert [c][1..] == [];
  }

  lemma {:induction false} VisibleConcat(a: seq<Cell>, b: seq<Cell>)
    requires AllReadable(a) && AllReadable(b)
    ensures AllReadable(a + b)
    ensures Visible(a + b) == Visible(a) + Visible(b)
    decreases |a|
  {
    assert AllReadable(a + b) by {
      forall i | 0 <= i < |a + b| ensures CellReadable((a + b)[i]) {
        if i < |a| { assert (a + b)[i] == a[i]; } else { assert (a + b)[i] == b[i - |a|]; }
      }
    }
    if a == [] {
      assert a + b == b;
    } else {
      var head := if IsHidden(a[0]) then [] else [a[0]];
      assert (a + b)[0] == a[0] && (a + b)[1..] == a[1..] + b;
      assert AllReadable(a[1..]);
      assert Visible(a + b) == head + Visible(a[1..] + b);
      VisibleConcat(a[1..], b);
      var x, y := Visible(a[1..]), Visible(b);
      assert Visible(a) == head + x;
      assert head + (x + y) == (head + x) + y;
    }
  }

  /** Hidden cells contribute nothing: deleting them all leaves the document unchanged. */
  lemma {:induction false} HiddenCellsContributeNothing(d: Doc, cells: seq<Cell>)
    requires AllReadable(cells)
    ensures Run(d, cells) == Run(d, Visible(cells))
    decreases |cells|
  {
    if cells != [] {
      HiddenCellsContributeNothing(Step(d, cells[0]), cells[1..]);
      var vs := Visible(cells);
      if IsHidden(cells[0]) {
        assert vs == Visible(cells[1..]);
      } else {
        assert vs[0] == cells[0] && vs[1..] == Visible(cells[1..]);
      }
    }
  }

  /** A cell that renders nothing: hidden, or code without source. */
  predicate IsSilent(c: Cell)
    requires CellReadable(c)
  {
    IsHidden(c) || (c.cellType == Code && |c.source| == 0)
  }

  predicate RendersSnippet(c: Cell)
    requires CellReadable(c)
  {
    !IsHidden(c) && IsPythonReplCodeCell(c)
  }

  /** The last cell that renders anything is an interactive snippet. */
  predicate EndsInSnippet(cells: seq<Cell>)
    requires AllReadable(cells)
  {
    exists j | 0 <= j < |cells| :: SnippetAt(cells, j)
  }

  /** Cell `j` is an interactive snippet and every cell after it is silent. */
  predicate SnippetAt(cells: seq<Cell>, j: int)
    requires AllReadable(cells)
  {
    0 <= j < |cells| && RendersSnippet(cells[j]) &&
    forall k :: j < k < |cells| ==> IsSilent(cells[k])
  }

  lemma StepFlag(d: Doc, c: Cell)
    requires CellReadable(c)
    ensures IsSilent(c) ==> Step(d, c) == d
    ensures !IsSilent(c) ==> Step(d, c).previousWasSnippet == RendersSnippet(c)
  {
    if !IsHidden(c) {
      ClassificationPartition(c);
    }
  }

  /**
   * The fence flag is set exactly when the last cell that renders anything
   * was an interactive snippet; hidden cells and empty code cells leave it
   * as it was, and the end of the notebook closes nothing.
   */
  lemma {:induction false} FlagTracksLastRenderedCell(cells: seq<Cell>)
    requires AllReadable(cells)
    ensures Run(Start, cells).previousWasSnippet <==> EndsInSnippet(cells)
    decreases |cells|
  {
    if cells != [] {
      var n := |cells| - 1;
      var init := cells[..n];
      var c := cells[n];
      assert cells == init + [c];
      assert AllReadable(init);
      RunSnoc(Start, init, c);
      FlagTracksLastRenderedCell(init);
      StepFlag(Run(Start, init), c);
      if IsSilent(c) {
        EndsAfterSilentCell(cells);
      } else {
        EndsAfterRenderedCell(cells);
      }
    }
  }

  /** A silent last cell leaves the answer to the cells before it. */
  lemma EndsAfterSilentCell(cells: seq<Cell>)
    requires AllReadable(cells) && cells != [] && IsSilent(cells[|cells| - 1])
    ensures AllReadable(cells[..|cells| - 1])
    ensures EndsInSnippet(cells) <==> EndsInSnippet(cells[..|cells| - 1])
  {
    var init := cells[..|cells| - 1];
    assert AllReadable(init);
    if EndsInSnippet(init) {
      var j :| SnippetAt(init, j);
      SnippetAtExtends(cells, j);
    }
    if EndsInSnippet(cells) {
      var j :| SnippetAt(cells, j);
      SnippetAtShrinks(cells, j);
    }
  }

  lemma SnippetAtExtends(cells: seq<Cell>, j: int)
    requires AllReadable(cells) && cells != [] && IsSilent(cells[|cells| - 1])
    requires AllReadable(cells[..|cells| - 1]) && SnippetAt(cells[..|cells| - 1], j)
    ensures SnippetAt(cells, j)
  {
    var init := cells[..|cells| - 1];
    assert RendersSnippet(cells[j]) by {
      assert cells[j] == init[j];
    }
    forall k | j < k < |cells|
      ensures IsSilent(cells[k])
    {
      if k < |init| {
        assert cells[k] == init[k];
      }
    }
  }

  lemma SnippetAtShrinks(cells: seq<Cell>, j: int)
    requires AllReadable(cells) && cells != [] && IsSilent(cells[|cells| - 1])
    requires SnippetAt(cells, j)
    ensures AllReadable(cells[..|cells| - 1]) && SnippetAt(cells[..|cells| - 1], j)
  {
    var init := cells[..|cells| - 1];
    assert j != |cells| - 1 by {
      assert !IsSilent(cells[j]);
    }
    assert init[j] == cells[j];
    forall k | j < k < |init|
      ensures IsSilent(init[k])
    {
      assert init[k] == cells[k];
    }
  }

  /** A last cell that renders something decides the answer alone. */
  lemma EndsAfterRenderedCell(cells: seq<Cell>)
    requires AllReadable(cells) && cells != [] && !IsSilent(cells[|cells| - 1])
    ensures EndsInSnippet(cells) <==> RendersSnippet(cells[|cells| - 1])
  {
    var n := |cells| - 1;
    if RendersSnippet(cells[n]) {
      assert SnippetAt(cells, n);
    }
    if EndsInSnippet(cells) {
      var j :| 0 <= j < |cells| && SnippetAt(cells, j);
      assert SnippetAt(cells, j);
      assert j == n;
    }
  }

  /** An interactive snippet appends its fragment and leaves the fence open. */
  lemma StepOfSnippet(d: Doc, r: Cell)
    requires CellReadable(r) && RendersSnippet(r)
    ensures Step(d, r) == Doc(d.text + ReplFragment(r, d.previousWasSnippet), true)
  {
    ClassificationPartition(r);
  }

  /** A shell command appends its fragment and closes the fence. */
  lemma StepOfShell(d: Doc, c: Cell)
    requires CellReadable(c) && !IsHidden(c) && IsShellCommandCodeCell(c)
    ensures Step(d, c) == Doc(d.text + ShellFragment(c, d.previousWasSnippet), false)
  {
    ClassificationPartition(c);
  }

  /** A python file appends its fragment and closes the fence. */
  lemma StepOfFile(d: Doc, c: Cell)
    requires CellReadable(c) && !IsHidden(c) && IsPythonFileCodeCell(c)
    ensures Step(d, c) == Doc(d.text + FileFragment(c, d.previousWasSnippet), false)
  {
    ClassificationPartition(c);
  }

  /** With no fence open, an interactive snippet opens one and leaves it open. */
  lemma SnippetOpensFence(t: string, r: Cell)
    requires CellReadable(r) && RendersSnippet(r)
    ensures Step(Doc(t, false), r).previousWasSnippet
    ensures StartsWith(Step(Doc(t, false), r).text, t + PythonFence)
  {
    StepOfSnippet(Doc(t, false), r);
    ReplBlockOpensFenceOnlyWhenClosed(r.source);
    var block := ReplBlock(r.source, false);
    PrefixExtends(t, block, Outputs(r), PythonFence);
  }

  /** Text that starts with `p` keeps starting with `t + p` behind a head `t` and before a tail. */
  lemma PrefixExtends(t: string, block: string, tail: string, p: string)
    requires StartsWith(block, p)
    ensures StartsWith(t + (block + tail), t + p)
  {
    assert (t + (block + tail))[..|t + p|] == t + block[..|p|];
  }

  /**
   * After a snippet, the next interactive snippet continues the open fence:
   * its fragment does not start with a backtick, and the fence stays open.
   */
  lemma SnippetContinuesFence(t: string, r: Cell)
    requires CellReadable(r) && RendersSnippet(r)
    ensures Step(Doc(t, true), r).previousWasSnippet
    ensures Step(Doc(t, true), r).text == t + ReplFragment(r, true)
    ensures ReplFragment(r, true) != [] && ReplFragment(r, true)[0] != '`'
  {
    StepOfSnippet(Doc(t, true), r);
    ReplBlockOpensFenceOnlyWhenClosed(r.source);
    var block := ReplBlock(r.source, true);
    assert (block + Outputs(r))[0] == block[0];
  }

  /**
   * A shell or python-file block that follows a snippet is the same block,
   * preceded by exactly one closing fence line; afterwards no fence is open.
   */
  lemma ClosingFence(t: string, c: Cell)
    requires CellReadable(c) && !IsHidden(c)
    requires IsShellCommandCodeCell(c) || IsPythonFileCodeCell(c)
    ensures !Step(Doc(t, true), c).previousWasSnippet
    ensures Step(Doc(t, true), c).text == t + Fence + Step(Doc("", false), c).text
  {
    if IsShellCommandCodeCell(c) {
      StepOfShell(Doc(t, true), c);
      StepOfShell(Doc("", false), c);
      ShellFragmentShape(c);
      CloseBefore(t, ShellFragment(c, false));
    } else {
      StepOfFile(Doc(t, true), c);
      StepOfFile(Doc("", false), c);
      FileFragmentShape(c, c.source[0]);
      CloseBefore(t, FileFragment(c, false));
    }
  }

  lemma CloseBefore(t: string, x: string)
    ensures t + (Fence + x) == t + Fence + ("" + x)
  {
  }
}
