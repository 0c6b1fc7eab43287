/**
 * The older single-file converter. It renders the same four kinds of cell
 * with the same fence flag, but chooses the kind with an if/elif chain on the
 * first source line (so `%%` alone makes a python-file cell), renders
 * markdown without stripping it, and its `get_outputs` has no python-file
 * exemption, though no renderer calls it on a file cell. What it shares with the package (the output loop, the
 * prompted REPL block, the python-file renderer) is taken from `Genbdoc`.
 */
module GenbdocVariant {
  import opened Text
  import opened Notebook
  import Genbdoc

  /** The branch of the loop of `genbdoc` that a visible cell takes. */
  datatype Branch = MarkdownBranch | ShellBranch | FileBranch | SnippetBranch | NoBranch

  function BranchOf(c: Cell): Branch {
    if c.cellType == Markdown then MarkdownBranch
    else if |c.source| == 0 then NoBranch
    else if StartsWith(c.source[0], "!") then ShellBranch
    else if StartsWith(c.source[0], "%%") then FileBranch
    else SnippetBranch
  }

  /**
   * A non-empty code cell takes exactly one of the shell, file and snippet
   * branches, chosen by its first line alone; an empty code cell takes none.
   */
  lemma BranchByFirstLine(c: Cell)
    ensures c.cellType == Markdown <==> BranchOf(c) == MarkdownBranch
    ensures BranchOf(c) == NoBranch <==> c.cellType == Code && |c.source| == 0
    ensures BranchOf(c) == ShellBranch <==> Genbdoc.IsShellCommandCodeCell(c)
    ensures BranchOf(c) == FileBranch <==> Genbdoc.IsCodeCellStartingWith(c, "%%")
    ensures BranchOf(c) == SnippetBranch <==>
      Genbdoc.IsCodeCellWithSourceContent(c) && !StartsWith(c.source[0], "!") && !StartsWith(c.source[0], "%%")
  {
    if Genbdoc.IsCodeCellWithSourceContent(c) {
      Genbdoc.BangIsNotMagic(c.source[0]);
    }
  }

  /**
   * The two classifiers agree except on a `%%` cell whose second line is not
   * a `#` comment: the variant renders it as a
   * python file, the package as an interactive snippet.
   */
  lemma BranchAgreesWithPackage(c: Cell)
    requires Genbdoc.MagicLineReadable(c)
    ensures BranchOf(c) == ShellBranch <==> Genbdoc.IsShellCommandCodeCell(c)
    ensures BranchOf(c) == FileBranch && StartsWith(c.source[1], "#") <==> Genbdoc.IsPythonFileCodeCell(c)
    ensures BranchOf(c) == SnippetBranch ==> Genbdoc.IsPythonReplCodeCell(c)
    ensures Genbdoc.IsPythonReplCodeCell(c) ==>
      BranchOf(c) == SnippetBranch || (BranchOf(c) == FileBranch && !StartsWith(c.source[1], "#"))
  {
    BranchByFirstLine(c);
    Genbdoc.ClassificationPartition(c);
  }

  /** A `%%` cell of one line crashes the package's classifier but is a python file here. */
  lemma LoneMagicLineIsAFile(c: Cell)
    requires c.cellType == Code && |c.source| == 1 && StartsWith(c.source[0], "%%")
    ensures BranchOf(c) == FileBranch && !Genbdoc.MagicLineReadable(c)
  {
    Genbdoc.BangIsNotMagic(c.source[0]);
  }

  // =====================================================================
  // Renderers

  /** `get_outputs`: like the package's, but python-file cells are not exempt. */
  function Outputs(c: Cell): (out: string)
    requires Genbdoc.TracebackReadable(c.outputs)
    ensures out == "" || EndsWith(out, "\n")
  {
    Genbdoc.OutputText(c.outputs)
  }

  /**
   * The variant's `get_outputs` has no python-file exemption: on a file cell
   * it gives the output text where the package's gives nothing.
   */
  lemma NoFileExemption(c: Cell)
    requires Genbdoc.MagicLineReadable(c) && Genbdoc.IsPythonFileCodeCell(c)
    requires Genbdoc.TracebackReadable(c.outputs)
    ensures Genbdoc.Outputs(c) == ""
    ensures Outputs(c) == Genbdoc.OutputText(c.outputs)
  {
  }

  /** `format_markdown_cell`: the text as it is, with a line break appended only when missing. */
  function MarkdownFragment(c: Cell, previousWasSnippet: bool): string {
    var out := Genbdoc.EndSnippet(previousWasSnippet) + Concat(c.source);
    out + (if !EndsWith(out, "\n") then "\n" else "")
  }

  /**
   * The variant's markdown fragment keeps the text unchanged, spaces
   * included, and ends in exactly one added line break or none: it is the
   * text itself when that ends in a line break, else the text and one.
   */
  lemma MarkdownKeepsText(c: Cell, previousWasSnippet: bool)
    ensures var out := Genbdoc.EndSnippet(previousWasSnippet) + Concat(c.source);
      var fragment := MarkdownFragment(c, previousWasSnippet);
      EndsWith(fragment, "\n") && StartsWith(fragment, out) &&
      (EndsWith(out, "\n") <==> fragment == out) &&
      (!EndsWith(out, "\n") <==> fragment == out + "\n")
  {
    var out := Genbdoc.EndSnippet(previousWasSnippet) + Concat(c.source);
    var fragment := MarkdownFragment(c, previousWasSnippet);
    assert fragment[..|out|] == out;
    if !EndsWith(out, "\n") {
      assert fragment[|fragment| - 1..] == "\n";
      assert fragment != out;
    }
  }

  /**
   * After a snippet, a markdown cell with some text is the closing fence
   * followed by the fragment it would have had without the snippet.
   */
  lemma MarkdownClosesFence(c: Cell)
    requires Concat(c.source) != ""
    ensures MarkdownFragment(c, true) == Genbdoc.Fence + MarkdownFragment(c, false)
  {
    var md := Concat(c.source);
    assert "" + md == md;
    var out := Genbdoc.Fence + md;
    assert out[|out| - 1..] == md[|md| - 1..];
  }

  /**
   * Markdown that is already in the package's shape (a core with no space at
   * either end and two line breaks) renders the same in both converters,
   * whether or not a snippet is open.
   */
  lemma MarkdownAgreesOnCleanText(c: Cell, core: string)
    requires core != [] && !IsSpace(core[0]) && !IsSpace(core[|core| - 1])
    requires Concat(c.source) == core + "\n\n"
    ensures MarkdownFragment(c, false) == Genbdoc.MarkdownFragment(c, false)
    ensures MarkdownFragment(c, true) == Genbdoc.MarkdownFragment(c, true)
  {
    var md := Concat(c.source);
    assert MarkdownFragment(c, false) == Genbdoc.MarkdownFragment(c, false) by {
      CleanTextKept("", core);
      assert "" + md == "" + (core + "\n\n");
    }
    assert MarkdownFragment(c, true) == Genbdoc.MarkdownFragment(c, true) by {
      CleanTextKept(Genbdoc.Fence, core);
    }
  }

  /** A clean core and two line breaks, behind a head that is empty or starts with a non-space, strip back to head and core. */
  lemma CleanTextKept(head: string, core: string)
    requires core != [] && !IsSpace(core[0]) && !IsSpace(core[|core| - 1])
    requires head == [] || !IsSpace(head[0])
    ensures var out := head + (core + "\n\n");
      EndsWith(out, "\n") && Strip(out) + "\n\n" == out
  {
    var m := head + core;
    var out := head + (core + "\n\n");
    assert out == m + "\n\n";
    assert out[|out| - 1..] == "\n";
    StripBeforeBlank(m, "\n\n");
  }

  /** `format_shell_cell` */
  function ShellFragment(c: Cell, previousWasSnippet: bool): string
    requires |c.source| > 0
    requires Genbdoc.TracebackReadable(c.outputs)
  {
    Genbdoc.EndSnippet(previousWasSnippet) + ("```\n>" + LStripChar(c.source[0], '!')) + "\n\n" + Outputs(c) + "```\n"
  }

  /** Both converters render a shell cell to the same text. */
  lemma SameShellFragment(c: Cell, previousWasSnippet: bool)
    requires Genbdoc.IsShellCommandCodeCell(c) && Genbdoc.TracebackReadable(c.outputs)
    ensures Genbdoc.MagicLineReadable(c)
    ensures ShellFragment(c, previousWasSnippet) == Genbdoc.ShellFragment(c, previousWasSnippet)
  {
    Genbdoc.ShellFragmentShape(c);
  }

  /** `format_python_snippet_cell`: the prompted block of the package and every output. */
  function SnippetFragment(c: Cell, previousWasSnippet: bool): string
    requires Genbdoc.TracebackReadable(c.outputs)
  {
    Genbdoc.ReplBlock(c.source, previousWasSnippet) + Outputs(c)
  }

  /** Both converters render an interactive snippet to the same text. */
  lemma SameSnippetFragment(c: Cell, previousWasSnippet: bool)
    requires Genbdoc.MagicLineReadable(c) && Genbdoc.IsPythonReplCodeCell(c)
    requires Genbdoc.TracebackReadable(c.outputs)
    ensures SnippetFragment(c, previousWasSnippet) == Genbdoc.ReplFragment(c, previousWasSnippet)
  {
  }

  // =====================================================================
  // Document assembler (`genbdoc`)

  /** What the loop of `genbdoc` reads of one cell without raising. */
  predicate CellReadable(c: Cell) {
    TagsReadable(c.metadata) &&
    (!IsHidden(c) && (BranchOf(c) == ShellBranch || BranchOf(c) == SnippetBranch) ==>
      Genbdoc.TracebackReadable(c.outputs))
  }

  predicate AllReadable(cells: seq<Cell>) {
    forall i :: 0 <= i < |cells| ==> CellReadable(cells[i])
  }

  /** One iteration of the loop of `genbdoc`. */
  function Step(d: Genbdoc.Doc, c: Cell): Genbdoc.Doc
    requires CellReadable(c)
  {
    if IsHidden(c) then d
    else match BranchOf(c)
      case MarkdownBranch => Genbdoc.Doc(d.text + MarkdownFragment(c, d.previousWasSnippet), false)
      case ShellBranch => Genbdoc.Doc(d.text + ShellFragment(c, d.previousWasSnippet), false)
      case FileBranch => Genbdoc.Doc(d.text + Genbdoc.FileFragment(c, d.previousWasSnippet), false)
      case SnippetBranch => Genbdoc.Doc(d.text + SnippetFragment(c, d.previousWasSnippet), true)
      case NoBranch => d
  }

  /**
   * No renderer reads a file cell's outputs: the step of a file cell is the
   * same whatever its outputs are.
   */
  lemma FileStepIgnoresOutputs(d: Genbdoc.Doc, c: Cell, outputs: seq<Output>)
    requires CellReadable(c) && BranchOf(c) == FileBranch
    ensures CellReadable(c.(outputs := outputs))
    ensures Step(d, c.(outputs := outputs)) == Step(d, c)
  {
  }

  /** A visible cell appends the fragment of its branch; only a snippet leaves the fence open. */
  lemma StepOfBranch(d: Genbdoc.Doc, c: Cell)
    requires CellReadable(c) && !IsHidden(c)
    ensures BranchOf(c) == MarkdownBranch ==>
      Step(d, c) == Genbdoc.Doc(d.text + MarkdownFragment(c, d.previousWasSnippet), false)
    ensures BranchOf(c) == ShellBranch ==>
      Step(d, c) == Genbdoc.Doc(d.text + ShellFragment(c, d.previousWasSnippet), false)
    ensures BranchOf(c) == FileBranch ==>
      Step(d, c) == Genbdoc.Doc(d.text + Genbdoc.FileFragment(c, d.previousWasSnippet), false)
    ensures BranchOf(c) == SnippetBranch ==>
      Step(d, c) == Genbdoc.Doc(d.text + SnippetFragment(c, d.previousWasSnippet), true)
    ensures BranchOf(c) == NoBranch ==> Step(d, c) == d
  {
  }

  function Run(d: Genbdoc.Doc, cells: seq<Cell>): Genbdoc.Doc
    requires AllReadable(cells)
    decreases |cells|
  {
    if cells == [] then d else Run(Step(d, cells[0]), cells[1..])
  }

  /** The Markdown text of a notebook. */
  function Render(cells: seq<Cell>): string
    requires AllReadable(cells)
  {
    Run(Genbdoc.Start, cells).text
  }

  lemma {:induction false} RunSnoc(d: Genbdoc.Doc, cells: seq<Cell>, c: Cell)
    requires AllReadable(cells) && CellReadable(c)
    ensures AllReadable(cells + [c])
    ensures Run(d, cells + [c]) == Step(Run(d, cells), c)
    decreases |cells|
  {
    var all := cells + [c];
    assert forall i :: 0 <= i < |all| ==> all[i] == if i < |cells| then cells[i] else c;
    if cells != [] {
      assert all[1..] == cells[1..] + [c];
      RunSnoc(Step(d, cells[0]), cells[1..], c);
    }
  }

  /** An empty code cell adds nothing and leaves the flag as it was. */
  lemma EmptyCodeCellStep(d: Genbdoc.Doc, cell: Cell)
    requires CellReadable(cell) && !IsHidden(cell)
    ensures cell.cellType == Code && |cell.source| == 0 ==> Step(d, cell) == d
  {
  }

  /** A markdown or python-file cell appends its fragment and closes the fence. */
  lemma PlainAppends(lines: seq<string>, d: Genbdoc.Doc, cell: Cell, fragment: string)
    requires CellReadable(cell) && !IsHidden(cell)
    requires BranchOf(cell) == MarkdownBranch || BranchOf(cell) == FileBranch
    requires BranchOf(cell) == MarkdownBranch ==> fragment == MarkdownFragment(cell, d.previousWasSnippet)
    requires BranchOf(cell) == FileBranch ==> fragment == Genbdoc.FileFragment(cell, d.previousWasSnippet)
    ensures Concat(lines + [fragment]) == Concat(lines) + fragment
    ensures Step(d, cell) == Genbdoc.Doc(d.text + fragment, false)
  {
    ConcatSnoc(lines, fragment);
    StepOfBranch(d, cell);
  }

  lemma ShellAppends(lines: seq<string>, d: Genbdoc.Doc, cell: Cell, out: string)
    requires CellReadable(cell) && !IsHidden(cell) && BranchOf(cell) == ShellBranch
    requires out == Genbdoc.OutputText(cell.outputs)
    ensures var fragment := Genbdoc.EndSnippet(d.previousWasSnippet)
      + ("```\n>" + LStripChar(cell.source[0], '!')) + "\n\n" + out + "```\n";
      Concat(lines + [fragment]) == Concat(lines) + fragment &&
      Step(d, cell) == Genbdoc.Doc(d.text + fragment, false)
  {
    var fragment := Genbdoc.EndSnippet(d.previousWasSnippet)
      + ("```\n>" + LStripChar(cell.source[0], '!')) + "\n\n" + out + "```\n";
    ConcatSnoc(lines, fragment);
    StepOfBranch(d, cell);
  }

  lemma SnippetAppends(lines: seq<string>, d: Genbdoc.Doc, cell: Cell)
    requires CellReadable(cell) && !IsHidden(cell) && BranchOf(cell) == SnippetBranch
    ensures var fragment := Genbdoc.ReplBlock(cell.source, d.previousWasSnippet) + Genbdoc.OutputText(cell.outputs);
      Concat(lines + [fragment]) == Concat(lines) + fragment &&
      Step(d, cell) == Genbdoc.Doc(d.text + fragment, true)
  {
    var fragment := Genbdoc.ReplBlock(cell.source, d.previousWasSnippet) + Genbdoc.OutputText(cell.outputs);
    ConcatSnoc(lines, fragment);
    StepOfBranch(d, cell);
  }

  /**
   * The body of the loop of `genbdoc` for a visible cell: the sequential ifs
   * on the cell type, appending the cell's fragment and updating the flag.
   */
  method AppendCell(lines: seq<string>, previousWasSnippet: bool, cell: Cell)
    returns (newLines: seq<string>, wasSnippet: bool)
    requires CellReadable(cell) && !IsHidden(cell)
    ensures Concat(newLines) == Step(Genbdoc.Doc(Concat(lines), previousWasSnippet), cell).text
    ensures wasSnippet == Step(Genbdoc.Doc(Concat(lines), previousWasSnippet), cell).previousWasSnippet
  {
    ghost var d := Genbdoc.Doc(Concat(lines), previousWasSnippet);
    newLines, wasSnippet := lines, previousWasSnippet;
    EmptyCodeCellStep(d, cell);
    if cell.cellType == Markdown {
      var fragment := MarkdownFragment(cell, wasSnippet);
      PlainAppends(lines, d, cell, fragment);
      newLines := newLines + [fragment];
      wasSnippet := false;
    }
    if cell.cellType == Code && |cell.source| > 0 {
      if StartsWith(cell.source[0], "!") {
        var out := Genbdoc.JoinOutputs(cell.outputs);
        var fragment := Genbdoc.EndSnippet(wasSnippet)
          + ("```\n>" + LStripChar(cell.source[0], '!')) + "\n\n" + out + "```\n";
        ShellAppends(lines, d, cell, out);
        newLines := newLines + [fragment];
        wasSnippet := false;
      } else if StartsWith(cell.source[0], "%%") {
        var fragment := Genbdoc.FileFragment(cell, wasSnippet);
        PlainAppends(lines, d, cell, fragment);
        newLines := newLines + [fragment];
        wasSnippet := false;
      } else {
        var block := Genbdoc.FormatReplBlock(cell.source, wasSnippet);
        var out := Genbdoc.JoinOutputs(cell.outputs);
        var fragment := block + out;
        SnippetAppends(lines, d, cell);
        newLines := newLines + [fragment];
        wasSnippet := true;
      }
    }
  }

  /** `genbdoc` without the file handling: the loop over the cells. */
  method GenerateDoc(cells: seq<Cell>) returns (text: string)
    requires AllReadable(cells)
    ensures text == Render(cells)
  {
    var lines: seq<string> := [];
    var previousWasSimplePythonSnippetCell := false;
    for i := 0 to |cells|
      invariant Concat(lines) == Run(Genbdoc.Start, cells[..i]).text
      invariant previousWasSimplePythonSnippetCell == Run(Genbdoc.Start, cells[..i]).previousWasSnippet
    {
      var cell := cells[i];
      assert Run(Genbdoc.Start, cells[..i + 1]) == Step(Run(Genbdoc.Start, cells[..i]), cell) by {
        assert cells[..i + 1] == cells[..i] + [cell];
        assert AllReadable(cells[..i]);
        RunSnoc(Genbdoc.Start, cells[..i], cell);
      }
      if IsHidden(cell) {
        continue;
      }
      lines, previousWasSimplePythonSnippetCell := AppendCell(lines, previousWasSimplePythonSnippetCell, cell);
    }
    assert cells[..|cells|] == cells;
    text := Concat(lines);
  }

  // ---------------------------------------------------------------------
  // Properties of the assembler

  /**
   * The variant's fence flag is set by a rendered snippet and cleared by any
   * other rendered cell; hidden cells and empty code cells leave the
   * document as it was.
   */
  lemma StepFlag(d: Genbdoc.Doc, c: Cell)
    requires CellReadable(c)
    ensures IsHidden(c) || BranchOf(c) == NoBranch ==> Step(d, c) == d
    ensures !IsHidden(c) && BranchOf(c) != NoBranch ==>
      Step(d, c).previousWasSnippet == (BranchOf(c) == SnippetBranch)
    ensures StartsWith(Step(d, c).text, d.text)
  {
    var t := Step(d, c).text;
    assert t[..|d.text|] == d.text;
  }

  /**
   * On a notebook without markdown and whose every visible `%%` cell has a
   * `#` second line, the two converters produce the same document.
   */
  lemma {:induction false} VariantAgreesWithPackage(d: Genbdoc.Doc, cells: seq<Cell>)
    requires AllReadable(cells) && Genbdoc.AllReadable(cells)
    requires forall i :: 0 <= i < |cells| && !IsHidden(cells[i]) ==> Agrees(cells[i])
    ensures Run(d, cells) == Genbdoc.Run(d, cells)
    decreases |cells|
  {
    if cells != [] {
      StepAgrees(d, cells[0]);
      VariantAgreesWithPackage(Step(d, cells[0]), cells[1..]);
    }
  }

  /** A visible cell that both converters render alike. */
  predicate Agrees(c: Cell) {
    c.cellType == Code &&
    (|c.source| > 0 && StartsWith(c.source[0], "%%") ==> |c.source| > 1 && StartsWith(c.source[1], "#"))
  }

  lemma StepAgrees(d: Genbdoc.Doc, c: Cell)
    requires CellReadable(c) && Genbdoc.CellReadable(c)
    requires !IsHidden(c) ==> Agrees(c)
    ensures Step(d, c) == Genbdoc.Step(d, c)
  {
    if !IsHidden(c) {
      BranchAgreesWithPackage(c);
      if BranchOf(c) == ShellBranch {
        SameShellFragment(c, d.previousWasSnippet);
      }
    }
  }
}
