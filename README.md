# genbdoc in Dafny

genbdoc turns a Jupyter notebook into Markdown documentation. This project
models its core on an already parsed notebook, which is a sequence of cells.
Each cell has a type, source lines, metadata tags and execution outputs.

- **Classifier.** A code cell with source is a shell command (`!`), a python
  file (`%%` followed by a `#` line) or an interactive snippet.
- **Output extractor.** It joins stream text and result text. When the text
  holds a traceback it keeps only the last line. It strips the result and
  adds one line break.
- **Renderers.** There is one renderer per kind of cell, plus one for
  markdown cells. Each takes the "previous was snippet" flag. Markdown, file
  and shell blocks first close an open `python` fence. A snippet opens a fence
  only when none is open, and never closes it.
- **Assembler.** `nbtomd` is a loop over the cells. It appends fragments and
  threads the fence flag. It is modelled as a method proved equal to a pure
  fold (`Run`).
- **Older converter.** `genbdoc.py` has the same pipeline with an if/elif
  classifier, an unstripped markdown renderer, and a `get_outputs` without
  the python-file exemption, which no renderer calls on a file cell. Its
  proofs relate it to the package.
- **Example pass.** `genex` rewrites python-file cells in place in an
  `array<Cell>`. Each gets a name `<prefix><NN>.py`: the prefix comes from
  the nearest `ex_` tag, and the number counts per prefix. The pass can also
  point `! python x.py` shell lines at the file its counter names: the
  latest example file written, or `<prefix>00.py`, which is never written,
  when no file cell comes before the line. It returns the example files it
  writes, as (name, contents) pairs.

Files:
- `Text.dfy`: the Python `str` operations used (strip, lstrip(c), split,
  join, `{n:02d}`).
- `Notebook.dfy`: the cell records and the hide tag.
- `Genbdoc.dfy`: `src/genbdoc/__init__.py`, except the example pass.
- `GenbdocVariant.dfy`: `src/genbdoc/genbdoc.py`.
- `Examples.dfy`: the example pass of `genex`.

Python crash paths are preconditions:
- `source[1]` of a `%%` cell (`MagicLineReadable`);
- `tags` of non-empty metadata (`TagsReadable`);
- the last line of the last output in the traceback branch
  (`TracebackReadable`).

## Model

| member | source | states |
|---|---|---|
| Text.Strip | src/genbdoc/__init__.py:61 | `strip` returns the slice of the text between blank text on both sides; the slice has no whitespace at either end, and is empty exactly when the text is blank |
| Text.StripFrame | src/genbdoc/__init__.py:61 | a core with no space at either end, framed by blank text, strips to that core (strip is determined by its frame) |
| Text.StripBehindHead | src/genbdoc/__init__.py:70 | text behind a head that starts with a non-space keeps its leading spaces under strip; only its trailing blank is removed |
| Text.RStripOfNonBlank | src/genbdoc/__init__.py:92-93 | non-blank text is its right-stripped body, which ends in a non-space, followed by blank text |
| Text.StripOfStripped | src/genbdoc/__init__.py:61 | strip is idempotent, also after a line break is appended to its result |
| Text.LStripChar | src/genbdoc/__init__.py:80 | `lstrip("!")` removes exactly the leading run of the character: the result is a suffix, everything dropped is that character, and the result does not start with it |
| Text.LStripCharSplit | src/genbdoc/__init__.py:80 | on text that starts with the character, the removed run is non-empty and the text is that run followed by the result |
| Text.IsBlank | src/genbdoc/__init__.py:90 | `len(s.strip()) == 0` (definition; see `Strip`, whose result is empty exactly for blank text) |
| Text.StartsWith | src/genbdoc/__init__.py:100-109 | `s.startswith(p)`, also at :175 and :226 (definition; see `Genbdoc.ClassificationPartition`, `Genbdoc.BangIsNotMagic`) |
| Text.EndsWith | src/genbdoc/__init__.py:226 | `s.endswith(p)` (definition; see `WordEndingOccurs`) |
| Text.Contains | src/genbdoc/__init__.py:58 | `p in s`, also at :91 (definition; see `UnsplitHasNoSeparator`, `WordEndingOccurs`, `Genbdoc.DropPassAppend`) |
| Text.SplitOn | src/genbdoc/__init__.py:227 | `split(sep)` gives at least one part; the first part is a prefix of the text, and no part contains the separator |
| Text.SplitJoin | src/genbdoc/__init__.py:227-229 | joining the parts of `split(sep)` with `sep` gives back the line |
| Text.UnsplitHasNoSeparator | src/genbdoc/__init__.py:227 | a text that `split(sep)` leaves in one piece does not contain the separator |
| Text.Concat | src/genbdoc/__init__.py:160 | `"".join` of a list of strings (definition; see `ConcatAppend`) |
| Text.ConcatAppend | src/genbdoc/__init__.py:160 | `"".join` of two lists of fragments is the join of the first followed by the join of the second |
| Text.TakeWord | src/genbdoc/__init__.py:226 | a word of `split()` is the longest prefix of the text without whitespace: every character of it is a non-space, and it stops at a space or at the end |
| Text.Words | src/genbdoc/__init__.py:226 | `split()`: the maximal runs of non-space characters, in order (definition; see `WordsOccur`) |
| Text.WordsOccur | src/genbdoc/__init__.py:226 | every word of `split()` is non-empty, has no whitespace, and occurs in the text |
| Text.SomeWordEndsWith | src/genbdoc/__init__.py:226 | `any(s.endswith(suffix) for s in line.split())` (definition; see `WordEndingOccurs`) |
| Text.WordEndingOccurs | src/genbdoc/__init__.py:226 | when some word of `split()` ends with the suffix, the text contains the suffix |
| Text.Decimal | src/genbdoc/__init__.py:218 | the decimal numeral is digits only, one digit exactly for numbers below ten, at most two below a hundred |
| Text.Pad2 | src/genbdoc/__init__.py:218 | `{n:02d}` is digits only, at least two of them, exactly two below a hundred |
| Text.ParseDecimalOfDecimal | src/genbdoc/__init__.py:218 | the decimal numeral reads back as the number |
| Text.Pad2RoundTrip | src/genbdoc/__init__.py:218 | the zero-padded numeral reads back as the number, so distinct counters give distinct numerals |
| Notebook.IsHidden | src/genbdoc/__init__.py:141 | the skip test `cell["metadata"] and "to_hide" in cell["metadata"]["tags"]` (definition; see `Genbdoc.VisibleAppend`, `Genbdoc.HiddenCellsContributeNothing`) |
| Genbdoc.IsCodeCellWithSourceContent | src/genbdoc/__init__.py:96-97 | a code cell with at least one source line (definition; see `ClassificationPartition`) |
| Genbdoc.IsCodeCellStartingWith | src/genbdoc/__init__.py:100-101 | a code cell with source whose first line starts with the given text (definition; see `ClassificationPartition`, `GenbdocVariant.BranchByFirstLine`) |
| Genbdoc.IsShellCommandCodeCell | src/genbdoc/__init__.py:104-105 | a code cell with source whose first line starts with `!` (definition; see `ClassificationPartition`) |
| Genbdoc.IsPythonFileCodeCell | src/genbdoc/__init__.py:108-109 | a code cell with source whose first line starts with `%%` and whose second line starts with `#` (definition; see `ClassificationPartition`) |
| Genbdoc.IsPythonReplCodeCell | src/genbdoc/__init__.py:112-115 | a code cell with source that is neither of the other two kinds (definition; see `ClassificationPartition`) |
| Genbdoc.ClassificationPartition | src/genbdoc/__init__.py:96-115 | a code cell with source is exactly one of shell, python file and snippet; a markdown cell or an empty code cell is none of them |
| Genbdoc.BangIsNotMagic | src/genbdoc/__init__.py:104-109 | a line cannot start with both `!` and `%%` |
| Genbdoc.OutputText | src/genbdoc/__init__.py:51-61 | the joined output texts, or the last line of the last output when they hold `Traceback `, stripped with one line break, and empty for empty text (definition; see `OutputTextKeepsText`, `TracebackKeepsOnlyLastLine`) |
| Genbdoc.Normalize | src/genbdoc/__init__.py:61 | `out.strip() + "\n" if out else ""` (definition; see `OutputTextKeepsText`, `OutputTextIdempotent`) |
| Genbdoc.Outputs | src/genbdoc/__init__.py:46-61 | `__get_outputs`: empty for a python-file cell, else the output text (definition; see `GetOutputs`) |
| Genbdoc.CollectOutputTexts | src/genbdoc/__init__.py:51-56 | the loop collects, in order, the joined text of each stream output and the joined `text/plain` of each result, and nothing for other outputs |
| Genbdoc.JoinOutputs | src/genbdoc/__init__.py:57-61 | the loop, the traceback truncation and the strip compute the specified output text |
| Genbdoc.GetOutputs | src/genbdoc/__init__.py:46-61 | `__get_outputs` is the output text of the cell, and empty for a python-file cell whatever its outputs |
| Genbdoc.OutputTextKeepsText | src/genbdoc/__init__.py:57-61 | the output text is empty or a core with no whitespace at either end followed by one line break; without the marker it is empty exactly when the joined text is, and otherwise its core is the joined text with blank text removed on both sides, which is `strip` |
| Genbdoc.TracebackKeepsOnlyLastLine | src/genbdoc/__init__.py:58-61 | with a traceback, the output text is that of the last line of the last output alone, stripped with one line break |
| Genbdoc.OutputTextIdempotent | src/genbdoc/__init__.py:57-61 | without the marker, feeding the output text back as a single stream output gives it back unchanged |
| Genbdoc.MarkerOnlyFromJoined | src/genbdoc/__init__.py:58-61 | stripping and adding a line break never creates the traceback marker |
| Genbdoc.TracebackExample | src/genbdoc/__init__.py:58-61 | a stream that prints a traceback header and one indented line shows only that line, stripped |
| Genbdoc.HelloOutput | tests/test_shell.py:17 | the output of the `hello` shell cell is `hello\n` |
| Genbdoc.ShellExample | tests/test_shell.py:10-15 | the `hello` shell cell renders to the expected block |
| Genbdoc.EndSnippet | src/genbdoc/__init__.py:42-43 | the closing fence line after an open snippet, nothing otherwise (definition; see `ClosingFence`) |
| Genbdoc.MarkdownFragment | src/genbdoc/__init__.py:68-70 | `__format_markdown_cell` (definition; see `MarkdownCloseBeforeOpen`) |
| Genbdoc.MarkdownCloseBeforeOpen | src/genbdoc/__init__.py:68-70 | without an open snippet the markdown fragment is the stripped text and two line breaks; after one it is the fence and the right-stripped text (the fence alone for blank text), then two line breaks |
| Genbdoc.FileFragment | src/genbdoc/__init__.py:73-74 | `__format_python_file_cell` (definition; see `FileFragmentShape`) |
| Genbdoc.FileFragmentShape | src/genbdoc/__init__.py:73-74 | with the flag set the fragment is the closing fence followed by the fragment without it; that one opens a `python` block and ends by closing it, and replacing the `%%` line leaves it unchanged |
| Genbdoc.ShellFragment | src/genbdoc/__init__.py:77-84 | `__format_shell_cell` (definition; see `ShellFragmentShape`) |
| Genbdoc.ShellFragmentShape | src/genbdoc/__init__.py:77-84 | with the flag set the fragment is the closing fence followed by the fragment without it; that one is a fence, `>` and the command without its leading `!`s, a blank line, the cell's output text and the closing fence |
| Genbdoc.ShellPromptDropsOnlyBangs | src/genbdoc/__init__.py:80 | the prompt drops a non-empty run of `!` and nothing else |
| Genbdoc.PromptLine | src/genbdoc/__init__.py:90 | the `... ` prompt for an indented or blank line, else `>>> ` (definition; see `PromptLineRoundTrip`, `PrimaryPrompt`) |
| Genbdoc.PrimaryPrompt | src/genbdoc/__init__.py:90 | a line that starts with a non-space gets the `>>> ` prompt |
| Genbdoc.PromptLines | src/genbdoc/__init__.py:89-90 | every source line gets its prompt, one output line per source line, in order |
| Genbdoc.PromptLineRoundTrip | src/genbdoc/__init__.py:90 | removing the four-character prompt gives back the line; the prompt is `... ` exactly for indented or blank lines |
| Genbdoc.DropPass | src/genbdoc/__init__.py:91 | the filter keeps only lines without `>>> pass`, and every such line it was given |
| Genbdoc.DropPassAppend | src/genbdoc/__init__.py:91 | the filter works line by line in order: it distributes over concatenation and keeps a single line exactly when it lacks `>>> pass` |
| Genbdoc.DropPassKeepsClean | src/genbdoc/__init__.py:91 | lines without `>>> pass` are all kept, in order |
| Genbdoc.ConcatOfPrompted | src/genbdoc/__init__.py:92 | joined prompted lines are empty or start with a prompt |
| Genbdoc.ReplBlock | src/genbdoc/__init__.py:88-93 | the prompted, filtered lines, after a `python` fence when none is open, stripped with one line break (definition; see `ReplBlockOpensFenceOnlyWhenClosed`) |
| Genbdoc.ReplFragment | src/genbdoc/__init__.py:87-93 | `__format_python_repl_snippet_cell`: the block and the cell's output text (definition; see `FormatPythonReplSnippetCell`) |
| Genbdoc.ReplBlockOpensFenceOnlyWhenClosed | src/genbdoc/__init__.py:92-93 | the snippet block opens a `python` fence exactly when the flag is clear: then it is the fence followed by the block it has with the flag set, except that it is the fence alone when that block is a lone line break (empty source, or every line holding `>>> pass`); the flag-set block never starts with a backtick |
| Genbdoc.FormatReplBlock | src/genbdoc/__init__.py:88-93 | the prompting and filtering loop computes the specified block |
| Genbdoc.FormatPythonReplSnippetCell | src/genbdoc/__init__.py:87-93 | the snippet renderer is the block followed by the cell's output, and closes no fence |
| Genbdoc.Step | src/genbdoc/__init__.py:139-158 | one iteration of the loop: hidden cells are skipped, and each kind appends its fragment and sets the flag (definition; see `StepFlag`, `FlagTracksLastRenderedCell`, `ClosingFence`) |
| Genbdoc.Run | src/genbdoc/__init__.py:139-158 | the loop over the cells as a fold of `Step` (definition; see `RunSnoc`) |
| Genbdoc.Render | src/genbdoc/__init__.py:136-160 | the joined text after the loop, from empty text and a clear flag (definition; see `NotebookToMarkdown`) |
| Genbdoc.RunSnoc | src/genbdoc/__init__.py:139-158 | running the loop over one more cell is one more step |
| Genbdoc.NotebookToMarkdown | src/genbdoc/__init__.py:136-160 | the loop's joined text is the document of the fold of `Step` over the cells, from empty text and a clear flag |
| Genbdoc.Visible | src/genbdoc/__init__.py:141-142 | the visible cells are cells of the notebook that are not hidden |
| Genbdoc.VisibleAppend | src/genbdoc/__init__.py:141-142 | the visible cells are picked cell by cell in order: the selection distributes over concatenation and keeps a single cell exactly when it is not hidden |
| Genbdoc.HiddenCellsContributeNothing | src/genbdoc/__init__.py:141-142 | deleting every hidden cell leaves the document and the flag unchanged |
| Genbdoc.StepFlag | src/genbdoc/__init__.py:144-158 | a hidden or empty code cell changes nothing; any other cell sets the flag exactly when it is a snippet |
| Genbdoc.FlagTracksLastRenderedCell | src/genbdoc/__init__.py:138-158 | after the whole notebook the flag is set exactly when the last cell that renders anything is a snippet |
| Genbdoc.SnippetOpensFence | src/genbdoc/__init__.py:156-158 | with no fence open, a snippet extends the text with the `python` fence and leaves it open |
| Genbdoc.SnippetContinuesFence | src/genbdoc/__init__.py:156-158 | after a snippet, the next snippet appends a fragment that does not start with a backtick, so the open fence continues |
| Genbdoc.ClosingFence | src/genbdoc/__init__.py:148-154 | a shell or file cell after a snippet appends exactly one closing fence line before the block it renders with the flag clear |
| GenbdocVariant.BranchOf | src/genbdoc/genbdoc.py:106-119 | the branch of the if/elif chain a cell takes (definition; see `BranchByFirstLine`) |
| GenbdocVariant.BranchByFirstLine | src/genbdoc/genbdoc.py:106-119 | markdown, the empty code cell, and each of the three code branches are chosen by the cell type and the first line alone |
| GenbdocVariant.BranchAgreesWithPackage | src/genbdoc/genbdoc.py:110-119 | the two classifiers agree except on a `%%` cell whose second line does not start with `#`, a file here and a snippet in the package |
| GenbdocVariant.LoneMagicLineIsAFile | src/genbdoc/genbdoc.py:114-115 | every one-line code cell whose line starts with `%%` is a file here, while the package's classifier cannot read its second line |
| GenbdocVariant.Outputs | src/genbdoc/genbdoc.py:44-55 | `get_outputs` is empty or ends in a line break |
| GenbdocVariant.NoFileExemption | src/genbdoc/genbdoc.py:44-55 | `get_outputs` has no python-file exemption: on a file cell it gives the output text where the package's gives nothing |
| GenbdocVariant.FileStepIgnoresOutputs | src/genbdoc/genbdoc.py:67-68 | no renderer reads a file cell's outputs: its step is the same whatever the outputs |
| GenbdocVariant.MarkdownFragment | src/genbdoc/genbdoc.py:62-64 | `format_markdown_cell` (definition; see `MarkdownKeepsText`) |
| GenbdocVariant.MarkdownKeepsText | src/genbdoc/genbdoc.py:62-64 | the markdown fragment always ends in a line break and starts with the unstripped text; it is that text when it already ends in one, else the text and one line break |
| GenbdocVariant.MarkdownClosesFence | src/genbdoc/genbdoc.py:62-64 | after a snippet, markdown with text is the closing fence and the fragment it has with the flag clear |
| GenbdocVariant.MarkdownAgreesOnCleanText | src/genbdoc/genbdoc.py:62-64 | markdown already in the package's shape renders alike in both converters, with the flag clear and with it set |
| GenbdocVariant.ShellFragment | src/genbdoc/genbdoc.py:71-74 | `format_shell_cell` (definition; see `SameShellFragment`) |
| GenbdocVariant.SameShellFragment | src/genbdoc/genbdoc.py:71-74 | both converters render a shell cell to the same text |
| GenbdocVariant.SnippetFragment | src/genbdoc/genbdoc.py:77-83 | `format_python_snippet_cell` (definition; see `SameSnippetFragment`) |
| GenbdocVariant.SameSnippetFragment | src/genbdoc/genbdoc.py:77-83 | both converters render a snippet to the same text |
| GenbdocVariant.Step | src/genbdoc/genbdoc.py:101-119 | one iteration of the loop, by branch (definition; see `StepFlag`, `StepAgrees`) |
| GenbdocVariant.Run | src/genbdoc/genbdoc.py:101-119 | the loop over the cells as a fold of `Step` (definition; see `RunSnoc`) |
| GenbdocVariant.Render | src/genbdoc/genbdoc.py:98-121 | the joined text after the loop (definition; see `GenerateDoc`) |
| GenbdocVariant.RunSnoc | src/genbdoc/genbdoc.py:101-119 | running the loop over one more cell is one more step |
| GenbdocVariant.AppendCell | src/genbdoc/genbdoc.py:106-119 | the loop body for a visible cell leaves the joined lines and the flag as one `Step` of the fold from the document they form |
| GenbdocVariant.GenerateDoc | src/genbdoc/genbdoc.py:98-121 | the loop's joined text is the document of the fold of this module's `Step` over the cells, from empty text and a clear flag |
| GenbdocVariant.StepFlag | src/genbdoc/genbdoc.py:100-119 | hidden and empty code cells change nothing; the flag is set by a snippet and cleared by any other rendered cell; the text only grows |
| GenbdocVariant.VariantAgreesWithPackage | src/genbdoc/genbdoc.py:98-121 | on notebooks without markdown whose visible `%%` cells all have a `#` second line, both converters produce the same document and flag |
| GenbdocVariant.StepAgrees | src/genbdoc/genbdoc.py:106-119 | one step of each converter agrees on such a cell |
| Examples.IsExampleTag | src/genbdoc/__init__.py:175 | `tag.startswith("ex_")` (definition; see `FirstExampleTag`) |
| Examples.FirstExampleTag | src/genbdoc/__init__.py:174-176 | the position found holds the first `ex_` tag, with none before it; none is found exactly when no tag starts with `ex_` |
| Examples.CarriesExampleTag | src/genbdoc/__init__.py:173-175 | a cell with non-empty metadata holding an `ex_` tag (definition; see `ExampleTagNameOfTag`) |
| Examples.ExampleTagName | src/genbdoc/__init__.py:174-176 | the first `ex_` tag of a cell with `removeprefix("ex_")` applied (definition; see `ExampleTagNameOfTag`) |
| Examples.ExampleTagNameOfTag | src/genbdoc/__init__.py:173-176 | a cell carries an `ex_` tag exactly when its metadata is non-empty and some tag starts with `ex_`; the name is the first such tag without its `ex_` |
| Examples.ExamplePrefix | src/genbdoc/__init__.py:171-177 | `__get_notebook_example_prefix` (definition; see `ExamplePrefixDefault`, `ExamplePrefixNearest`) |
| Examples.ExamplePrefixDefault | src/genbdoc/__init__.py:171-177 | with no `ex_` tag anywhere, the prefix is `example` |
| Examples.ExamplePrefixNearest | src/genbdoc/__init__.py:171-177 | the prefix is the first `ex_` tag of the last cell that has one, without its `ex_`; later cells are passed over, earlier cells are not read |
| Examples.ExamplePrefixReadsOnlyMetadata | src/genbdoc/__init__.py:171-177 | the search reads only metadata, so rewriting sources changes no prefix |
| Examples.Head | src/genbdoc/__init__.py:203 | `cells[:1]` (definition; see `InitialCounterOfFirstCell`) |
| Examples.InitialCounter | src/genbdoc/__init__.py:202-204 | number 0 under the prefix of `cells[:1]` (definition; see `InitialCounterOfFirstCell`) |
| Examples.InitialCounterOfFirstCell | src/genbdoc/__init__.py:202-204 | the pass starts at number 0 under the first cell's `ex_` tag name when it carries one, else under `example` |
| Examples.Advance | src/genbdoc/__init__.py:212-216 | the counter for a file cell: one more under the same prefix, one under a new prefix (definition; see `FileCellNumbered`) |
| Examples.CounterAfter | src/genbdoc/__init__.py:202-216 | the number and prefix after the first `n` cells (definition; see `FileCellNumbered`, `NumberCountsFiles`) |
| Examples.ExampleName | src/genbdoc/__init__.py:218 | `f"{example_prefix}{example_number:02d}.py"` (definition; see `NamesDifferByNumber`) |
| Examples.FileCellNumbered | src/genbdoc/__init__.py:210-216 | after a file cell the counter names that cell's prefix and is at least one; it counts on under the same prefix and restarts at one under a new prefix |
| Examples.NumberCountsFiles | src/genbdoc/__init__.py:206-216 | while the prefix stays the same, the counter grows by the number of file cells passed |
| Examples.CounterMovesOn | src/genbdoc/__init__.py:210-216 | between two file cells under a steady prefix the counter moves forward |
| Examples.DistinctNamesWithinPrefix | src/genbdoc/__init__.py:210-219 | two file cells under one steady prefix get different file names |
| Examples.NamesDifferByNumber | src/genbdoc/__init__.py:218 | under one prefix, different numbers give different file names |
| Examples.RunsScript | src/genbdoc/__init__.py:226 | `source[0].startswith("! python")` and some word of `split()` ending in `.py` (definition; see `RetargetedLineIsCut`) |
| Examples.RetargetCommand | src/genbdoc/__init__.py:227-229 | the shell line with its first part replaced by `! python <name>` and the parts joined (definition; see `RetargetKeepsRest`) |
| Examples.RetargetKeepsRest | src/genbdoc/__init__.py:226-229 | the line is its parts joined with `.py`; the first part starts the line; no part holds `.py`; the retargeted line is `! python <name>` followed by every part after the first, so the text after the first `.py` is kept without its own `.py`s, and intact when there is only one |
| Examples.RetargetedLineIsCut | src/genbdoc/__init__.py:226-227 | a line that passes the `! python` and `.py`-word test holds a `.py`, so `split(".py")` cuts it into at least two parts, and the first part is the text before its first `.py` |
| Examples.RetargetStartsWithRun | src/genbdoc/__init__.py:228-229 | a retargeted command runs `python` on the example file |
| Examples.NameFile | src/genbdoc/__init__.py:218-219 | the header line of a python-file cell set to `# <name>` (definition; see `NameFileKeepsKind`) |
| Examples.RetargetShell | src/genbdoc/__init__.py:224-229 | the first line of a script-running shell cell retargeted, when asked (definition; see `RetargetShellKeepsKind`) |
| Examples.RewriteCell | src/genbdoc/__init__.py:206-233 | the cell as the pass leaves it (definition; see `RewriteKeepsKind`) |
| Examples.RewriteKeepsKind | src/genbdoc/__init__.py:206-233 | the rewrite keeps each cell's type, metadata, outputs, length and kind; a file cell changes only its second line, to the header naming its example file; a shell cell keeps all but its first line, which is retargeted at the counter's file name exactly when shell rewriting is on and the line passes the `! python` and `.py`-word test, and is kept otherwise; snippets, markdown and empty cells are unchanged, and so is every non-file cell without shell rewriting |
| Examples.NameFileKeepsKind | src/genbdoc/__init__.py:218-219 | the header rewrite keeps the cell's kind; a python file keeps its `%%` line and body and gets the new header as its second line; other cells are unchanged |
| Examples.CounterSteadyWithoutFiles | src/genbdoc/__init__.py:206-216 | cells that are not python files leave the counter as it was |
| Examples.ShellPointsAtLatestFile | src/genbdoc/__init__.py:218-229 | a retargeted shell line after a file cell, with no file cell between them, names the last example file written |
| Examples.ShellBeforeAnyFile | src/genbdoc/__init__.py:202-229 | a shell line retargeted before any file cell names `<prefix>00.py` with the prefix of `cells[:1]`, and no file has been written by then |
| Examples.RetargetShellKeepsKind | src/genbdoc/__init__.py:224-229 | the shell rewrite keeps the cell's type, metadata, outputs, length and kind; it changes nothing in a cell that is not a shell command, or when shell rewriting is off |
| Examples.ExampleFileIsRenderedBody | src/genbdoc/__init__.py:219-222 | the example file holds the new header and the rest of the body, and the rewritten cell renders that same text in a `python` block |
| Examples.Rewritten | src/genbdoc/__init__.py:206-233 | every cell rewritten with the counter after it (definition; see `ProgressDone`, `GenerateExamples`) |
| Examples.FilesUpTo | src/genbdoc/__init__.py:218-222 | the (name, contents) pairs written for the file cells among the first `n`, in order (definition; see `GenerateExamples`, `ExampleFileIsRenderedBody`) |
| Examples.ProgressStep | src/genbdoc/__init__.py:231-233 | writing the rewritten cell back keeps every earlier cell rewritten and every later cell as it was |
| Examples.ProgressDone | src/genbdoc/__init__.py:206-235 | once every cell is processed, the array is the rewritten notebook |
| Examples.PrefixOfProgress | src/genbdoc/__init__.py:211 | the prefix search on the half-rewritten array gives the prefix of the original notebook |
| Examples.GenerateExamples | src/genbdoc/__init__.py:202-233 | the pass rewrites the array in place into the rewritten notebook, and returns the example files it writes, in order |

## Left out

- Reading and writing notebooks as JSON, and writing the example files and
  the Markdown file, are left out. They are I/O: a notebook is a parsed
  `seq<Cell>`, and the example files come back as a list of (name, contents)
  pairs.
- Path handling is left out: `resolve`, `with_suffix`, the current-directory
  glob of `genex` and the `output_suffix` rename.
- The `prettier` run is left out. It is an external process.
- The `clig` command-line wiring is left out. It is a foreign library.
- The unused `kind` parameter is left out. So is the early return of
  `genbdoc` on a missing path, which is path handling.
- The line that opens the output file in `src/genbdoc/genbdoc.py:123` lacks
  its colon, so that module does not parse. Only the logic it evidently
  intends is modelled.
- Whitespace for `strip`, `lstrip` and `split()` is the ASCII set (space,
  tab, line feed, carriage return, vertical tab, form feed). The other
  characters that Python's `str.strip` also treats as whitespace are not
  modelled.
- Cell types other than markdown and code (`raw`) are not modelled. Every
  cell's `source` is present, so the `cell.get("source")` of `genex` never
  yields `None`.
- Outputs of kinds other than `stream` and `execute_result` are one case,
  `OtherOutput`, that adds no text. A result's missing `text` is an empty
  list.
- An `execute_result` without `data["text/plain"]`, or a `stream` without
  `text`, raises `KeyError` in `__get_outputs` (`src/genbdoc/__init__.py:54-56`)
  and in the older converter's `get_outputs`. The model cannot express the
  missing entry: it reads it as an empty list, which adds no text.
- Examples.DistinctNamesWithinPrefix: distinct names are promised only while
  the prefix stays steady. A prefix that recurs after another one restarts
  its counter at one, so two file cells can get the same name and the later
  file overwrites the earlier one. The pass does this as written, and the
  model keeps it.
- In a retargeted shell line, every `.py` after the first is dropped, as
  `"".join` of the `split(".py")` parts drops it. The model keeps this as
  the pass's behaviour.
- The Python exceptions that the code can raise are preconditions rather
  than error results: indexing `source[1]` of a one-line `%%` cell, reading
  `tags` from metadata without it, and indexing the last output's `text` in
  the traceback branch. Each caller that reaches them crashes in the source.
