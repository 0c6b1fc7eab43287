/**
 * The example pass of the package (`genex`): every python-file cell is
 * given a numbered file name, `<prefix><NN>.py`, which replaces its `#`
 * header line and names the file its body is written to. The prefix comes
 * from the nearest `ex_` tag at or before the cell; the number counts the
 * file cells since the prefix last changed. Optionally, `! python x.py`
 * shell lines are pointed at the example file named by the counter: the
 * latest one written, or `<prefix>00.py`, which is never written, before
 * the first file cell.
 */
module Examples {
  import opened Text
  import opened Notebook
  import opened Genbdoc

  const ExampleTagPrefix := "ex_"
  const DefaultPrefix := "example"

  // =====================================================================
  // The prefix search (`__get_notebook_example_prefix`)

  predicate IsExampleTag(tag: string) {
    StartsWith(tag, ExampleTagPrefix)
  }

  /** The position of the first `ex_` tag, if any. */
  function FirstExampleTag(tags: seq<string>): (r: Option<nat>)
    ensures r.Some? ==>
      r.value < |tags| && IsExampleTag(tags[r.value]) && forall k :: 0 <= k < r.value ==> !IsExampleTag(tags[k])
    ensures r.None? ==> forall k :: 0 <= k < |tags| ==> !IsExampleTag(tags[k])
  {
    if tags == [] then None
    else if IsExampleTag(tags[0]) then Some(0)
    else match FirstExampleTag(tags[1..])
      case None => None
      case Some(k) => Some(k + 1)
  }

  /** A cell whose metadata is non-empty and holds an `ex_` tag. */
  predicate CarriesExampleTag(c: Cell)
    requires TagsReadable(c.metadata)
  {
    IsTruthy(c.metadata) && FirstExampleTag(c.metadata.tags.value).Some?
  }

  /** The tag's name with `ex_` removed. */
  function ExampleTagName(c: Cell): string
    requires TagsReadable(c.metadata) && CarriesExampleTag(c)
  {
    var tags := c.metadata.tags.value;
    tags[FirstExampleTag(tags).value][|ExampleTagPrefix|..]
  }

  /**
   * A cell carries an `ex_` tag exactly when its metadata is non-empty and
   * some tag starts with `ex_`; the name is what `removeprefix("ex_")` leaves
   * of the first such tag.
   */
  lemma ExampleTagNameOfTag(c: Cell)
    requires TagsReadable(c.metadata)
    ensures CarriesExampleTag(c) <==>
      IsTruthy(c.metadata) &&
      exists k :: 0 <= k < |c.metadata.tags.value| && IsExampleTag(c.metadata.tags.value[k])
    ensures CarriesExampleTag(c) ==>
      var tags := c.metadata.tags.value;
      ExampleTagPrefix + ExampleTagName(c) == tags[FirstExampleTag(tags).value]
  {
    if CarriesExampleTag(c) {
      var tags := c.metadata.tags.value;
      var tag := tags[FirstExampleTag(tags).value];
      assert tag[..|ExampleTagPrefix|] == ExampleTagPrefix;
      assert tag == tag[..|ExampleTagPrefix|] + tag[|ExampleTagPrefix|..];
    }
  }

  /**
   * The search reads `tags` of every cell with non-empty metadata from the
   * end backwards, until it meets a cell with an `ex_` tag.
   */
  predicate PrefixSearchReadable(cells: seq<Cell>)
    decreases |cells|
  {
    cells == [] ||
    (var c := cells[|cells| - 1];
     TagsReadable(c.metadata) && (CarriesExampleTag(c) || PrefixSearchReadable(cells[..|cells| - 1])))
  }

  /** `__get_notebook_example_prefix`: the first `ex_` tag of the last cell that has one. */
  function ExamplePrefix(cells: seq<Cell>): string
    requires PrefixSearchReadable(cells)
    decreases |cells|
  {
    if cells == [] then DefaultPrefix
    else
      var c := cells[|cells| - 1];
      if CarriesExampleTag(c) then ExampleTagName(c) else ExamplePrefix(cells[..|cells| - 1])
  }

  /** With no `ex_` tag anywhere, the prefix is `example`. */
  lemma {:induction false} ExamplePrefixDefault(cells: seq<Cell>)
    requires forall i :: 0 <= i < |cells| ==> TagsReadable(cells[i].metadata) && !CarriesExampleTag(cells[i])
    ensures PrefixSearchReadable(cells) && ExamplePrefix(cells) == DefaultPrefix
    decreases |cells|
  {
    if cells != [] {
      ExamplePrefixDefault(cells[..|cells| - 1]);
    }
  }

  /**
   * The prefix is taken from the last cell that carries an `ex_` tag: the
   * cells after it are passed over and the cells before it are not read.
   */
  lemma {:induction false} ExamplePrefixNearest(cells: seq<Cell>, j: nat)
    requires j < |cells| && TagsReadable(cells[j].metadata) && CarriesExampleTag(cells[j])
    requires forall k :: j < k < |cells| ==> TagsReadable(cells[k].metadata) && !CarriesExampleTag(cells[k])
    ensures PrefixSearchReadable(cells) && ExamplePrefix(cells) == ExampleTagName(cells[j])
    decreases |cells|
  {
    if j < |cells| - 1 {
      var init := cells[..|cells| - 1];
      assert init[j] == cells[j];
      assert forall k :: j < k < |init| ==> init[k] == cells[k];
      ExamplePrefixNearest(init, j);
    }
  }

  predicate SameMetadata(a: seq<Cell>, b: seq<Cell>) {
    |a| == |b| && forall i :: 0 <= i < |a| ==> a[i].metadata == b[i].metadata
  }

  /** The search reads nothing but metadata: rewriting sources changes no prefix. */
  lemma {:induction false} ExamplePrefixReadsOnlyMetadata(a: seq<Cell>, b: seq<Cell>)
    requires SameMetadata(a, b) && PrefixSearchReadable(a)
    ensures PrefixSearchReadable(b) && ExamplePrefix(b) == ExamplePrefix(a)
    decreases |a|
  {
    if a != [] {
      var n := |a| - 1;
      assert a[n].metadata == b[n].metadata;
      if !CarriesExampleTag(a[n]) {
        ExamplePrefixReadsOnlyMetadata(a[..n], b[..n]);
      }
    }
  }

  // =====================================================================
  // The counter

  /** `example_number` and `example_prefix` (which `previous_example_prefix` always equals). */
  datatype Counter = Counter(number: nat, prefix: string)

  /** `cells[:1]` */
  function Head(cells: seq<Cell>): seq<Cell> {
    if cells == [] then [] else cells[..1]
  }

  /** The tag search run for the file cell at position `n - 1` reads without raising. */
  predicate FileSearchReadable(cells: seq<Cell>, n: nat)
    requires 0 < n <= |cells|
  {
    MagicLineReadable(cells[n - 1]) && IsPythonFileCodeCell(cells[n - 1]) ==> PrefixSearchReadable(cells[..n])
  }

  /** Everything the pass reads without raising. */
  predicate GenexReadable(cells: seq<Cell>) {
    PrefixSearchReadable(Head(cells)) &&
    (forall i :: 0 <= i < |cells| ==> MagicLineReadable(cells[i])) &&
    (forall n :: 0 < n <= |cells| ==> FileSearchReadable(cells, n))
  }

  function InitialCounter(cells: seq<Cell>): Counter
    requires PrefixSearchReadable(Head(cells))
  {
    Counter(0, ExamplePrefix(Head(cells)))
  }

  /**
   * The pass starts at number 0 under the prefix of `cells[:1]`: the first
   * cell's `ex_` tag name when it carries one, else `example`.
   */
  lemma InitialCounterOfFirstCell(cells: seq<Cell>)
    requires cells == [] || TagsReadable(cells[0].metadata)
    ensures PrefixSearchReadable(Head(cells))
    ensures InitialCounter(cells).number == 0
    ensures InitialCounter(cells).prefix ==
      if cells != [] && CarriesExampleTag(cells[0]) then ExampleTagName(cells[0]) else DefaultPrefix
  {
    if cells != [] {
      var head := Head(cells);
      assert head[|head| - 1] == cells[0];
      assert head[..|head| - 1] == [];
      assert ExamplePrefix(head) ==
        if CarriesExampleTag(cells[0]) then ExampleTagName(cells[0]) else ExamplePrefix([]);
    }
  }

  /** What a file cell does to the counter: count on under the same prefix, else restart at one. */
  function Advance(k: Counter, prefix: string): Counter {
    if prefix == k.prefix then Counter(k.number + 1, prefix) else Counter(1, prefix)
  }

  /** The counter after the first `n` cells. */
  function CounterAfter(cells: seq<Cell>, n: nat): Counter
    requires GenexReadable(cells) && n <= |cells|
  {
    if n == 0 then InitialCounter(cells)
    else
      var k := CounterAfter(cells, n - 1);
      var i := n - 1;
      if IsPythonFileCodeCell(cells[i]) then
        assert FileSearchReadable(cells, n);
        Advance(k, ExamplePrefix(cells[..i + 1]))
      else k
  }

  /** `f"{example_prefix}{example_number:02d}.py"` */
  function ExampleName(k: Counter): string {
    k.prefix + Pad2(k.number) + ".py"
  }

  /** A file cell takes its number from the counter, which then names its prefix. */
  lemma FileCellNumbered(cells: seq<Cell>, i: nat)
    requires GenexReadable(cells) && i < |cells| && IsPythonFileCodeCell(cells[i])
    ensures PrefixSearchReadable(cells[..i + 1])
    ensures var k := CounterAfter(cells, i + 1);
      k.number >= 1 && k.prefix == ExamplePrefix(cells[..i + 1])
    ensures var before := CounterAfter(cells, i); var k := CounterAfter(cells, i + 1);
      (k.prefix == before.prefix ==> k.number == before.number + 1) &&
      (k.prefix != before.prefix ==> k.number == 1)
  {
    assert FileSearchReadable(cells, i + 1);
  }

  /** The cells of `cells` that are python files. */
  function FileCount(cells: seq<Cell>): nat
    requires forall i :: 0 <= i < |cells| ==> MagicLineReadable(cells[i])
  {
    if cells == [] then 0
    else FileCount(cells[..|cells| - 1]) + (if IsPythonFileCodeCell(cells[|cells| - 1]) then 1 else 0)
  }

  /** If cell `m` is a file cell, it finds `prefix` as its nearest example tag. */
  predicate SteadyAt(cells: seq<Cell>, m: nat, prefix: string)
    requires GenexReadable(cells) && m < |cells|
  {
    IsPythonFileCodeCell(cells[m]) ==>
      assert FileSearchReadable(cells, m + 1);
      ExamplePrefix(cells[..m + 1]) == prefix
  }

  /** Every file cell from `lo` up to `hi` finds `prefix` as its nearest example tag. */
  predicate PrefixSteady(cells: seq<Cell>, lo: nat, hi: nat, prefix: string)
    requires GenexReadable(cells) && lo <= hi <= |cells|
  {
    forall m :: lo <= m < hi ==> SteadyAt(cells, m, prefix)
  }

  /**
   * While the prefix stays the same, the counter counts the file cells: from
   * cell `i` to cell `j` it grows by the number of file cells in between.
   */
  lemma {:induction false} NumberCountsFiles(cells: seq<Cell>, i: nat, j: nat)
    requires GenexReadable(cells) && i <= j <= |cells|
    requires PrefixSteady(cells, i, j, CounterAfter(cells, i).prefix)
    ensures CounterAfter(cells, j).prefix == CounterAfter(cells, i).prefix
    ensures CounterAfter(cells, j).number == CounterAfter(cells, i).number + FileCount(cells[i..j])
    decreases j
  {
    if j > i {
      assert SteadyAt(cells, j - 1, CounterAfter(cells, i).prefix);
      NumberCountsFiles(cells, i, j - 1);
      assert cells[i..j][..j - 1 - i] == cells[i..j - 1];
      assert cells[i..j][j - 1 - i] == cells[j - 1];
    } else {
      assert cells[i..j] == [];
    }
  }

  /** Between two file cells under a steady prefix the counter moves forward. */
  lemma CounterMovesOn(cells: seq<Cell>, i: nat, j: nat)
    requires GenexReadable(cells) && i < j < |cells| && IsPythonFileCodeCell(cells[j])
    requires PrefixSteady(cells, i + 1, j + 1, CounterAfter(cells, i + 1).prefix)
    ensures CounterAfter(cells, j + 1).prefix == CounterAfter(cells, i + 1).prefix
    ensures CounterAfter(cells, j + 1).number > CounterAfter(cells, i + 1).number
  {
    NumberCountsFiles(cells, i + 1, j + 1);
    FileCountEndingInFile(cells, i + 1, j + 1);
  }

  /** Two file cells under one prefix, with no change of prefix between them, get different names. */
  lemma DistinctNamesWithinPrefix(cells: seq<Cell>, i: nat, j: nat)
    requires GenexReadable(cells) && i < j < |cells|
    requires IsPythonFileCodeCell(cells[i]) && IsPythonFileCodeCell(cells[j])
    requires PrefixSteady(cells, i + 1, j + 1, CounterAfter(cells, i + 1).prefix)
    ensures ExampleName(CounterAfter(cells, j + 1)) != ExampleName(CounterAfter(cells, i + 1))
  {
    CounterMovesOn(cells, i, j);
    NamesDifferByNumber(CounterAfter(cells, i + 1), CounterAfter(cells, j + 1));
  }

  /** A run of cells whose last cell is a file counts at least one file. */
  lemma FileCountEndingInFile(cells: seq<Cell>, lo: nat, hi: nat)
    requires GenexReadable(cells) && lo < hi <= |cells| && IsPythonFileCodeCell(cells[hi - 1])
    ensures FileCount(cells[lo..hi]) >= 1
  {
    assert cells[lo..hi][hi - 1 - lo] == cells[hi - 1];
  }

  /** Under one prefix, different numbers give different file names. */
  lemma NamesDifferByNumber(a: Counter, b: Counter)
    requires a.prefix == b.prefix && a.number != b.number
    ensures ExampleName(a) != ExampleName(b)
  {
    Pad2RoundTrip(a.number);
    Pad2RoundTrip(b.number);
    var pa := Pad2(a.number);
    var pb := Pad2(b.number);
    var p := a.prefix;
    if |pa| == |pb| {
      assert ExampleName(a)[|p|..|p| + |pa|] == pa;
      assert ExampleName(b)[|p|..|p| + |pb|] == pb;
    } else {
      assert |ExampleName(a)| != |ExampleName(b)|;
    }
  }

  // =====================================================================
  // The rewrite

  /** `parts = line.split(".py"); parts[0] = "! python <name>"; "".join(parts)` */
  function RetargetCommand(line: string, name: string): string {
    var parts := SplitOn(line, ".py");
    Concat(["! python " + name] + parts[1..])
  }

  /**
   * The command up to its first `.py` becomes `! python <name>`; the rest of
   * the line is kept with every further `.py` removed.
   */
  lemma RetargetKeepsRest(line: string, name: string)
    ensures var parts := SplitOn(line, ".py");
      line == JoinWith(parts, ".py") &&
      StartsWith(line, parts[0]) && (forall k :: 0 <= k < |parts| ==> !Contains(parts[k], ".py")) &&
      RetargetCommand(line, name) == "! python " + name + Concat(parts[1..])
    ensures var parts := SplitOn(line, ".py");
      |parts| == 2 ==>
        line == parts[0] + ".py" + parts[1] && RetargetCommand(line, name) == "! python " + name + parts[1]
  {
    var parts := SplitOn(line, ".py");
    SplitJoin(line, ".py");
    ConcatPrepend("! python " + name, parts[1..]);
    if |parts| == 2 {
      assert parts[1..] == [parts[1]];
      ConcatSingle(parts[1]);
    }
  }

  /**
   * A line the pass retargets holds a `.py`, so `split(".py")` cuts it: the
   * first part is the text before its first `.py`.
   */
  lemma RetargetedLineIsCut(line: string)
    requires RunsScript(line)
    ensures var parts := SplitOn(line, ".py");
      |parts| >= 2 && !Contains(parts[0], ".py") && StartsWith(line, parts[0] + ".py")
  {
    WordEndingOccurs(line, ".py");
    var parts := SplitOn(line, ".py");
    if |parts| == 1 {
      UnsplitHasNoSeparator(line, ".py");
    } else {
      SplitJoin(line, ".py");
      assert line == parts[0] + ".py" + JoinWith(parts[1..], ".py");
      assert line[..|parts[0] + ".py"|] == parts[0] + ".py";
    }
  }

  /** A retargeted command always runs `python`. */
  lemma RetargetStartsWithRun(line: string, name: string)
    ensures StartsWith(RetargetCommand(line, name), "! python " + name)
  {
    var parts := SplitOn(line, ".py");
    ConcatPrepend("! python " + name, parts[1..]);
  }

  lemma ReplaceFirstPart(parts: seq<string>, first: string)
    requires |parts| >= 1
    ensures parts[0 := first] == [first] + parts[1..]
  {
  }

  lemma {:induction false} ConcatPrepend(s: string, rest: seq<string>)
    ensures Concat([s] + rest) == s + Concat(rest)
  {
    ConcatAppend([s], rest);
    ConcatSingle(s);
  }

  /** A shell line that the pass retargets: `! python …` with a word ending in `.py`. */
  predicate RunsScript(line: string) {
    StartsWith(line, "! python") && SomeWordEndsWith(line, ".py")
  }

  /** The cell as the pass leaves it, given the counter after it. */
  function RewriteCell(c: Cell, k: Counter, changeShellCells: bool): Cell
    requires MagicLineReadable(c)
  {
    RetargetShell(NameFile(c, k), k, changeShellCells)
  }

  /** `source[1] = f"# {example_filename}\n"` for a python-file cell. */
  function NameFile(c: Cell, k: Counter): Cell
    requires MagicLineReadable(c)
  {
    if IsPythonFileCodeCell(c) then c.(source := c.source[1 := "# " + ExampleName(k) + "\n"]) else c
  }

  /** `source[0] = "".join(parts)` for a shell cell that runs a script, when asked to. */
  function RetargetShell(c: Cell, k: Counter, changeShellCells: bool): Cell {
    if changeShellCells && IsShellCommandCodeCell(c) && RunsScript(c.source[0])
    then c.(source := c.source[0 := RetargetCommand(c.source[0], ExampleName(k))])
    else c
  }

  /** Two cells of the same type, metadata, outputs and length that the classifier puts in the same kind. */
  predicate SameKind(c: Cell, r: Cell)
    requires MagicLineReadable(c)
  {
    MagicLineReadable(r) &&
    r.cellType == c.cellType && r.metadata == c.metadata && r.outputs == c.outputs &&
    |r.source| == |c.source| &&
    (IsPythonFileCodeCell(c) <==> IsPythonFileCodeCell(r)) &&
    (IsShellCommandCodeCell(c) <==> IsShellCommandCodeCell(r)) &&
    (IsPythonReplCodeCell(c) <==> IsPythonReplCodeCell(r))
  }

  /**
   * The rewrite keeps every cell's kind, metadata, outputs and length: a
   * python file stays a python file whose header names its example file, a
   * shell cell stays a shell cell, and nothing else changes.
   */
  lemma RewriteKeepsKind(c: Cell, k: Counter, changeShellCells: bool)
    requires MagicLineReadable(c)
    ensures SameKind(c, RewriteCell(c, k, changeShellCells))
    ensures var r := RewriteCell(c, k, changeShellCells);
      IsPythonFileCodeCell(c) ==> r == c.(source := c.source[1 := "# " + ExampleName(k) + "\n"])
    ensures var r := RewriteCell(c, k, changeShellCells);
      IsShellCommandCodeCell(c) ==>
        r == c.(source := r.source) && r.source[1..] == c.source[1..] &&
        r.source[0] ==
          if changeShellCells && RunsScript(c.source[0])
          then RetargetCommand(c.source[0], ExampleName(k))
          else c.source[0]
    ensures IsPythonReplCodeCell(c) || !IsCodeCellWithSourceContent(c) ==> RewriteCell(c, k, changeShellCells) == c
    ensures !changeShellCells && !IsPythonFileCodeCell(c) ==> RewriteCell(c, k, changeShellCells) == c
  {
    var named := NameFile(c, k);
    NameFileKeepsKind(c, k);
    RetargetShellKeepsKind(named, k, changeShellCells);
    if IsShellCommandCodeCell(c) {
      ClassificationPartition(c);
      var r := RetargetShell(named, k, changeShellCells);
      assert r.source[1..] == c.source[1..];
    }
  }

  lemma NameFileKeepsKind(c: Cell, k: Counter)
    requires MagicLineReadable(c)
    ensures SameKind(c, NameFile(c, k))
    ensures var r := NameFile(c, k);
      IsPythonFileCodeCell(c) ==> r.source[0] == c.source[0] && r.source[1] == "# " + ExampleName(k) + "\n" && r.source[2..] == c.source[2..]
    ensures !IsPythonFileCodeCell(c) ==> NameFile(c, k) == c
  {
    if IsPythonFileCodeCell(c) {
      var r := NameFile(c, k);
      assert r.source[0] == c.source[0];
      assert r.source[1][..1] == "#";
    }
  }

  lemma RetargetShellKeepsKind(c: Cell, k: Counter, changeShellCells: bool)
    requires MagicLineReadable(c)
    ensures SameKind(c, RetargetShell(c, k, changeShellCells))
    ensures !IsShellCommandCodeCell(c) || !changeShellCells ==> RetargetShell(c, k, changeShellCells) == c
  {
    if changeShellCells && IsShellCommandCodeCell(c) && RunsScript(c.source[0]) {
      var r := RetargetShell(c, k, changeShellCells);
      var line := RetargetCommand(c.source[0], ExampleName(k));
      RetargetStartsWithRun(c.source[0], ExampleName(k));
      assert r.source[0] == line;
      assert StartsWith(line, "!") by {
        assert line[..1] == line[..|"! python "|][..1];
      }
      BangIsNotMagic(c.source[0]);
      BangIsNotMagic(line);
    }
  }

  /**
   * The file written for a file cell holds its new header and the rest of
   * its body, and the cell, rendered, shows the same text in a `python` block.
   */
  lemma ExampleFileIsRenderedBody(c: Cell, k: Counter, changeShellCells: bool)
    requires MagicLineReadable(c) && IsPythonFileCodeCell(c)
    ensures var r := RewriteCell(c, k, changeShellCells);
      Concat(r.source[1..]) == "# " + ExampleName(k) + "\n" + Concat(c.source[2..]) &&
      FileFragment(r, false) == PythonFence + Concat(r.source[1..]) + "\n```\n"
  {
    RewriteKeepsKind(c, k, changeShellCells);
    var r := RewriteCell(c, k, changeShellCells);
    assert r.source[1..] == [r.source[1]] + c.source[2..];
    ConcatPrepend(r.source[1], c.source[2..]);
    assert Tail(r.source) == r.source[1..];
    assert "" + PythonFence == PythonFence;
  }

  /** The notebook after the pass. */
  function Rewritten(cells: seq<Cell>, changeShellCells: bool): (rs: seq<Cell>)
    requires GenexReadable(cells)
    ensures |rs| == |cells|
  {
    seq(|cells|, i requires 0 <= i < |cells| && GenexReadable(cells) =>
      RewriteCell(cells[i], CounterAfter(cells, i + 1), changeShellCells))
  }

  /** The example files written by the first `n` cells, in order: name and contents. */
  function FilesUpTo(cells: seq<Cell>, n: nat): seq<(string, string)>
    requires GenexReadable(cells) && n <= |cells|
  {
    if n == 0 then []
    else
      var i := n - 1;
      var k := CounterAfter(cells, i + 1);
      FilesUpTo(cells, i) +
      (if IsPythonFileCodeCell(cells[i])
       then [(ExampleName(k), Concat(NameFile(cells[i], k).source[1..]))]
       else [])
  }

  /** Cells that are not python files leave the counter as it was. */
  lemma {:induction false} CounterSteadyWithoutFiles(cells: seq<Cell>, lo: nat, n: nat)
    requires GenexReadable(cells) && lo <= n <= |cells|
    requires forall m :: lo <= m < n ==> !IsPythonFileCodeCell(cells[m])
    ensures CounterAfter(cells, n) == CounterAfter(cells, lo)
    decreases n
  {
    if n > lo {
      CounterSteadyWithoutFiles(cells, lo, n - 1);
    }
  }

  /**
   * A retargeted shell line names the example file most recently written:
   * that of the last file cell before it.
   */
  lemma ShellPointsAtLatestFile(cells: seq<Cell>, j: nat, i: nat)
    requires GenexReadable(cells) && j < i < |cells|
    requires IsPythonFileCodeCell(cells[j])
    requires forall m :: j < m <= i ==> !IsPythonFileCodeCell(cells[m])
    requires IsShellCommandCodeCell(cells[i]) && RunsScript(cells[i].source[0])
    ensures var files := FilesUpTo(cells, j + 1);
      files != [] &&
      Rewritten(cells, true)[i].source[0] == RetargetCommand(cells[i].source[0], files[|files| - 1].0)
  {
    var k := CounterAfter(cells, j + 1);
    assert CounterAfter(cells, i + 1) == k by {
      CounterSteadyWithoutFiles(cells, j + 1, i + 1);
    }
    var files := FilesUpTo(cells, j + 1);
    assert files == FilesUpTo(cells, j) + [(ExampleName(k), Concat(NameFile(cells[j], k).source[1..]))];
    assert files[|files| - 1].0 == ExampleName(k);
    assert Rewritten(cells, true)[i] == RewriteCell(cells[i], k, true);
    RewriteKeepsKind(cells[i], k, true);
  }

  /**
   * A shell line retargeted before any file cell names `<prefix>00.py`, with
   * the prefix of `cells[:1]`; the pass writes no file up to that point.
   */
  lemma ShellBeforeAnyFile(cells: seq<Cell>, i: nat)
    requires GenexReadable(cells) && i < |cells|
    requires forall m :: 0 <= m <= i ==> !IsPythonFileCodeCell(cells[m])
    requires IsShellCommandCodeCell(cells[i]) && RunsScript(cells[i].source[0])
    ensures FilesUpTo(cells, i + 1) == []
    ensures Rewritten(cells, true)[i].source[0] ==
      RetargetCommand(cells[i].source[0], ExamplePrefix(Head(cells)) + "00.py")
  {
    CounterSteadyWithoutFiles(cells, 0, i + 1);
    ClassificationPartition(cells[i]);
    NoFilesWritten(cells, i + 1);
    var prefix := ExamplePrefix(Head(cells));
    assert Pad2(0) == "00";
    assert ExampleName(CounterAfter(cells, i + 1)) == prefix + "00.py";
  }

  lemma {:induction false} NoFilesWritten(cells: seq<Cell>, n: nat)
    requires GenexReadable(cells) && n <= |cells|
    requires forall m :: 0 <= m < n ==> !IsPythonFileCodeCell(cells[m])
    ensures FilesUpTo(cells, n) == []
    decreases n
  {
    if n > 0 {
      NoFilesWritten(cells, n - 1);
    }
  }

  /** Cell `j` of `current` is cell `j` of `original` as the pass rewrites it. */
  predicate RewrittenAt(current: seq<Cell>, original: seq<Cell>, j: nat, changeShellCells: bool)
    requires GenexReadable(original) && j < |current| && j < |original|
  {
    current[j] == RewriteCell(original[j], CounterAfter(original, j + 1), changeShellCells)
  }

  /** One more cell adds the file it writes, if it is a file cell. */
  lemma FilesUpToStep(cells: seq<Cell>, n: nat)
    requires GenexReadable(cells) && n < |cells|
    ensures var k := CounterAfter(cells, n + 1);
      FilesUpTo(cells, n + 1) == FilesUpTo(cells, n) +
        (if IsPythonFileCodeCell(cells[n]) then [(ExampleName(k), Concat(NameFile(cells[n], k).source[1..]))] else [])
  {
  }

  /** The array after the first `i` cells: those rewritten, the rest as they were. */
  predicate Progress(current: seq<Cell>, original: seq<Cell>, i: nat, changeShellCells: bool)
    requires GenexReadable(original)
  {
    |current| == |original| && i <= |original| && SameMetadata(current, original) &&
    (forall j :: i <= j < |current| ==> current[j] == original[j]) &&
    (forall j :: 0 <= j < i ==> RewrittenAt(current, original, j, changeShellCells))
  }

  lemma ProgressStep(current: seq<Cell>, original: seq<Cell>, i: nat, changeShellCells: bool)
    requires GenexReadable(original) && Progress(current, original, i, changeShellCells) && i < |original|
    ensures var r := RewriteCell(original[i], CounterAfter(original, i + 1), changeShellCells);
      Progress(current[i := r], original, i + 1, changeShellCells)
  {
    var k := CounterAfter(original, i + 1);
    var r := RewriteCell(original[i], k, changeShellCells);
    var next := current[i := r];
    assert r.metadata == original[i].metadata by {
      RewriteKeepsKind(original[i], k, changeShellCells);
    }
    forall j | 0 <= j < i + 1
      ensures RewrittenAt(next, original, j, changeShellCells)
    {
      if j < i {
        assert next[j] == current[j];
        assert RewrittenAt(current, original, j, changeShellCells);
      } else {
        assert next[j] == r;
      }
    }
  }

  lemma ProgressDone(current: seq<Cell>, original: seq<Cell>, changeShellCells: bool)
    requires GenexReadable(original) && Progress(current, original, |original|, changeShellCells)
    ensures current == Rewritten(original, changeShellCells)
  {
    forall j | 0 <= j < |current|
      ensures current[j] == Rewritten(original, changeShellCells)[j]
    {
      assert RewrittenAt(current, original, j, changeShellCells);
    }
  }

  /** The prefix search on the array sees the metadata of the original cells. */
  lemma PrefixOfProgress(current: seq<Cell>, original: seq<Cell>, i: nat, changeShellCells: bool)
    requires GenexReadable(original) && Progress(current, original, i, changeShellCells)
    requires i < |original| && IsPythonFileCodeCell(original[i])
    ensures PrefixSearchReadable(original[..i + 1]) && PrefixSearchReadable(current[..i + 1])
    ensures ExamplePrefix(current[..i + 1]) == ExamplePrefix(original[..i + 1])
  {
    assert FileSearchReadable(original, i + 1);
    ExamplePrefixReadsOnlyMetadata(original[..i + 1], current[..i + 1]);
  }

  /**
   * `genex` for one notebook, without the file handling: the cells are
   * rewritten in place, and the example files it writes are returned.
   */
  method GenerateExamples(cells: array<Cell>, changeShellCells: bool) returns (files: seq<(string, string)>)
    requires GenexReadable(cells[..])
    modifies cells
    ensures cells[..] == Rewritten(old(cells[..]), changeShellCells)
    ensures files == FilesUpTo(old(cells[..]), cells.Length)
  {
    ghost var original := cells[..];
    var exampleNumber: nat := 0;
    var previousExamplePrefix := ExamplePrefix(Head(cells[..]));
    var examplePrefix := previousExamplePrefix;
    files := [];
    for i := 0 to cells.Length
      invariant Progress(cells[..], original, i, changeShellCells)
      invariant Counter(exampleNumber, examplePrefix) == CounterAfter(original, i)
      invariant previousExamplePrefix == examplePrefix
      invariant files == FilesUpTo(original, i)
    {
      var cell := cells[i];
      assert cell == original[i];
      ghost var k := CounterAfter(original, i + 1);
      ghost var named := NameFile(original[i], k);
      var source := cell.source;
      if IsPythonFileCodeCell(cell) {
        PrefixOfProgress(cells[..], original, i, changeShellCells);
        examplePrefix := ExamplePrefix(cells[..i + 1]);
        if examplePrefix == previousExamplePrefix {
          exampleNumber := exampleNumber + 1;
        } else {
          exampleNumber := 1;
          previousExamplePrefix := examplePrefix;
        }
        var exampleFilename := examplePrefix + Pad2(exampleNumber) + ".py";
        source := source[1 := "# " + exampleFilename + "\n"];
        cell := cell.(source := source);
        files := files + [(exampleFilename, Concat(source[1..]))];
      }
      assert cell == named && source == cell.source;
      assert Counter(exampleNumber, examplePrefix) == k;
      assert files == FilesUpTo(original, i + 1) by {
        FilesUpToStep(original, i);
      }
      if changeShellCells {
        if IsShellCommandCodeCell(cell) {
          if StartsWith(source[0], "! python") && SomeWordEndsWith(source[0], ".py") {
            var parts := SplitOn(source[0], ".py");
            ghost var line := source[0];
            parts := parts[0 := "! python " + (examplePrefix + Pad2(exampleNumber) + ".py")];
            ReplaceFirstPart(SplitOn(line, ".py"), "! python " + ExampleName(k));
            assert Concat(parts) == RetargetCommand(line, ExampleName(k));
            source := source[0 := Concat(parts)];
            cell := cell.(source := source);
          }
        }
      }
      assert cell == RetargetShell(named, k, changeShellCells);
      ProgressStep(cells[..], original, i, changeShellCells);
      if source != [] {
        cells[i] := cell;
      } else {
        assert cells[..][i := cell] == cells[..];
      }
    }
    ProgressDone(cells[..], original, changeShellCells);
  }
}
