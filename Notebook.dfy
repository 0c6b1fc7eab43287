/**
 * The parsed notebook: an ordered sequence of cells, each with a type, its
 * source lines, its metadata and its execution outputs. Both modules of the
 * converter declare the same record types; they are defined here once.
 */
module Notebook {

  datatype Option<T> = None | Some(value: T)

  datatype CellType = Markdown | Code

  /**
   * `output_type`. The two kinds the converter reads are `stream` and
   * `execute_result`; any other kind (`display_data`, `error`) is kept so that
   * the model can say it contributes nothing.
   */
  datatype OutputType = Stream | ExecuteResult | OtherOutput

  /**
   * One execution output. `text` is the `text` entry (empty when the output
   * has none) and `plain` the `data["text/plain"]` entry.
   */
  datatype Output = Output(outputType: OutputType, text: seq<string>, plain: seq<string>)

  /**
   * Cell metadata, a JSON object: its `tags` entry when present, and the names
   * of its other entries.
   */
  datatype Metadata = Metadata(tags: Option<seq<string>>, otherKeys: set<string>)

  datatype Cell = Cell(cellType: CellType, source: seq<string>, metadata: Metadata, outputs: seq<Output>)

  const HideTag := "to_hide"

  /** A metadata object is true in Python exactly when it has an entry. */
  predicate IsTruthy(m: Metadata) {
    m.tags.Some? || m.otherKeys != {}
  }

  /** Reading `metadata["tags"]` of a non-empty metadata object does not raise `KeyError`. */
  predicate TagsReadable(m: Metadata) {
    IsTruthy(m) ==> m.tags.Some?
  }

  /** The tags the converter sees: none when the metadata is empty. */
  function Tags(m: Metadata): seq<string>
    requires TagsReadable(m)
  {
    if IsTruthy(m) then m.tags.value else []
  }

  /** `cell["metadata"] and "to_hide" in cell["metadata"]["tags"]` */
  predicate IsHidden(c: Cell)
    requires TagsReadable(c.metadata)
  {
    IsTruthy(c.metadata) && HideTag in c.metadata.tags.value
  }

  /**
   * A cell is skipped exactly when `to_hide` is among the tags read, and
   * whether it is skipped depends on its metadata alone.
   */
  lemma HiddenIffTagged(c: Cell, other: Cell)
    requires TagsReadable(c.metadata) && other.metadata == c.metadata
    ensures IsHidden(c) <==> HideTag in Tags(c.metadata)
    ensures IsHidden(other) <==> IsHidden(c)
  {
  }
}
