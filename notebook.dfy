/** A Jupyter notebook as the generator scripts see it once its JSON has
    been parsed: a list of cells, each with a type and a source given as a
    list of text fragments (`cell['source']`). */
module Notebook {
  import opened Strings

  datatype Option<T> = None | Some(value: T)

  /** One entry of a code cell's `outputs`: its `text` list when it has
      one, and the `text/plain` list of its `data` when it has that. */
  datatype Output = Output(text: Option<seq<string>>, plainText: Option<seq<string>>)

  /** A cell by `cell_type`. A code cell without an `outputs` key is one
      with no outputs; cells of any other type (raw cells) carry only their
      source. */
  datatype Cell =
    | Markdown(source: seq<string>)
    | Code(source: seq<string>, outputs: seq<Output>)
    | Other(source: seq<string>)

  /** `''.join(cell['source'])` */
  function SourceText(cell: Cell): string
  {
    Concat(cell.source)
  }
}
