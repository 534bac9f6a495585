/** Optional values, and the failures the Markdown pipeline raises. */
module Wrappers {

  /** Python's `None` or a value. */
  datatype Option<+T> = None | Some(value: T)

  /** A computation that returned a value or raised one of the pipeline's exceptions. */
  datatype Result<+T> = Ok(value: T) | Err(error: Error) {
    predicate IsFailure() { Err? }

    function PropagateFailure<U>(): Result<U>
      requires Err?
    {
      Err(error)
    }

    function Extract(): T
      requires Ok?
    {
      value
    }
  }

  /** The exceptions of the core, one constructor per distinct raise. */
  datatype Error =
    | NoValue                        // LeafNode.to_html: "Invalid HTML: no value"
    | NoTag                          // ParentNode.to_html: "Invalid HTML: no tag"
    | NoChildren                     // ParentNode.to_html: "Invaild HMTL: no children passed"
    | EmptyNodeList                  // split_nodes_delimiter: "Invalid or empty list of nodes"
    | EmptySeparator                 // str.split(""): ValueError "empty separator"
    | UnclosedDelimiter              // split_nodes_delimiter: "Invalid markdown: delimiter was not closed"
    | InvalidHeadingLevel(level: nat) // heading_to_html_node: "invalid heading level: {level}"
    | InvalidCodeBlock               // code_to_html_node: "invalid code block"
    | InvalidQuoteBlock              // quote_to_html_node: "invalid quote block"
    | MissingTitle                   // extract_title: "No h1 title has been provided"
}
