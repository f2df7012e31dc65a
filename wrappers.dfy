/** Option and Result datatypes used for the error paths of the scripts. */
module Wrappers {

  datatype Option<+T> = None | Some(value: T) {
    function GetOr(default: T): T
    {
      match this
      case Some(v) => v
      case None => default
    }
  }

  datatype Result<+T, +E> = Success(value: T) | Failure(error: E)
}

/** The failures the scripts raise or exit with. */
module Errors {

  datatype Error =
    | PageNumberOutOfRange        // ValueError("Page number out of range") in find_context
    | InvalidPageIndex            // ValueError('Invalid page index') in get_page_offset
    | InvalidChoice(choice: string) // argparse.ArgumentTypeError in parse_choices
    | ConversionUnavailable       // sys.exit(0) when a metadata file is given with a non-markdown format
    | NoVault                     // 'vault:/' + None raises TypeError when no vault directory is found
    | MissingTitle                // KeyError on json_data['doc_props']['title'] in the bookmark loop
}
