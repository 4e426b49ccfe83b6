/**
 * `run`: search the configured file's contents with the search that the
 * configuration selects. Reading the file is done by the caller, which hands
 * over either the contents or the read error; the result is the list of lines
 * that would be printed, one per line.
 */
module Minigrep {
  import opened Wrappers
  import opened LineSplit
  import opened Searcher
  import opened Configuration

  method Run<IoError>(config: Config, read: Result<string, IoError>) returns (r: Result<seq<string>, IoError>)
    ensures read.Err? ==> r == Err(read.error)
    ensures read.Ok? ==> r == Ok(Select(config.ignoreCase, config.query, Lines(read.value)))
  {
    if read.Err? {
      return Err(read.error);
    }
    var results;
    if config.ignoreCase {
      results := SearchCaseInsensitive(config.query, read.value);
    } else {
      results := Search(config.query, read.value);
    }
    return Ok(results);
  }
}
