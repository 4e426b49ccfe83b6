# minigrep, modelled in Dafny

minigrep is a small command-line search tool. It takes a query and a file path,
then prints every line of the file that contains the query. With the ignore-case
option it compares the lowercase of each line with the lowercase of the query.
Its library has three parts, and each has its own Dafny module:

- `Configuration` (`config.dfy`): `Config::build`. It drops the executable name,
  takes the query and the file path, and decides `ignore_case` from the
  environment or from a flag among the later arguments.
- `Searcher` (`search.dfy`): `search` and `search_case_insensitive`. Each is an
  imperative loop that pushes matching lines onto a result. Both are proved
  against one filter function, `Select`. The lemmas pin `Select` down as the
  only order-preserving subsequence of the lines that keeps every match and
  nothing else.
- `Minigrep` (`driver.dfy`): `run`. It chooses which search to run. Reading the
  file is not modelled; the caller passes in the result of the read.

Supporting modules:

- `LineSplit` (`lines.dfy`) models the standard library's `str::lines`. A line
  ends at `\n`. One `\r` directly before that `\n` is removed too. The final
  line ending is optional.
- `Text` (`text.dfy`) has substring containment (`str::contains`) and an ASCII
  lowercase map.
- `Wrappers` (`wrappers.dfy`) has the `Result` type.

Inputs that the real program gets from its surroundings are passed in as
parameters:

- the argument list is a `seq<string>`;
- the `IGNORE_CASE` lookup is the boolean `envIgnoreCaseOk`, meaning
  `env::var("IGNORE_CASE").is_ok()`;
- the file read is a `Result<string, IoError>` given to `Run`.

Behaviour of the code worth knowing:

- The flag test is substring containment of `"-i"` or `"--ignore-case"`. So
  `"sample-input.txt"` switches case-insensitivity on: it contains `"-i"` in
  `"e-input"`. `LooseFlagMatch` proves this.
- `ignore_case` follows `is_ok()` on the environment lookup, not the bare
  presence of the variable. A value that is not valid Unicode gives `false`.
  The model takes the outcome of the lookup as its boolean input.
- Line splitting removes a `\r` that comes right before a `\n`, and nothing
  else. A bare `\r` at the very end of the contents is kept, as current
  `str::lines` keeps it.
- Empty strings are accepted as the query and as the file path. Only a missing
  argument is an error.
- The code's errors are plain strings. The model uses a tagged `BuildError`,
  and `Message` gives the exact string the code returns for each error.

## Model

| member | source | states |
|---|---|---|
| `Configuration.Build` | src/lib.rs:11-36 | Build fails with `MissingQuery` exactly when there is at most one argument, and with `MissingFilePath` exactly when there are two. Otherwise it returns `Ok` with query = `args[1]` and file path = `args[2]`. `ignoreCase` is true iff the environment lookup succeeded or some argument in `args[3..]` is a flag, so arguments 0 to 2 never affect it. The flag scan is a loop with invariants. |
| `Configuration.MessagesDistinct` | src/lib.rs:14-22 | The two error messages are different strings. |
| `Configuration.IgnoreCaseFlagIsDashI` | src/lib.rs:27 | An argument passes the flag test iff it contains `"-i"`, because `"--ignore-case"` itself contains `"-i"`. |
| `Configuration.AnyIgnoreCaseFlagIsDashI` | src/lib.rs:26-28 | The scan over the later arguments finds a flag iff some argument contains `"-i"`. |
| `Configuration.LooseFlagMatch` | src/lib.rs:27 | `"archive-image.png"` and `"sample-input.txt"` both pass the flag test, and `"poem.txt"` does not. |
| `LineSplit.LineEnd` | src/lib.rs:53 | The index of the first `\n`, or the length when there is none: no `\n` comes before it, and a `\n` is at it. |
| `LineSplit.LinesHaveNoNewline` | src/lib.rs:53 | No line produced by the split contains `\n`. |
| `LineSplit.LinesCons` | src/lib.rs:53 | A line with no `\n` and no final `\r`, followed by `\n`, is split off whole from the front of the rest. |
| `LineSplit.LinesSingle` | src/lib.rs:53 | Non-empty text with no `\n` is one line, kept as it is. |
| `LineSplit.LinesOfJoined` | src/lib.rs:53 | Splitting lines joined by `\n` gives those lines back, when none contains `\n` or ends in `\r` and the last is non-empty. |
| `LineSplit.LinesOfTerminated` | src/lib.rs:53 | Splitting lines that each end in `\n` gives those lines back. |
| `LineSplit.LinesOfCrlfTerminated` | src/lib.rs:53 | Splitting lines that each end in `\r\n` gives those lines back, including lines that themselves end in `\r`. |
| `LineSplit.FinalNewlineOptional` | src/lib.rs:53 | A trailing `\n` after a non-empty last line, one that does not end in `\r`, adds no empty line. |
| `LineSplit.FinalCrlfOptional` | src/lib.rs:53 | A trailing `\r\n` after a non-empty last line adds no empty line. |
| `Text.ContainsTransitive` | src/lib.rs:27 | A substring of a substring of `s` is a substring of `s`. |
| `Text.ContainsMapped` | src/lib.rs:60-63 | Applying any per-character map to both strings keeps a containment. |
| `Text.ContainsLower` | src/lib.rs:60-63 | If a line contains the query, its lowercase contains the lowercased query. |
| `Text.LowerSpec` | src/lib.rs:60-63 | Lowercasing keeps the length, turns each ASCII capital into its own lower-case letter, leaves no ASCII capital, and changes no other character. |
| `Text.LowerIdempotent` | src/lib.rs:60-63 | Lowercasing twice gives the same as lowercasing once. |
| `Searcher.Search` | src/lib.rs:51-57 | The result equals `Select(false, query, Lines(contents))`. It is a subsequence of the lines, and a line is in it iff the line is in the contents and contains the query. Proved by the loop's invariant. |
| `Searcher.SearchCaseInsensitive` | src/lib.rs:59-66 | The query is lowercased once. The result equals `Select(true, query, Lines(contents))`. It is a subsequence of the original lines, which are returned as they are, not lowercased. A line is in it iff the line's lowercase contains the query's lowercase. |
| `Searcher.SelectConcat` | src/lib.rs:53-55 | Filtering a concatenation gives the concatenation of the two filtered parts, which is what makes pushing one line at a time correct. |
| `Searcher.SelectMembers` | src/lib.rs:53-55 | A line is selected iff it is one of the lines and it matches, so every returned line matches and every omitted line does not. |
| `Searcher.SelectIsSubsequence` | src/lib.rs:53-55 | The selection keeps the original order: it is a subsequence of the lines. |
| `Searcher.SelectCounts` | src/lib.rs:53-55 | Each matching line appears in the selection as often as in the lines, and a non-matching line never appears. |
| `Searcher.SelectUnique` | src/lib.rs:51-66 | Any subsequence of the lines with those counts equals the selection, so the selection is exactly the matching subsequence. |
| `Searcher.SelectEmptyQuery` | src/lib.rs:53-54 | With an empty query, both modes return all the lines, unchanged and in order. |
| `Searcher.SensitiveWithinInsensitive` | src/lib.rs:51-66 | The case-sensitive result is a subsequence of the case-insensitive result, so it has the same lines in the same relative order. |
| `Searcher.PoemSplits` | src/lib.rs:77-81 | The two test files split into their three and four lines. |
| `Searcher.DuctInPoem` | src/lib.rs:76-85 | `"duct"` is in `"Safe, Fast, Productive."` and in none of the other test lines. |
| `Searcher.DuctInLoweredPoem` | src/lib.rs:105-118 | After lowercasing, `"duct"` is also in `"Duct tape."` and still not in `"Rust:"` or `"Pick three."`. |
| `Searcher.OneResult` | src/lib.rs:74-87 | Searching the three-line test file for `"duct"` returns `["Safe, Fast, Productive."]`. |
| `Searcher.CaseSensitive` | src/lib.rs:89-103 | On the four-line test file, the case-sensitive search returns only `["Safe, Fast, Productive."]`. |
| `Searcher.CaseInsensitive` | src/lib.rs:105-119 | On the four-line test file, the case-insensitive search returns `["Safe, Fast, Productive.", "Duct tape."]`. |
| `Searcher.PoemText` | src/lib.rs:77-81 | The joined test lines are exactly the test files' literal text, with and without the fourth line `"Duct tape."`. |
| `Searcher.SearchTests` | src/lib.rs:74-119 | `Search` and `SearchCaseInsensitive`, called with the query `"duct"` on the test files' text, return the vectors the three tests expect. |
| `Minigrep.Run` | src/lib.rs:39-49 | A read error is passed through. Otherwise the result is the selection for the configured query, in the mode `ignoreCase` chooses. |

The definitions these statements are about model the code as follows:
`LineSplit.Lines` is `str::lines` (src/lib.rs:53, 62);
`Searcher.LineMatches` is the two filter closures (src/lib.rs:54, 63), and
`Searcher.Select` is the filter over the lines (src/lib.rs:53-55, 62-64);
`Text.Contains` is `str::contains` and `Text.Lower` is `to_lowercase`
(src/lib.rs:54, 60, 63); `Configuration.IsIgnoreCaseFlag` is the closure at
src/lib.rs:27 and `Configuration.AnyIgnoreCaseFlag` the `filter(…).any(…)` over
the remaining arguments (src/lib.rs:26-28); `Configuration.Message` gives the
error strings of src/lib.rs:16 and 21.

## Left out

- Reading the file (`fs::read_to_string`) and printing the results (`println!`)
  are I/O. `Run` takes the read's outcome as a parameter and returns the lines
  that would be printed.
- The operating-system environment is not modelled. `Build` receives the
  outcome of the `IGNORE_CASE` lookup as a boolean.
- `Searcher.SearchCaseInsensitive`: lowercasing is ASCII only (`Text.ToLower`
  maps `A`-`Z` to `a`-`z`). Rust's Unicode `to_lowercase` is not modelled,
  including its multi-character expansions and its context-sensitive final
  sigma. `Text.ContainsMapped` is proved for every per-character map.
- Searcher.SensitiveWithinInsensitive: holds only because lowercasing is
  modelled one character at a time. Rust's `to_lowercase` maps a word-final
  `'Σ'` to `'ς'` and a lone `'Σ'` to `'σ'`, so with query `"Σ"` and contents
  `"AΣ"` the real `search` returns `["AΣ"]` while `search_case_insensitive`
  returns `[]` (`"aς"` does not contain `"σ"`). The program itself does not
  have this property for such text.
- The `Iterator` type that `build` consumes, and the borrowed `&str` slices
  that the searches return, are modelled as sequences of copied strings.
- `StripCr`, `Terminated`, `CrlfTerminated`, `Joined`, `IsSubsequence` and
  `MapChars` are helper definitions used by the statements above; they have no
  counterpart in the code.
