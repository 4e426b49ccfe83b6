/**
 * Building the run configuration from the command-line arguments and from
 * whether the `IGNORE_CASE` environment variable could be read.
 */
module Configuration {
  import opened Wrappers
  import opened Text

  /** What one run searches for, where, and whether case is ignored. */
  datatype Config = Config(query: string, filePath: string, ignoreCase: bool)

  /** The two ways building can fail: too few arguments for a query, or for a file path. */
  datatype BuildError = MissingQuery | MissingFilePath

  /** The message each error carries. */
  function Message(e: BuildError): (m: string)
    ensures m != []
  {
    match e
    case MissingQuery => "Please provide a search query"
    case MissingFilePath => "Please provide a file path"
  }

  /** The two errors are told apart by their messages. */
  lemma MessagesDistinct()
    ensures Message(MissingQuery) != Message(MissingFilePath)
  {
  }

  /** An argument asks for case-insensitive search when it contains either flag text anywhere. */
  predicate IsIgnoreCaseFlag(arg: string)
  {
    Contains(arg, "--ignore-case") || Contains(arg, "-i")
  }

  /** Some argument of `args` asks for case-insensitive search. */
  predicate AnyIgnoreCaseFlag(args: seq<string>)
  {
    exists j | 0 <= j < |args| :: IsIgnoreCaseFlag(args[j])
  }

  /**
   * `Config::build`: the first argument (the executable) is dropped, the next
   * is the query and the one after it the file path; case is ignored when the
   * environment says so or, failing that, when a later argument is a flag.
   */
  method Build(args: seq<string>, envIgnoreCaseOk: bool) returns (r: Result<Config, BuildError>)
    ensures r == Err(MissingQuery) <==> |args| <= 1
    ensures r == Err(MissingFilePath) <==> |args| == 2
    ensures |args| >= 3 ==> r.Ok? && r.value.query == args[1] && r.value.filePath == args[2]
    ensures |args| >= 3 ==> r.value.ignoreCase == (envIgnoreCaseOk || AnyIgnoreCaseFlag(args[3..]))
  {
    var pos := 0;
    if pos < |args| {
      pos := pos + 1;
    }
    if pos == |args| {
      return Err(MissingQuery);
    }
    var query := args[pos];
    pos := pos + 1;
    if pos == |args| {
      return Err(MissingFilePath);
    }
    var filePath := args[pos];
    pos := pos + 1;

    var ignoreCase := envIgnoreCaseOk;
    if !ignoreCase {
      while pos < |args| && !ignoreCase
        invariant 3 <= pos <= |args|
        invariant ignoreCase == AnyIgnoreCaseFlag(args[3..pos])
      {
        assert args[3..pos + 1] == args[3..pos] + [args[pos]];
        ignoreCase := IsIgnoreCaseFlag(args[pos]);
        pos := pos + 1;
      }
      if ignoreCase {
        var j :| 0 <= j < pos - 3 && IsIgnoreCaseFlag(args[3..pos][j]);
        assert args[3..][j] == args[3..pos][j];
      } else {
        assert args[3..pos] == args[3..];
      }
    }
    return Ok(Config(query, filePath, ignoreCase));
  }

  /** The long flag contains the short one, so testing for "-i" alone decides every argument. */
  lemma IgnoreCaseFlagIsDashI(arg: string)
    ensures IsIgnoreCaseFlag(arg) <==> Contains(arg, "-i")
  {
    if Contains(arg, "--ignore-case") {
      assert OccursAt("--ignore-case", "-i", 1);
      ContainsTransitive(arg, "--ignore-case", "-i");
    }
  }

  /** Hence the scan over the later arguments is a scan for "-i" alone. */
  lemma AnyIgnoreCaseFlagIsDashI(args: seq<string>)
    ensures AnyIgnoreCaseFlag(args) <==> exists j | 0 <= j < |args| :: Contains(args[j], "-i")
  {
    forall j | 0 <= j < |args| ensures IsIgnoreCaseFlag(args[j]) <==> Contains(args[j], "-i") {
      IgnoreCaseFlagIsDashI(args[j]);
    }
  }

  /** The test is loose: file names with "-i" inside them count as the flag. */
  lemma LooseFlagMatch()
    ensures IsIgnoreCaseFlag("archive-image.png")
    ensures IsIgnoreCaseFlag("sample-input.txt")
    ensures !IsIgnoreCaseFlag("poem.txt")
  {
    assert OccursAt("archive-image.png", "-i", 7);
    assert OccursAt("sample-input.txt", "-i", 6);
    IgnoreCaseFlagIsDashI("poem.txt");
    MissingFirstChar("poem.txt", "-i");
  }
}
