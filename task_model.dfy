/**
 * The value of a launch task and the command line it compiles to. `Command` is the reference
 * definition of `Task.getCommand`; the lemmas below state the layout of that command.
 * `java.io.File.getAbsolutePath` is not modelled: every function that needs it takes it as the
 * parameter `abs`, so every property here holds whatever it returns.
 */
module TaskModel {
  import opened Wrappers
  import opened Sequences
  import opened StringUtils

  /** A Java `long`. */
  newtype Long = x: int | -0x8000_0000_0000_0000 <= x < 0x8000_0000_0000_0000

  /** A `java.io.File`, by its normalised pathname (what `toString` returns); the
      normalisation `File` applies when built is not modelled. */
  datatype File = File(path: string)

  /** The fields of a task, as Task.java declares them; `None` is `null`. */
  datatype TaskData = TaskData(
    arg: Option<string>,
    cacheDir: Option<File>, cacheDirActivated: bool,
    consoleLogger: bool,
    env: Option<string>,
    execPath: Option<File>,
    fontSize: Option<string>,
    id: string,
    javaDir: Option<File>, javaDirActivated: bool,
    lastRun: Long,
    locale: Option<string>,
    name: Option<string>,
    userDir: Option<File>, userDirActivated: bool)

  /** `getCommand` dereferences the executable's path first: a null one throws. */
  datatype CommandError = NullExecPath

  // ---------------------------------------------------------------------------------------
  // Option pairs (addOptional)

  /** The `value` argument of `addOptional`: a `String` or a `File`. */
  datatype OptionValue = Text(s: string) | Path(f: File)

  function TextValue(s: Option<string>): Option<OptionValue>
  {
    match s
    case None => None
    case Some(v) => Some(Text(v))
  }

  function PathValue(f: Option<File>): Option<OptionValue>
  {
    match f
    case None => None
    case Some(v) => Some(Path(v))
  }

  /** A string is passed through; a file becomes its absolute path. */
  function Render(v: OptionValue, abs: File -> string): string
  {
    match v
    case Text(s) => s
    case Path(f) => abs(f)
  }

  /** `addOptional` adds its pair when the value is not null, the condition holds and the
      rendered value is not blank. */
  predicate Emits(condition: bool, value: Option<OptionValue>, abs: File -> string)
  {
    value.Some? && condition && IsNotBlank(Some(Render(value.value, abs)))
  }

  /** The pair `addOptional` adds, if any, as a (key, value) tuple. */
  function OptionalPair(condition: bool, key: string, value: Option<OptionValue>, abs: File -> string): seq<(string, string)>
  {
    if Emits(condition, value, abs) then [(key, Render(value.value, abs))] else []
  }

  /** The `--locale` value: the stored tag with every `-` replaced by `:`. */
  function LocaleArgument(locale: Option<string>): Option<string>
  {
    ReplaceNullable(locale, "-", ":")
  }

  /** The option pairs of a command, in the fixed order of the five `addOptional` calls. */
  function Options(t: TaskData, abs: File -> string): seq<(string, string)>
  {
    OptionalPair(true, "--fontsize", TextValue(t.fontSize), abs)
    + OptionalPair(true, "--locale", TextValue(LocaleArgument(t.locale)), abs)
    + OptionalPair(t.userDirActivated, "--userdir", PathValue(t.userDir), abs)
    + OptionalPair(t.cacheDirActivated, "--cachedir", PathValue(t.cacheDir), abs)
    + OptionalPair(t.javaDirActivated, "--jdkhome", PathValue(t.javaDir), abs)
  }

  /** The five option keys in the order `getCommand` tries them. */
  const OptionKeys: seq<string> := ["--fontsize", "--locale", "--userdir", "--cachedir", "--jdkhome"]

  /** Each pair as two adjacent tokens, key first. */
  function Flatten(pairs: seq<(string, string)>): (r: seq<string>)
    ensures |r| == 2 * |pairs|
    ensures forall i | 0 <= i < |pairs| :: r[2 * i] == pairs[i].0 && r[2 * i + 1] == pairs[i].1
  {
    if |pairs| == 0 then []
    else
      var rest := Flatten(pairs[1..]);
      assert forall i | 1 <= i < |pairs| :: 2 * i == 2 * (i - 1) + 2;
      [pairs[0].0, pairs[0].1] + rest
  }

  // ---------------------------------------------------------------------------------------
  // System properties (addOptionalEnvironment)

  /** The token `addOptionalEnvironment` adds for `keyVal`. */
  function EnvironmentToken(keyVal: string): string
  {
    "-J-D" + keyVal
  }

  function LoggerToken(consoleLogger: bool): string
  {
    EnvironmentToken("netbeans.logger.console=" + (if consoleLogger then "true" else "false"))
  }

  // ---------------------------------------------------------------------------------------
  // The argument and environment texts

  const Newline: Separators := Chars("\n")

  function NotBlankLine(line: string): bool
  {
    IsNotBlank(Some(line))
  }

  /** A line is a comment exactly when its first character is `#`. */
  function NotComment(line: string): bool
  {
    !StartsWith(line, "#")
  }

  function HasAssignment(line: string): bool
  {
    Contains(line, "=")
  }

  /** The lines of the argument text that contribute: not blank, not a comment. */
  function ArgumentLines(arg: string): seq<string>
  {
    Filter(NotComment, Filter(NotBlankLine, Split(arg, Newline)))
  }

  /** The whitespace-separated tokens of `lines`, line after line. */
  function LineTokens(lines: seq<string>): (r: seq<string>)
    ensures forall k | 0 <= k < |r| :: IsToken(r[k], Whitespace)
  {
    if |lines| == 0 then []
    else LineTokens(lines[..|lines| - 1]) + Split(lines[|lines| - 1], Whitespace)
  }

  /** What the argument text adds to the command. */
  function ArgumentTokens(arg: Option<string>): (r: seq<string>)
    ensures forall k | 0 <= k < |r| :: IsToken(r[k], Whitespace)
  {
    if IsNotBlank(arg) then LineTokens(ArgumentLines(arg.value)) else []
  }

  /** The lines of the environment text that contribute: not a comment, containing `=`. */
  function EnvironmentLines(env: string): seq<string>
  {
    Filter(HasAssignment, Filter(NotComment, Split(env, Newline)))
  }

  /** One `-J-D` token per line, in order. */
  function LineProperties(lines: seq<string>): (r: seq<string>)
    ensures |r| == |lines|
    ensures forall i | 0 <= i < |lines| :: r[i] == EnvironmentToken(lines[i])
  {
    if |lines| == 0 then []
    else LineProperties(lines[..|lines| - 1]) + [EnvironmentToken(lines[|lines| - 1])]
  }

  /** What the environment text adds to the command. */
  function EnvironmentTokens(env: Option<string>): seq<string>
  {
    if IsNotBlank(env) then LineProperties(EnvironmentLines(env.value)) else []
  }

  // ---------------------------------------------------------------------------------------
  // The command

  /** `Task.getCommand`: the executable's path, the option pairs, the logger property, the
      argument tokens and the environment properties, in this order. */
  function Command(t: TaskData, abs: File -> string): Result<seq<string>, CommandError>
  {
    match t.execPath
    case None => Failure(NullExecPath)
    case Some(exec) =>
      Success([exec.path] + Flatten(Options(t, abs)) + [LoggerToken(t.consoleLogger)]
              + ArgumentTokens(t.arg) + EnvironmentTokens(t.env))
  }

  /** `Task.getCommandAsString`: the command's tokens separated by single spaces. */
  function CommandString(t: TaskData, abs: File -> string): Result<string, CommandError>
  {
    match Command(t, abs)
    case Failure(e) => Failure(e)
    case Success(cmd) => Success(Join(cmd, " "))
  }

  // ---------------------------------------------------------------------------------------
  // Locale (setLocale / getLocale), with locales as language-tag strings

  /** What `setLocale` stores for a tag: the undetermined tag `und`, in any case, becomes "";
      every other tag is kept as it is. */
  function StoredLocale(tag: string): (r: string)
    ensures r == "" || r == tag
    ensures !EqualsIgnoreCase(r, "und")
    ensures Blank(r) <==> EqualsIgnoreCase(tag, "und") || Blank(tag)
  {
    if EqualsIgnoreCase(tag, "und") then "" else tag
  }

  /** Storing a stored value again stores the same value. */
  lemma StoredLocaleIdempotent(tag: string)
    ensures StoredLocale(StoredLocale(tag)) == StoredLocale(tag)
  {
  }

  /** What `getLocale` reads back from a stored value: a null or blank one is `und`, so the tag
      read back is never blank. */
  function ReadLocale(stored: Option<string>): (r: string)
    ensures !Blank(r)
    ensures IsNotBlank(stored) ==> r == stored.value
  {
    assert !IsWhitespace("und"[0]);
    DefaultIfBlank(stored, "und")
  }
}
