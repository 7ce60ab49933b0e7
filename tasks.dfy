/**
 * `Task`, the object: Java's fields, updated in place by the setters, and `getCommand`, which
 * builds the argument list step by step. Every method is proved against the pure definitions
 * of `TaskModel`: `GetCommand` against `Command`, the setters against `Data`.
 */
module Tasks {
  import opened Wrappers
  import opened Sequences
  import opened StringUtils
  import opened TaskModel
  import opened CommandProperties

  class Task {
    var arg: Option<string>
    var cacheDir: Option<File>
    var cacheDirActivated: bool
    var consoleLogger: bool
    var env: Option<string>
    var execPath: Option<File>
    var fontSize: Option<string>
    var id: string
    var javaDir: Option<File>
    var javaDirActivated: bool
    var lastRun: Long
    var locale: Option<string>
    var name: Option<string>
    var userDir: Option<File>
    var userDirActivated: bool

    /** The fields as one value. */
    function Data(): TaskData
      reads this
    {
      TaskData(arg, cacheDir, cacheDirActivated, consoleLogger, env, execPath, fontSize, id,
               javaDir, javaDirActivated, lastRun, locale, name, userDir, userDirActivated)
    }

    /** A new task: every reference field null, every flag false, `lastRun` zero. The random
        UUID Java draws for the id is a parameter. */
    constructor(id: string)
      ensures Data() == TaskData(None, None, false, false, None, None, None, id,
                                 None, false, 0, None, None, None, false)
    {
      this.id := id;
      arg, cacheDir, cacheDirActivated, consoleLogger := None, None, false, false;
      env, execPath, fontSize := None, None, None;
      javaDir, javaDirActivated, lastRun, locale := None, false, 0, None;
      name, userDir, userDirActivated := None, None, false;
    }

    // -------------------------------------------------------------------------------------
    // Setters: each changes its own field and nothing else.

    method SetArg(arg: Option<string>)
      modifies this
      ensures Data() == old(Data()).(arg := arg)
    {
      this.arg := arg;
    }

    method SetCacheDir(cacheDir: Option<File>)
      modifies this
      ensures Data() == old(Data()).(cacheDir := cacheDir)
    {
      this.cacheDir := cacheDir;
    }

    method SetCacheDirActivated(cacheDirActivated: bool)
      modifies this
      ensures Data() == old(Data()).(cacheDirActivated := cacheDirActivated)
    {
      this.cacheDirActivated := cacheDirActivated;
    }

    method SetConsoleLogger(consoleLogger: bool)
      modifies this
      ensures Data() == old(Data()).(consoleLogger := consoleLogger)
    {
      this.consoleLogger := consoleLogger;
    }

    method SetEnv(env: Option<string>)
      modifies this
      ensures Data() == old(Data()).(env := env)
    {
      this.env := env;
    }

    method SetExecPath(execPath: Option<File>)
      modifies this
      ensures Data() == old(Data()).(execPath := execPath)
    {
      this.execPath := execPath;
    }

    method SetFontSize(fontSize: Option<string>)
      modifies this
      ensures Data() == old(Data()).(fontSize := fontSize)
    {
      this.fontSize := fontSize;
    }

    method SetId(id: string)
      modifies this
      ensures Data() == old(Data()).(id := id)
    {
      this.id := id;
    }

    method SetJavaDir(javaDir: Option<File>)
      modifies this
      ensures Data() == old(Data()).(javaDir := javaDir)
    {
      this.javaDir := javaDir;
    }

    method SetJavaDirActivated(javaDirActivated: bool)
      modifies this
      ensures Data() == old(Data()).(javaDirActivated := javaDirActivated)
    {
      this.javaDirActivated := javaDirActivated;
    }

    method SetLastRun(lastRun: Long)
      modifies this
      ensures Data() == old(Data()).(lastRun := lastRun)
    {
      this.lastRun := lastRun;
    }

    method SetName(name: Option<string>)
      modifies this
      ensures Data() == old(Data()).(name := name)
    {
      this.name := name;
    }

    method SetUserDir(userDir: Option<File>)
      modifies this
      ensures Data() == old(Data()).(userDir := userDir)
    {
      this.userDir := userDir;
    }

    method SetUserDirActivated(userDirActivated: bool)
      modifies this
      ensures Data() == old(Data()).(userDirActivated := userDirActivated)
    {
      this.userDirActivated := userDirActivated;
    }

    // -------------------------------------------------------------------------------------
    // Locale, as a language tag

    /** `setLocale`: stores "" for `und` in any case, the tag itself otherwise. */
    method SetLocale(tag: string)
      modifies this
      ensures Data() == old(Data()).(locale := Some(StoredLocale(tag)))
      ensures GetLocale() == if EqualsIgnoreCase(tag, "und") || Blank(tag) then "und" else tag
    {
      if EqualsIgnoreCase(tag, "und") {
        locale := Some("");
      } else {
        locale := Some(tag);
      }
      LocaleRoundTrip(tag);
    }

    /** `getLocale`: the stored tag, or `und` when it is null or blank. */
    function GetLocale(): (r: string)
      reads this
      ensures !Blank(r)
      ensures IsNotBlank(locale) ==> r == locale.value
    {
      ReadLocale(locale)
    }

    // -------------------------------------------------------------------------------------
    // The command

    /** `getCommand`: fails where Java dereferences a null `execPath`; otherwise the tokens
        `Command` defines, appended in the same order as Java appends them. */
    method GetCommand(abs: File -> string) returns (r: Result<seq<string>, CommandError>)
      ensures r == Command(Data(), abs)
    {
      if execPath.None? {
        return Failure(NullExecPath);
      }
      var cmd := [execPath.value.path];
      cmd := AddOptions(cmd, abs);
      cmd := AddOptionalEnvironment(cmd, true, "netbeans.logger.console=" + (if consoleLogger then "true" else "false"));
      cmd := AddArguments(cmd, arg);
      cmd := AddEnvironment(cmd, env);
      return Success(cmd);
    }

    /** The five `addOptional` calls of `getCommand`, in their order. */
    method AddOptions(cmd: seq<string>, abs: File -> string) returns (r: seq<string>)
      ensures r == cmd + Flatten(Options(Data(), abs))
    {
      ghost var t := Data();
      r := AddOptional(cmd, true, "--fontsize", TextValue(fontSize), abs);
      ghost var done := OptionalPair(true, "--fontsize", TextValue(t.fontSize), abs);
      ghost var p, prev;
      p := OptionalPair(true, "--locale", TextValue(LocaleArgument(t.locale)), abs);
      prev := r;
      r := AddOptional(r, true, "--locale", TextValue(ReplaceNullable(locale, "-", ":")), abs);
      AppendOptions(cmd, done, p, prev, r);
      done := done + p;
      p := OptionalPair(t.userDirActivated, "--userdir", PathValue(t.userDir), abs);
      prev := r;
      r := AddOptional(r, userDirActivated, "--userdir", PathValue(userDir), abs);
      AppendOptions(cmd, done, p, prev, r);
      done := done + p;
      p := OptionalPair(t.cacheDirActivated, "--cachedir", PathValue(t.cacheDir), abs);
      prev := r;
      r := AddOptional(r, cacheDirActivated, "--cachedir", PathValue(cacheDir), abs);
      AppendOptions(cmd, done, p, prev, r);
      done := done + p;
      p := OptionalPair(t.javaDirActivated, "--jdkhome", PathValue(t.javaDir), abs);
      prev := r;
      r := AddOptional(r, javaDirActivated, "--jdkhome", PathValue(javaDir), abs);
      AppendOptions(cmd, done, p, prev, r);
      done := done + p;
      assert done == Options(t, abs);
    }

    /** `getCommandAsString`: the tokens of `getCommand` joined by single spaces. */
    method GetCommandAsString(abs: File -> string) returns (r: Result<string, CommandError>)
      ensures r == CommandString(Data(), abs)
    {
      var cmd := GetCommand(abs);
      match cmd
      case Failure(e) => r := Failure(e);
      case Success(tokens) => r := Success(Join(tokens, " "));
    }
  }

  /** `addOptional`: appends `key` and the rendered value when the value is not null, the
      condition holds and the rendered value is not blank; otherwise leaves `cmd` as it is. */
  method AddOptional(cmd: seq<string>, condition: bool, key: string, value: Option<OptionValue>, abs: File -> string)
    returns (r: seq<string>)
    ensures r == cmd + Flatten(OptionalPair(condition, key, value, abs))
    ensures Emits(condition, value, abs) <==> |r| == |cmd| + 2
    ensures !Emits(condition, value, abs) <==> r == cmd
  {
    r := cmd;
    if value.Some? && condition {
      var val := "";
      match value.value {
        case Text(s) => val := s;
        case Path(f) => val := abs(f);
      }
      if IsNotBlank(Some(val)) {
        r := r + [key, val];
      }
    }
  }

  /** `addOptionalEnvironment`: appends `-J-D` + `keyVal` when `conditional` holds. */
  method AddOptionalEnvironment(cmd: seq<string>, conditional: bool, keyVal: string) returns (r: seq<string>)
    ensures conditional ==> r == cmd + [EnvironmentToken(keyVal)]
    ensures !conditional ==> r == cmd
  {
    r := cmd;
    if conditional {
      r := r + ["-J-D" + keyVal];
    }
  }

  /** The argument step of `getCommand`: the tokens of every line that is not blank and not
      a comment, line after line. */
  method AddArguments(cmd: seq<string>, arg: Option<string>) returns (r: seq<string>)
    ensures r == cmd + ArgumentTokens(arg)
  {
    r := cmd;
    if IsNotBlank(arg) {
      r := AddLineTokens(cmd, ArgumentLines(arg.value));
    }
  }

  /** `forEachOrdered` over the kept argument lines: each line's words are appended. */
  method AddLineTokens(cmd: seq<string>, lines: seq<string>) returns (r: seq<string>)
    ensures r == cmd + LineTokens(lines)
  {
    r := cmd;
    var i := 0;
    while i < |lines|
      invariant 0 <= i <= |lines|
      invariant r == cmd + LineTokens(lines[..i])
    {
      assert lines[..i + 1][..i] == lines[..i];
      r := r + Split(lines[i], Whitespace);
      i := i + 1;
    }
    assert lines[..i] == lines;
  }

  /** The environment step of `getCommand`: one `-J-D` token per line that is not a comment
      and holds `=`, in line order. */
  method AddEnvironment(cmd: seq<string>, env: Option<string>) returns (r: seq<string>)
    ensures r == cmd + EnvironmentTokens(env)
  {
    r := cmd;
    if IsNotBlank(env) {
      r := AddProperties(cmd, EnvironmentLines(env.value));
    }
  }

  /** `forEachOrdered` over the kept environment lines: each line becomes one property. */
  method AddProperties(cmd: seq<string>, lines: seq<string>) returns (r: seq<string>)
    ensures r == cmd + LineProperties(lines)
  {
    r := cmd;
    var i := 0;
    while i < |lines|
      invariant 0 <= i <= |lines|
      invariant r == cmd + LineProperties(lines[..i])
    {
      assert lines[..i + 1][..i] == lines[..i];
      r := AddOptionalEnvironment(r, true, lines[i]);
      i := i + 1;
    }
    assert lines[..i] == lines;
  }

  /** One `addOptional` step: appending the flattened pair extends the pairs done so far. */
  lemma AppendOptions(head: seq<string>, done: seq<(string, string)>, p: seq<(string, string)>,
                      before: seq<string>, after: seq<string>)
    requires before == head + Flatten(done)
    requires after == before + Flatten(p)
    ensures after == head + Flatten(done + p)
  {
    FlattenAppend(done, p);
  }

  /** Flattening distributes over concatenation. */
  lemma {:induction false} FlattenAppend(a: seq<(string, string)>, b: seq<(string, string)>)
    ensures Flatten(a + b) == Flatten(a) + Flatten(b)
  {
    if |a| == 0 {
      assert a + b == b;
    } else {
      assert (a + b)[1..] == a[1..] + b;
      FlattenAppend(a[1..], b);
    }
  }
}
