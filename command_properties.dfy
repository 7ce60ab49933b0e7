/** What `Task.getCommand`, `getCommandAsString`, `setLocale` and `getLocale` promise, stated
    over the reference definitions of module TaskModel. */
module CommandProperties {
  import opened Wrappers
  import opened Sequences
  import opened StringUtils
  import opened TaskModel

  /** The position of an option key in the fixed order; 5 for anything else. */
  function Rank(key: string): nat
  {
    if key == "--fontsize" then 0
    else if key == "--locale" then 1
    else if key == "--userdir" then 2
    else if key == "--cachedir" then 3
    else if key == "--jdkhome" then 4
    else 5
  }

  /** Option keys strictly increasing in rank, all at least `lo` and all known. */
  predicate RankedFrom(p: seq<(string, string)>, lo: nat)
  {
    && (forall i | 0 <= i < |p| :: lo <= Rank(p[i].0) < 5)
    && (forall i, j | 0 <= i < j < |p| :: Rank(p[i].0) < Rank(p[j].0))
  }

  lemma PrependRanked(x: seq<(string, string)>, rest: seq<(string, string)>, r: nat)
    requires |x| <= 1 && (forall i | 0 <= i < |x| :: Rank(x[i].0) == r) && r < 5
    requires RankedFrom(rest, r + 1)
    ensures RankedFrom(x + rest, r)
  {
    var p := x + rest;
    forall i, j | 0 <= i < j < |p| ensures Rank(p[i].0) < Rank(p[j].0) {
      if i < |x| {
        assert p[j] == rest[j - |x|];
      } else {
        assert p[i] == rest[i - |x|] && p[j] == rest[j - |x|];
      }
    }
  }

  /** What one `addOptional` call contributes: at most one pair, with its own key. */
  lemma OptionalPairShape(condition: bool, key: string, value: Option<OptionValue>, abs: File -> string)
    ensures |OptionalPair(condition, key, value, abs)| <= 1
    ensures forall i | 0 <= i < |OptionalPair(condition, key, value, abs)| :: OptionalPair(condition, key, value, abs)[i].0 == key
  {
  }

  lemma FiveRanked(a: seq<(string, string)>, b: seq<(string, string)>, c: seq<(string, string)>,
                   d: seq<(string, string)>, e: seq<(string, string)>)
    requires |a| <= 1 && |b| <= 1 && |c| <= 1 && |d| <= 1 && |e| <= 1
    requires forall i | 0 <= i < |a| :: a[i].0 == "--fontsize"
    requires forall i | 0 <= i < |b| :: b[i].0 == "--locale"
    requires forall i | 0 <= i < |c| :: c[i].0 == "--userdir"
    requires forall i | 0 <= i < |d| :: d[i].0 == "--cachedir"
    requires forall i | 0 <= i < |e| :: e[i].0 == "--jdkhome"
    ensures RankedFrom(a + b + c + d + e, 0)
  {
    FiveRankedNested(a, b, c, d, e);
    assert a + b + c + d + e == a + (b + (c + (d + e)));
  }

  lemma FiveRankedNested(a: seq<(string, string)>, b: seq<(string, string)>, c: seq<(string, string)>,
                         d: seq<(string, string)>, e: seq<(string, string)>)
    requires |a| <= 1 && |b| <= 1 && |c| <= 1 && |d| <= 1 && |e| <= 1
    requires forall i | 0 <= i < |a| :: Rank(a[i].0) == 0
    requires forall i | 0 <= i < |b| :: Rank(b[i].0) == 1
    requires forall i | 0 <= i < |c| :: Rank(c[i].0) == 2
    requires forall i | 0 <= i < |d| :: Rank(d[i].0) == 3
    requires forall i | 0 <= i < |e| :: Rank(e[i].0) == 4
    ensures RankedFrom(a + (b + (c + (d + e))), 0)
  {
    PrependRanked(e, [], 4);
    assert e + [] == e;
    PrependRanked(d, e, 3);
    PrependRanked(c, d + e, 2);
    PrependRanked(b, c + (d + e), 1);
    PrependRanked(a, b + (c + (d + e)), 0);
  }

  lemma {:induction false} RankedLength(p: seq<(string, string)>, lo: nat)
    requires RankedFrom(p, lo) && lo <= 5
    ensures |p| <= 5 - lo
  {
    if |p| > 0 {
      var r := Rank(p[0].0);
      assert RankedFrom(p[1..], r + 1) by {
        assert forall i | 0 <= i < |p[1..]| :: p[1..][i] == p[i + 1];
      }
      RankedLength(p[1..], r + 1);
    }
  }

  lemma RankedKeys(p: seq<(string, string)>)
    requires RankedFrom(p, 0)
    ensures |p| <= 5
    ensures forall i | 0 <= i < |p| :: p[i].0 in OptionKeys
  {
    RankedLength(p, 0);
    forall i | 0 <= i < |p| ensures p[i].0 in OptionKeys {
      var k := p[i].0;
      assert k == OptionKeys[Rank(k)];
    }
  }

  /** The option pairs appear in the fixed order fontsize, locale, userdir, cachedir, jdkhome,
      each key at most once. */
  lemma OptionsInFixedOrder(t: TaskData, abs: File -> string)
    ensures |Options(t, abs)| <= 5
    ensures forall i | 0 <= i < |Options(t, abs)| :: Options(t, abs)[i].0 in OptionKeys
    ensures forall i, j | 0 <= i < j < |Options(t, abs)| :: Rank(Options(t, abs)[i].0) < Rank(Options(t, abs)[j].0)
  {
    OptionalPairShape(true, "--fontsize", TextValue(t.fontSize), abs);
    OptionalPairShape(true, "--locale", TextValue(LocaleArgument(t.locale)), abs);
    OptionalPairShape(t.userDirActivated, "--userdir", PathValue(t.userDir), abs);
    OptionalPairShape(t.cacheDirActivated, "--cachedir", PathValue(t.cacheDir), abs);
    OptionalPairShape(t.javaDirActivated, "--jdkhome", PathValue(t.javaDir), abs);
    FiveRanked(OptionalPair(true, "--fontsize", TextValue(t.fontSize), abs),
               OptionalPair(true, "--locale", TextValue(LocaleArgument(t.locale)), abs),
               OptionalPair(t.userDirActivated, "--userdir", PathValue(t.userDir), abs),
               OptionalPair(t.cacheDirActivated, "--cachedir", PathValue(t.cacheDir), abs),
               OptionalPair(t.javaDirActivated, "--jdkhome", PathValue(t.javaDir), abs));
    RankedKeys(Options(t, abs));
  }

  /** The positions in `[head] + f + [mid] + rest`, for any list `f` that lays the pairs out
      two by two (as `Flatten` does). */
  lemma PairsLayout(head: string, f: seq<string>, p: seq<(string, string)>, mid: string, rest: seq<string>)
    requires |f| == 2 * |p|
    requires forall i | 0 <= i < |p| :: f[2 * i] == p[i].0 && f[2 * i + 1] == p[i].1
    ensures var cmd := [head] + f + [mid] + rest;
            && |cmd| == 2 + 2 * |p| + |rest|
            && cmd[0] == head
            && (forall i | 0 <= i < |p| :: cmd[1 + 2 * i] == p[i].0 && cmd[2 + 2 * i] == p[i].1)
            && cmd[1 + 2 * |p|] == mid
            && cmd[2 + 2 * |p|..] == rest
  {
    var cmd := [head] + f + [mid] + rest;
    forall i | 0 <= i < |p| ensures cmd[1 + 2 * i] == p[i].0 && cmd[2 + 2 * i] == p[i].1 {
      assert cmd[1 + 2 * i] == f[2 * i];
      assert cmd[2 + 2 * i] == f[2 * i + 1];
    }
    assert cmd[2 + 2 * |p|..] == rest;
  }

  /** Where every part of a command sits: the executable's path, then each option pair as
      two adjacent tokens, then the logger property, then the argument and environment tokens. */
  lemma CommandLayout(t: TaskData, abs: File -> string)
    requires t.execPath.Some?
    ensures Command(t, abs).Success?
    ensures var cmd := Command(t, abs).value;
            var p := Options(t, abs);
            && |cmd| == 2 + 2 * |p| + |ArgumentTokens(t.arg)| + |EnvironmentTokens(t.env)|
            && cmd[0] == t.execPath.value.path
            && (forall i | 0 <= i < |p| :: cmd[1 + 2 * i] == p[i].0 && cmd[2 + 2 * i] == p[i].1)
            && cmd[1 + 2 * |p|] == LoggerToken(t.consoleLogger)
            && cmd[2 + 2 * |p|..] == ArgumentTokens(t.arg) + EnvironmentTokens(t.env)
  {
    var p := Options(t, abs);
    var rest := ArgumentTokens(t.arg) + EnvironmentTokens(t.env);
    CommandParts(t, abs);
    PairsLayout(t.execPath.value.path, Flatten(p), p, LoggerToken(t.consoleLogger), rest);
  }

  /** The command as its three groups: head and options, logger, argument and environment. */
  lemma CommandParts(t: TaskData, abs: File -> string)
    requires t.execPath.Some?
    ensures Command(t, abs)
            == Success([t.execPath.value.path] + Flatten(Options(t, abs)) + [LoggerToken(t.consoleLogger)]
                       + (ArgumentTokens(t.arg) + EnvironmentTokens(t.env)))
  {
    var front := [t.execPath.value.path] + Flatten(Options(t, abs)) + [LoggerToken(t.consoleLogger)];
    assert front + ArgumentTokens(t.arg) + EnvironmentTokens(t.env)
           == front + (ArgumentTokens(t.arg) + EnvironmentTokens(t.env));
  }

  /** The command exists exactly when the executable is set; it then starts with the
      executable's path and has at least two tokens. */
  lemma CommandStartsWithExecPath(t: TaskData, abs: File -> string)
    ensures Command(t, abs).Success? <==> t.execPath.Some?
    ensures Command(t, abs).Success? ==>
              |Command(t, abs).value| >= 2 && Command(t, abs).value[0] == t.execPath.value.path
  {
    if t.execPath.Some? {
      CommandLayout(t, abs);
    }
  }

  /** `--fontsize` is emitted, with the font size as its value, exactly when the font size is
      not blank. */
  lemma FontSizeOption(t: TaskData, abs: File -> string)
    ensures forall v :: ("--fontsize", v) in Options(t, abs) <==> IsNotBlank(t.fontSize) && v == t.fontSize.value
  {
  }

  /** Replacing `-` by `:` keeps a tag's length and blankness and changes nothing else. */
  lemma LocaleArgumentChars(locale: Option<string>)
    ensures LocaleArgument(locale).Some? <==> locale.Some?
    ensures locale.Some? ==>
              && |LocaleArgument(locale).value| == |locale.value|
              && forall i | 0 <= i < |locale.value| :: LocaleArgument(locale).value[i] == SwapChar(locale.value[i], '-', ':')
    ensures IsNotBlank(LocaleArgument(locale)) <==> IsNotBlank(locale)
  {
    if locale.Some? {
      var l := locale.value;
      ReplaceChar(l, '-', ':');
      var r := LocaleArgument(locale).value;
      assert forall i | 0 <= i < |l| :: IsWhitespace(r[i]) <==> IsWhitespace(l[i]);
    }
  }

  /** `--locale` is emitted exactly when the stored tag is not blank, and its value is the tag
      with `-` replaced by `:`. */
  lemma LocaleOption(t: TaskData, abs: File -> string)
    ensures forall v :: ("--locale", v) in Options(t, abs) <==> IsNotBlank(t.locale) && v == LocaleArgument(t.locale).value
  {
    LocaleArgumentChars(t.locale);
  }

  /** Each directory option is emitted, with the absolute path as its value, exactly when its
      flag is set, the directory is not null and its absolute path is not blank. */
  lemma DirectoryOptions(t: TaskData, abs: File -> string)
    ensures forall v :: ("--userdir", v) in Options(t, abs) <==>
              t.userDirActivated && t.userDir.Some? && IsNotBlank(Some(abs(t.userDir.value))) && v == abs(t.userDir.value)
    ensures forall v :: ("--cachedir", v) in Options(t, abs) <==>
              t.cacheDirActivated && t.cacheDir.Some? && IsNotBlank(Some(abs(t.cacheDir.value))) && v == abs(t.cacheDir.value)
    ensures forall v :: ("--jdkhome", v) in Options(t, abs) <==>
              t.javaDirActivated && t.javaDir.Some? && IsNotBlank(Some(abs(t.javaDir.value))) && v == abs(t.javaDir.value)
  {
    DirectoryOption(t, abs, "--userdir", t.userDirActivated, t.userDir);
    DirectoryOption(t, abs, "--cachedir", t.cacheDirActivated, t.cacheDir);
    DirectoryOption(t, abs, "--jdkhome", t.javaDirActivated, t.javaDir);
  }

  /** One directory option, from the one `addOptional` call with its key. */
  lemma DirectoryOption(t: TaskData, abs: File -> string, key: string, flag: bool, dir: Option<File>)
    requires (key, flag, dir) in [("--userdir", t.userDirActivated, t.userDir),
                                  ("--cachedir", t.cacheDirActivated, t.cacheDir),
                                  ("--jdkhome", t.javaDirActivated, t.javaDir)]
    ensures forall v :: (key, v) in Options(t, abs) <==>
              flag && dir.Some? && IsNotBlank(Some(abs(dir.value))) && v == abs(dir.value)
  {
    forall v ensures (key, v) in Options(t, abs) <==>
                       flag && dir.Some? && IsNotBlank(Some(abs(dir.value))) && v == abs(dir.value)
    {
      PairInOptionalPair(true, "--fontsize", TextValue(t.fontSize), abs, key, v);
      PairInOptionalPair(true, "--locale", TextValue(LocaleArgument(t.locale)), abs, key, v);
      PairInOptionalPair(t.userDirActivated, "--userdir", PathValue(t.userDir), abs, key, v);
      PairInOptionalPair(t.cacheDirActivated, "--cachedir", PathValue(t.cacheDir), abs, key, v);
      PairInOptionalPair(t.javaDirActivated, "--jdkhome", PathValue(t.javaDir), abs, key, v);
    }
  }

  /** The pair one `addOptional` call may add, as a membership test. */
  lemma PairInOptionalPair(condition: bool, key: string, value: Option<OptionValue>, abs: File -> string, k: string, v: string)
    ensures (k, v) in OptionalPair(condition, key, value, abs) <==>
              k == key && Emits(condition, value, abs) && v == Render(value.value, abs)
  {
  }

  /** The token right after the executable is `--fontsize` exactly when the font size is not
      blank, and the font size then follows it. */
  lemma FontSizeFollowsExecPath(t: TaskData, abs: File -> string)
    requires t.execPath.Some?
    ensures Command(t, abs).Success? && |Command(t, abs).value| >= 2
    ensures var cmd := Command(t, abs).value;
            && (cmd[1] == "--fontsize" <==> IsNotBlank(t.fontSize))
            && (IsNotBlank(t.fontSize) ==> |cmd| >= 3 && cmd[2] == t.fontSize.value)
  {
    CommandLayout(t, abs);
    OptionsInFixedOrder(t, abs);
    FontSizeOption(t, abs);
    FirstAfterHead(Command(t, abs).value, Options(t, abs), LoggerToken(t.consoleLogger), t.fontSize);
  }

  /** The token after the head of a laid-out command is the first option key, or the logger
      token when there is no option. */
  lemma FirstAfterHead(cmd: seq<string>, p: seq<(string, string)>, logger: string, fontSize: Option<string>)
    requires |cmd| >= 2 + 2 * |p|
    requires forall i | 0 <= i < |p| :: cmd[1 + 2 * i] == p[i].0 && cmd[2 + 2 * i] == p[i].1
    requires logger == LoggerToken(false) || logger == LoggerToken(true)
    requires cmd[1 + 2 * |p|] == logger
    requires forall i, j | 0 <= i < j < |p| :: Rank(p[i].0) < Rank(p[j].0)
    requires forall v :: ("--fontsize", v) in p <==> IsNotBlank(fontSize) && v == fontSize.value
    ensures cmd[1] == if |p| == 0 then logger else p[0].0
    ensures cmd[1] == "--fontsize" <==> IsNotBlank(fontSize)
    ensures IsNotBlank(fontSize) ==> |cmd| >= 3 && cmd[2] == fontSize.value
  {
    if |p| == 0 {
      assert logger[1] == 'J';
    } else {
      assert cmd[1] == p[0].0 && cmd[2] == p[0].1;
      if IsNotBlank(fontSize) {
        var i :| 0 <= i < |p| && p[i] == ("--fontsize", fontSize.value);
        assert forall j | 0 < j < |p| :: Rank(p[0].0) < Rank(p[j].0);
      } else {
        assert p[0] in p;
      }
    }
  }

  /** A task with the executable, a font size, a locale and an activated user directory set,
      the other directories off and no argument or environment text: its whole command. */
  lemma TypicalCommand(t: TaskData, abs: File -> string)
    requires t.execPath.Some? && IsNotBlank(t.fontSize) && IsNotBlank(t.locale)
    requires t.userDirActivated && t.userDir.Some? && IsNotBlank(Some(abs(t.userDir.value)))
    requires !t.cacheDirActivated && !t.javaDirActivated
    requires !IsNotBlank(t.arg) && !IsNotBlank(t.env)
    ensures Command(t, abs) == Success([t.execPath.value.path,
                                        "--fontsize", t.fontSize.value,
                                        "--locale", LocaleArgument(t.locale).value,
                                        "--userdir", abs(t.userDir.value),
                                        LoggerToken(t.consoleLogger)])
  {
    LocaleArgumentChars(t.locale);
    var p := [("--fontsize", t.fontSize.value), ("--locale", LocaleArgument(t.locale).value),
              ("--userdir", abs(t.userDir.value))];
    assert Options(t, abs) == p;
    var f := Flatten(p);
    assert f[2 * 0] == p[0].0 && f[2 * 0 + 1] == p[0].1;
    assert f[2 * 1] == p[1].0 && f[2 * 1 + 1] == p[1].1;
    assert f[2 * 2] == p[2].0 && f[2 * 2 + 1] == p[2].1;
    assert f == ["--fontsize", t.fontSize.value, "--locale", LocaleArgument(t.locale).value,
                 "--userdir", abs(t.userDir.value)];
    assert ArgumentTokens(t.arg) == [] && EnvironmentTokens(t.env) == [];
    var x := t.execPath.value.path;
    var l := LoggerToken(t.consoleLogger);
    assert Command(t, abs).value == [x] + f + [l] + [] + [];
    assert [x] + f + [l] + [] + [] == [x, "--fontsize", t.fontSize.value, "--locale", LocaleArgument(t.locale).value,
                                       "--userdir", abs(t.userDir.value), l];
  }

  // ---------------------------------------------------------------------------------------
  // Arguments

  /** A null or blank argument text adds nothing; every argument token is non-empty and free
      of whitespace. */
  lemma ArgumentTokensAreWords(arg: Option<string>)
    ensures !IsNotBlank(arg) ==> ArgumentTokens(arg) == []
    ensures forall k | 0 <= k < |ArgumentTokens(arg)| ::
              |ArgumentTokens(arg)[k]| > 0 && forall i | 0 <= i < |ArgumentTokens(arg)[k]| :: !IsWhitespace(ArgumentTokens(arg)[k][i])
  {
  }

  /** The lines that contribute are exactly the non-blank lines that do not start with `#`. */
  lemma ArgumentLinesKept(arg: string)
    ensures forall k | 0 <= k < |ArgumentLines(arg)| ::
              ArgumentLines(arg)[k] in Split(arg, Newline)
              && NotBlankLine(ArgumentLines(arg)[k]) && NotComment(ArgumentLines(arg)[k])
    ensures forall k | 0 <= k < |Split(arg, Newline)| ::
              NotBlankLine(Split(arg, Newline)[k]) && NotComment(Split(arg, Newline)[k]) ==>
                Split(arg, Newline)[k] in ArgumentLines(arg)
  {
    var lines := Split(arg, Newline);
    var nonBlank := Filter(NotBlankLine, lines);
    forall k | 0 <= k < |lines| && NotBlankLine(lines[k]) && NotComment(lines[k])
      ensures lines[k] in ArgumentLines(arg)
    {
      assert lines[k] in nonBlank;
      var j :| 0 <= j < |nonBlank| && nonBlank[j] == lines[k];
    }
  }

  /** The argument tokens glued together are the characters of the lines they come from,
      whitespace left out and order kept. */
  lemma {:induction false} LineTokensKeepContent(lines: seq<string>)
    ensures Concat(LineTokens(lines)) == Strip(Concat(lines), Whitespace)
  {
    if |lines| > 0 {
      var init, last := lines[..|lines| - 1], lines[|lines| - 1];
      assert lines == init + [last];
      assert LineTokens(lines) == LineTokens(init) + Split(last, Whitespace);
      assert Concat([last]) == last by {
        assert [last][1..] == [];
      }
      calc {
        Concat(LineTokens(lines));
        { ConcatAppend(LineTokens(init), Split(last, Whitespace)); }
        Concat(LineTokens(init)) + Concat(Split(last, Whitespace));
        { LineTokensKeepContent(init); SplitKeepsContent(last, Whitespace); }
        Strip(Concat(init), Whitespace) + Strip(last, Whitespace);
        { StripAppend(Concat(init), last, Whitespace); }
        Strip(Concat(init) + last, Whitespace);
        { ConcatAppend(init, [last]); }
        Strip(Concat(lines), Whitespace);
      }
    }
  }

  lemma WordsAreLine(w1: string, w2: string)
    requires IsToken(w1, Whitespace) && IsToken(w2, Whitespace)
    ensures IsToken(w1 + " " + w2, Newline)
    ensures Split(w1 + " " + w2, Whitespace) == [w1, w2]
  {
    assert w1 + " " + w2 == w1 + ([' '] + w2);
    SpacedWordsAreLine(w1, w2);
    SplitOneToken(w2, Whitespace);
    SplitTokenThenSeparator(w1, ' ', w2, Whitespace);
  }

  /** Two words and a space between them hold no newline. */
  lemma SpacedWordsAreLine(w1: string, w2: string)
    requires IsToken(w1, Whitespace) && IsToken(w2, Whitespace)
    ensures IsToken(w1 + ([' '] + w2), Newline)
  {
    var line := w1 + ([' '] + w2);
    forall i | 0 <= i < |line| ensures !IsSeparator(Newline, line[i]) {
      if i < |w1| {
        assert line[i] == w1[i];
      } else if i > |w1| {
        assert line[i] == w2[i - |w1| - 1];
      }
    }
  }

  lemma CommentIsLine(comment: string)
    requires '\n' !in comment
    ensures IsToken("#" + comment, Newline)
  {
    var line := "#" + comment;
    assert forall i | 0 < i < |line| :: line[i] == comment[i - 1];
  }

  lemma ArgumentExampleText(w1: string, w2: string, w3: string, comment: string)
    ensures w1 + " " + w2 + "\n#" + comment + "\n\n" + w3
            == (w1 + " " + w2) + (['\n'] + (("#" + comment) + (['\n'] + (['\n'] + w3))))
  {
  }

  lemma ArgumentExampleLines(line1: string, line2: string, line3: string)
    requires IsToken(line1, Newline) && IsToken(line2, Newline) && IsToken(line3, Newline)
    ensures Split(line1 + (['\n'] + (line2 + (['\n'] + (['\n'] + line3)))), Newline) == [line1, line2, line3]
  {
    SplitOneToken(line3, Newline);
    SplitSkipsSeparator('\n', line3, Newline);
    SplitTokenThenSeparator(line2, '\n', ['\n'] + line3, Newline);
    SplitTokenThenSeparator(line1, '\n', line2 + (['\n'] + (['\n'] + line3)), Newline);
  }

  lemma ArgumentExampleKept(line1: string, line2: string, line3: string)
    requires NotBlankLine(line1) && NotBlankLine(line2) && NotBlankLine(line3)
    requires NotComment(line1) && !NotComment(line2) && NotComment(line3)
    ensures Filter(NotComment, Filter(NotBlankLine, [line1, line2, line3])) == [line1, line3]
  {
    FilterKeepsAll(NotBlankLine, [line1, line2, line3]);
    FilterDropsMiddle(NotComment, line1, line2, line3);
  }

  /** The shape of the argument text "foo bar", a comment line, a blank line, "baz", for any
      three words: the comment and the blank line add nothing, the words come out in order. */
  lemma ArgumentExample(w1: string, w2: string, w3: string, comment: string)
    requires IsToken(w1, Whitespace) && IsToken(w2, Whitespace) && IsToken(w3, Whitespace)
    requires NotComment(w1) && NotComment(w3)
    requires '\n' !in comment
    ensures ArgumentTokens(Some(w1 + " " + w2 + "\n#" + comment + "\n\n" + w3)) == [w1, w2, w3]
  {
    ArgumentExampleText(w1, w2, w3, comment);
    ArgumentExampleParts(w1, w2, w3, comment);
  }

  lemma ArgumentExampleParts(w1: string, w2: string, w3: string, comment: string)
    requires IsToken(w1, Whitespace) && IsToken(w2, Whitespace) && IsToken(w3, Whitespace)
    requires NotComment(w1) && NotComment(w3)
    requires '\n' !in comment
    ensures ArgumentTokens(Some((w1 + " " + w2) + (['\n'] + (("#" + comment) + (['\n'] + (['\n'] + w3)))))) == [w1, w2, w3]
  {
    var line1, line2 := w1 + " " + w2, "#" + comment;
    var text := line1 + (['\n'] + (line2 + (['\n'] + (['\n'] + w3))));
    WordsAreLine(w1, w2);
    CommentIsLine(comment);
    assert IsToken(w3, Newline) by {
      assert forall i | 0 <= i < |w3| :: !IsWhitespace(w3[i]);
    }
    ArgumentExampleLines(line1, line2, w3);
    assert NotBlankLine(line1) by { assert !IsWhitespace(line1[0]); }
    assert NotBlankLine(line2) by { assert !IsWhitespace(line2[0]); }
    assert NotBlankLine(w3) by { assert !IsWhitespace(w3[0]); }
    assert line1[..1] == w1[..1];
    assert line2[..1] == "#";
    ArgumentExampleKept(line1, line2, w3);
    assert IsNotBlank(Some(text)) by { assert text[0] == line1[0]; }
    ArgumentExampleTokens(w1, w2, w3);
  }

  lemma ArgumentExampleTokens(w1: string, w2: string, w3: string)
    requires IsToken(w3, Whitespace)
    requires Split(w1 + " " + w2, Whitespace) == [w1, w2]
    ensures LineTokens([w1 + " " + w2, w3]) == [w1, w2, w3]
  {
    SplitOneToken(w3, Whitespace);
    assert LineTokens([w1 + " " + w2]) == [w1, w2] by {
      assert [w1 + " " + w2][..0] == [];
    }
    assert [w1 + " " + w2, w3][..1] == [w1 + " " + w2];
  }

  // ---------------------------------------------------------------------------------------
  // Environment

  /** A token comes from the environment text exactly when it is `-J-D` followed by one of
      its lines that does not start with `#` and contains `=`. */
  lemma EnvironmentTokensFromLines(env: string)
    ensures forall tok :: tok in EnvironmentTokens(Some(env)) <==>
              exists line :: line in Split(env, Newline) && NotComment(line) && HasAssignment(line)
                             && tok == EnvironmentToken(line)
  {
    forall tok | tok in EnvironmentTokens(Some(env))
      ensures exists line :: line in Split(env, Newline) && NotComment(line) && HasAssignment(line)
                             && tok == EnvironmentToken(line)
    {
      EnvironmentTokenHasLine(env, tok);
    }
    forall tok, line | line in Split(env, Newline) && NotComment(line) && HasAssignment(line) && tok == EnvironmentToken(line)
      ensures tok in EnvironmentTokens(Some(env))
    {
      EnvironmentLineHasToken(env, line);
    }
  }

  /** A blank environment text has no line holding `=`: the guard on `isNotBlank` drops
      nothing the filters would have kept. */
  lemma BlankEnvironmentHasNoAssignment(env: string, line: string)
    requires Blank(env)
    requires line in Split(env, Newline)
    ensures !HasAssignment(line)
  {
    if HasAssignment(line) {
      var i: nat :| OccursAt(line, "=", i);
      assert line[i] == line[i..i + 1][0] == '=';
      var k :| 0 <= k < |Split(env, Newline)| && Split(env, Newline)[k] == line;
      SplitPieceChars(env, Newline, k, i);
      assert false;
    }
  }

  /** Every environment token comes from a kept line. */
  lemma EnvironmentTokenHasLine(env: string, tok: string)
    requires tok in EnvironmentTokens(Some(env))
    ensures exists line :: line in Split(env, Newline) && NotComment(line) && HasAssignment(line)
                           && tok == EnvironmentToken(line)
  {
    assert IsNotBlank(Some(env));
    var lines := Split(env, Newline);
    var uncommented := Filter(NotComment, lines);
    var kept := EnvironmentLines(env);
    var toks := LineProperties(kept);
    var i :| 0 <= i < |toks| && toks[i] == tok;
    var line := kept[i];
    assert line in uncommented && HasAssignment(line);
    var j :| 0 <= j < |uncommented| && uncommented[j] == line;
    assert line in lines && NotComment(line);
  }

  /** Every kept line gives its token. */
  lemma EnvironmentLineHasToken(env: string, line: string)
    requires line in Split(env, Newline) && NotComment(line) && HasAssignment(line)
    ensures EnvironmentToken(line) in EnvironmentTokens(Some(env))
  {
    if Blank(env) {
      BlankEnvironmentHasNoAssignment(env, line);
    }
    var lines := Split(env, Newline);
    var uncommented := Filter(NotComment, lines);
    var kept := EnvironmentLines(env);
    var k :| 0 <= k < |lines| && lines[k] == line;
    assert line in uncommented;
    var j :| 0 <= j < |uncommented| && uncommented[j] == line;
    assert line in kept;
    var i :| 0 <= i < |kept| && kept[i] == line;
    assert LineProperties(kept)[i] == EnvironmentToken(line);
  }

  lemma EnvironmentExampleText(assignment: string, commented: string, other: string)
    ensures assignment + "\n#" + commented + "\n" + other
            == assignment + (['\n'] + (("#" + commented) + (['\n'] + other)))
  {
  }

  lemma EnvironmentExampleLines(line1: string, line2: string, line3: string)
    requires IsToken(line1, Newline) && IsToken(line2, Newline) && IsToken(line3, Newline)
    ensures Split(line1 + (['\n'] + (line2 + (['\n'] + line3))), Newline) == [line1, line2, line3]
  {
    SplitOneToken(line3, Newline);
    SplitTokenThenSeparator(line2, '\n', line3, Newline);
    SplitTokenThenSeparator(line1, '\n', line2 + (['\n'] + line3), Newline);
  }

  lemma EnvironmentExampleKept(line1: string, line2: string, line3: string)
    requires NotComment(line1) && !NotComment(line2) && NotComment(line3)
    requires HasAssignment(line1) && !HasAssignment(line3)
    ensures Filter(HasAssignment, Filter(NotComment, [line1, line2, line3])) == [line1]
  {
    FilterDropsMiddle(NotComment, line1, line2, line3);
    assert [line1, line3] == [line1] + [line3];
    FilterAppend(HasAssignment, [line1], [line3]);
    FilterSingleton(HasAssignment, line1);
    FilterSingleton(HasAssignment, line3);
  }

  /** The shape of the environment text "A=1", "#B=2", "C", for any such lines: only the
      assignment that is not commented out becomes a property. */
  lemma EnvironmentExample(assignment: string, commented: string, other: string)
    requires IsToken(assignment, Newline) && NotComment(assignment) && HasAssignment(assignment)
    requires '\n' !in commented
    requires IsToken(other, Newline) && NotComment(other) && !HasAssignment(other)
    ensures EnvironmentTokens(Some(assignment + "\n#" + commented + "\n" + other)) == ["-J-D" + assignment]
  {
    var line2 := "#" + commented;
    var text := assignment + "\n#" + commented + "\n" + other;
    CommentIsLine(commented);
    EnvironmentExampleText(assignment, commented, other);
    EnvironmentExampleLines(assignment, line2, other);
    assert line2[..1] == "#";
    EnvironmentExampleKept(assignment, line2, other);
    assert IsNotBlank(Some(text)) by {
      var i: nat :| OccursAt(assignment, "=", i);
      assert assignment[i..i + 1] == "=";
      assert text[i] == assignment[i] == '=';
    }
    assert LineProperties([assignment]) == ["-J-D" + assignment];
  }

  // ---------------------------------------------------------------------------------------
  // The command as one string

  /** When no token holds whitespace, splitting the command string on whitespace gives the
      command back: the single spaces of `getCommandAsString` are the only separators. */
  lemma CommandStringSplits(t: TaskData, abs: File -> string)
    requires Command(t, abs).Success?
    requires forall k | 0 <= k < |Command(t, abs).value| :: IsToken(Command(t, abs).value[k], Whitespace)
    ensures CommandString(t, abs).Success?
    ensures Split(CommandString(t, abs).value, Whitespace) == Command(t, abs).value
  {
    assert " " == [' '];
    SplitJoin(Command(t, abs).value, ' ', Whitespace);
  }

  /** The command string fails exactly when the command does, for the same reason. */
  lemma CommandStringFails(t: TaskData, abs: File -> string)
    ensures CommandString(t, abs).Failure? <==> t.execPath.None?
    ensures CommandString(t, abs).Failure? ==> CommandString(t, abs).error == NullExecPath
  {
  }

  // ---------------------------------------------------------------------------------------
  // Locale

  /** `getLocale` after `setLocale(tag)`: `und` in any case reads back as `und`, a blank tag
      reads back as `und`, and every other tag reads back unchanged. */
  lemma LocaleRoundTrip(tag: string)
    ensures ReadLocale(Some(StoredLocale(tag)))
            == if EqualsIgnoreCase(tag, "und") || Blank(tag) then "und" else tag
  {
    if EqualsIgnoreCase(tag, "und") {
      assert Blank(StoredLocale(tag));
    }
  }

  /** Storing what was read back stores the same value again, for every tag that is not blank
      (`Locale.toLanguageTag` never returns a blank tag). */
  lemma LocaleStable(tag: string)
    requires !Blank(tag)
    ensures StoredLocale(ReadLocale(Some(StoredLocale(tag)))) == StoredLocale(tag)
  {
    LocaleRoundTrip(tag);
    if EqualsIgnoreCase(tag, "und") {
      assert EqualsIgnoreCase("und", "und");
    }
  }

  /** A stored `""` and a null field both read back as `und`; the `--locale` option is then
      absent, although `getLocale` reports `und`. */
  lemma UndeterminedLocaleHasNoOption(t: TaskData, abs: File -> string)
    requires t.locale == Some("") || t.locale.None?
    ensures ReadLocale(t.locale) == "und"
    ensures forall v :: ("--locale", v) !in Options(t, abs)
  {
    LocaleOption(t, abs);
  }
}
