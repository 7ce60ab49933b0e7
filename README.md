# nbLauncher core, modelled in Dafny

nbLauncher starts NetBeans-platform applications from saved launch tasks. This project models
its two core pieces and proves properties about them.

- **The command compiler of `Task`** turns a task's fields into the argument list of the
  process to start. The list holds, in this order:
  - the executable's path;
  - the `--fontsize`, `--locale`, `--userdir`, `--cachedir` and `--jdkhome` pairs, each gated by
    null and blank checks and, for the directories, by an activation flag;
  - the `-J-Dnetbeans.logger.console=true|false` property;
  - the whitespace-separated words of every line of the argument text that is neither blank nor
    a `#` comment;
  - one `-J-D<line>` property for each line of the environment text that is not a `#` comment
    and holds a `=`.

  The same piece covers `getCommandAsString`, and the `setLocale`/`getLocale` pair. That pair
  stores the undetermined tag `und` as `""` and reads a blank value back as `und`.
- **`ExecutorManager`** keeps a map from task id to executor:
  - `requestStart` refuses a task whose id is already in the map;
  - `start` creates an executor, puts it under the id and runs it.

The files:

- `wrappers.dfy` has `Option` (Java's `null`) and `Result` (a thrown exception).
- `sequences.dfy` has `Filter` and `Concat`, the stream steps.
- `string_utils.dfy` has the Apache commons-lang3 `StringUtils` functions the compiler calls,
  plus `String.join` and `Character.isWhitespace`.
- `task_model.dfy` has `TaskData`, the task as a value, and `Command`, the reference definition
  of `getCommand`.
- `command_properties.dfy` has the lemmas about `Command`: layout, each option, arguments,
  environment, the joined string and the locale.
- `tasks.dfy` has class `Task`. Its fields are updated in place. `GetCommand` builds the list
  step by step and is proved equal to `Command`.
- `executors.dfy` has the run-slot table. On values it is `Admit`, `Install` and `Replay`, with
  lemmas over any sequence of requests. As objects it is classes `Executor` and
  `ExecutorManager`, whose methods are proved against those functions.

Choices where a library call could not be modelled exactly:

- `File.getAbsolutePath` is the parameter `abs`. A property about a directory option holds for
  every `abs`.
- The executable token is `File.toString()`. `java.io.File` normalises the pathname it is built
  from (repeated and trailing separators are removed), and `toString()` returns that normalised
  path. The model keeps the normalised path as the field `path` of `File`.
- A `java.util.Locale` is modelled by its language tag string.

Points where the code's behaviour is easy to misread:

- The executable's first token is `toString()`, not the absolute path.
- `getCommand` dereferences the executable without a null check, so a null executable throws.
  The model returns `Failure(NullExecPath)`.
- The argument text drops a line as a comment only when its first character is `#`
  (`StringUtils.startsWith`). An indented `#` line is not a comment: its words reach the command.
- The logger token is written `-J-Dnetbeans.logger.console=...`, with no space after `-J-D`.
- No operation of `ExecutorManager` removes an entry: `requestStart` and `start` only add to or
  overwrite the map. `getExecutors` hands out the live map, and what its callers do with it is
  outside the class.

## Model

| member | source | states |
|---|---|---|
| StringUtils.DefaultIfBlank | main/src/main/java/se/trixon/nblauncher/core/Task.java:141 | the result is the default or the given value; a usable (not null, not blank) value is always kept; the result is blank only when both the value and the default are |
| StringUtils.DefaultIfBlankIdempotent | main/src/main/java/se/trixon/nblauncher/core/Task.java:141 | applying the default to a result already defaulted changes nothing |
| StringUtils.IsWhitespace | main/src/main/java/se/trixon/nblauncher/core/Task.java:95 | reference definition of `Character.isWhitespace`, the separators of `split(line)` |
| StringUtils.IsNotBlank | main/src/main/java/se/trixon/nblauncher/core/Task.java:90 | reference definition of `StringUtils.isNotBlank`: not null and not whitespace only |
| StringUtils.StartsWith | main/src/main/java/se/trixon/nblauncher/core/Task.java:93 | reference definition of `StringUtils.startsWith`: the text begins with the prefix |
| StringUtils.Replace | main/src/main/java/se/trixon/nblauncher/core/Task.java:83 | reference definition of `StringUtils.replace`: every non-overlapping occurrence, left to right, replaced |
| StringUtils.Join | main/src/main/java/se/trixon/nblauncher/core/Task.java:113 | reference definition of `String.join`: the parts with the delimiter between each two |
| StringUtils.EqualsIgnoreCase | main/src/main/java/se/trixon/nblauncher/core/Task.java:214 | reference definition of `StringUtils.equalsIgnoreCase`: same length and the same letters up to case |
| StringUtils.EqualsIgnoreCaseEquivalence | main/src/main/java/se/trixon/nblauncher/core/Task.java:214 | comparing without case is reflexive, symmetric and transitive |
| StringUtils.SplitPieceChars | main/src/main/java/se/trixon/nblauncher/core/Task.java:91 | every character of every piece of a split is a character of the input |
| StringUtils.IndexOf | main/src/main/java/se/trixon/nblauncher/core/Task.java:103 | -1 or an index where the pattern occurs, and no occurrence before that index |
| StringUtils.Contains | main/src/main/java/se/trixon/nblauncher/core/Task.java:103 | true exactly when the pattern occurs at some index |
| StringUtils.ReplaceChar | main/src/main/java/se/trixon/nblauncher/core/Task.java:83 | replacing one character by another keeps the length and maps every character through SwapChar |
| StringUtils.ReplaceNullable | main/src/main/java/se/trixon/nblauncher/core/Task.java:83 | `replace` on a null text is null, on a non-null text non-null |
| StringUtils.TokenLength | main/src/main/java/se/trixon/nblauncher/core/Task.java:91 | the leading run of non-separators: no separator inside it, a separator (or the end) right after it |
| StringUtils.Split | main/src/main/java/se/trixon/nblauncher/core/Task.java:91-95 | every piece is non-empty and free of separators |
| StringUtils.SplitKeepsContent | main/src/main/java/se/trixon/nblauncher/core/Task.java:91-95 | the pieces glued together are the input with its separators removed: split loses nothing else and keeps order |
| StringUtils.StripAppend | main/src/main/java/se/trixon/nblauncher/core/Task.java:91-95 | removing separators distributes over concatenation |
| StringUtils.StripToken | main/src/main/java/se/trixon/nblauncher/core/Task.java:91-95 | removing separators from a separator-free string changes nothing |
| StringUtils.TokenLengthOfToken | main/src/main/java/se/trixon/nblauncher/core/Task.java:91-95 | a token followed by a separator or by nothing is read as one whole run |
| StringUtils.SplitLeadingToken | main/src/main/java/se/trixon/nblauncher/core/Task.java:91-95 | a token followed by a separator or by nothing is the first piece of the split |
| StringUtils.SplitSkipsSeparator | main/src/main/java/se/trixon/nblauncher/core/Task.java:91-95 | a leading separator adds no piece (adjacent separators collapse) |
| StringUtils.SplitTokenThenSeparator | main/src/main/java/se/trixon/nblauncher/core/Task.java:91-95 | a token and a separator in front of any text give that token followed by the pieces of the text |
| StringUtils.SplitOneToken | main/src/main/java/se/trixon/nblauncher/core/Task.java:91-95 | a single token splits into itself |
| StringUtils.SplitJoin | main/src/main/java/se/trixon/nblauncher/core/Task.java:112-114 | splitting a join of tokens on its separator gives the tokens back |
| StringUtils.OccursAtTail | main/src/main/java/se/trixon/nblauncher/core/Task.java:103 | an occurrence in the tail is an occurrence one index later in the whole |
| StringUtils.ReplaceEachChar | main/src/main/java/se/trixon/nblauncher/core/Task.java:83 | the scan of `replace` with one-character strings maps each character and keeps the length |
| Sequences.Filter | main/src/main/java/se/trixon/nblauncher/core/Task.java:92-93 | the result's elements come from the input and pass the test, every passing element is kept, never longer |
| Sequences.FilterAppend | main/src/main/java/se/trixon/nblauncher/core/Task.java:101-103 | filtering distributes over concatenation, so input order is kept |
| Sequences.FilterKeepsAll | main/src/main/java/se/trixon/nblauncher/core/Task.java:92 | a list whose every element passes is kept whole |
| Sequences.FilterSingleton | main/src/main/java/se/trixon/nblauncher/core/Task.java:92-93 | a one-element list is kept exactly when its element passes |
| Sequences.FilterDropsMiddle | main/src/main/java/se/trixon/nblauncher/core/Task.java:93 | of three elements, a failing middle one is the only one dropped |
| Sequences.Concat | main/src/main/java/se/trixon/nblauncher/core/Task.java:94-96 | reference definition of appending each line's token list, in order |
| Sequences.ConcatAppend | main/src/main/java/se/trixon/nblauncher/core/Task.java:94-96 | the tokens of two line groups are those of the first followed by those of the second |
| TaskModel.Emits | main/src/main/java/se/trixon/nblauncher/core/Task.java:242-254 | reference definition of when `addOptional` adds its pair: the value is not null, the condition holds and the rendered value is not blank |
| TaskModel.OptionalPair | main/src/main/java/se/trixon/nblauncher/core/Task.java:241-259 | reference definition of the pair `addOptional` adds: its key and rendered value when it emits, nothing otherwise |
| TaskModel.LocaleArgument | main/src/main/java/se/trixon/nblauncher/core/Task.java:83 | reference definition of the `--locale` value: the stored tag with `-` replaced by `:`, null staying null |
| TaskModel.Options | main/src/main/java/se/trixon/nblauncher/core/Task.java:82-86 | reference definition of the option pairs, the five `addOptional` calls in source order |
| TaskModel.LoggerToken | main/src/main/java/se/trixon/nblauncher/core/Task.java:88 | reference definition of the logger property `-J-Dnetbeans.logger.console=true` or `=false` |
| TaskModel.EnvironmentToken | main/src/main/java/se/trixon/nblauncher/core/Task.java:261-265 | reference definition of the token `addOptionalEnvironment` adds: `-J-D` followed by the text |
| TaskModel.ArgumentLines | main/src/main/java/se/trixon/nblauncher/core/Task.java:91-93 | reference definition of the argument lines kept: split on newlines, then not blank, then not starting with `#` |
| TaskModel.EnvironmentLines | main/src/main/java/se/trixon/nblauncher/core/Task.java:101-103 | reference definition of the environment lines kept: split on newlines, then not starting with `#`, then holding `=` |
| TaskModel.EnvironmentTokens | main/src/main/java/se/trixon/nblauncher/core/Task.java:100-107 | reference definition of what the environment text adds: nothing for a null or blank text, one property per kept line otherwise |
| TaskModel.Command | main/src/main/java/se/trixon/nblauncher/core/Task.java:78-110 | reference definition of `getCommand`: the failure on a null executable, otherwise path, options, logger, argument and environment tokens |
| TaskModel.CommandString | main/src/main/java/se/trixon/nblauncher/core/Task.java:112-114 | reference definition of `getCommandAsString`: the command's tokens joined by single spaces, with the same failure |
| TaskModel.Flatten | main/src/main/java/se/trixon/nblauncher/core/Task.java:255-256 | each option pair becomes two adjacent tokens, key at 2i and value at 2i+1 |
| TaskModel.LineTokens | main/src/main/java/se/trixon/nblauncher/core/Task.java:94-96 | every token appended from the argument lines is non-empty and whitespace-free |
| TaskModel.ArgumentTokens | main/src/main/java/se/trixon/nblauncher/core/Task.java:90-98 | every argument token is non-empty and whitespace-free |
| TaskModel.LineProperties | main/src/main/java/se/trixon/nblauncher/core/Task.java:104-106 | exactly one `-J-D` token per kept line, in line order, the line kept verbatim |
| TaskModel.StoredLocale | main/src/main/java/se/trixon/nblauncher/core/Task.java:213-219 | the stored value is "" or the tag itself, is never `und` in any case, and is blank exactly when the tag is `und` in some case or blank |
| TaskModel.StoredLocaleIdempotent | main/src/main/java/se/trixon/nblauncher/core/Task.java:213-219 | storing an already stored value stores it unchanged |
| TaskModel.ReadLocale | main/src/main/java/se/trixon/nblauncher/core/Task.java:140-142 | the tag read back is never blank, and is the stored value whenever that is not blank |
| CommandProperties.PrependRanked | main/src/main/java/se/trixon/nblauncher/core/Task.java:82-86 | a pair of rank r before pairs ranked above r keeps the keys strictly increasing |
| CommandProperties.OptionalPairShape | main/src/main/java/se/trixon/nblauncher/core/Task.java:241-259 | one addOptional call adds at most one pair, always with its own key |
| CommandProperties.FiveRankedNested | main/src/main/java/se/trixon/nblauncher/core/Task.java:82-86 | five groups of ranks 0 to 4, each at most one pair, nested to the right have ranks strictly increasing |
| CommandProperties.FiveRanked | main/src/main/java/se/trixon/nblauncher/core/Task.java:82-86 | five calls with the five keys, in order, give ranks strictly increasing |
| CommandProperties.RankedLength | main/src/main/java/se/trixon/nblauncher/core/Task.java:82-86 | strictly increasing ranks below 5 allow at most five pairs |
| CommandProperties.RankedKeys | main/src/main/java/se/trixon/nblauncher/core/Task.java:82-86 | ranked pairs have keys among the five option keys |
| CommandProperties.OptionsInFixedOrder | main/src/main/java/se/trixon/nblauncher/core/Task.java:82-86 | at most five option pairs, keys among the five, each at most once and in the order fontsize, locale, userdir, cachedir, jdkhome |
| CommandProperties.PairsLayout | main/src/main/java/se/trixon/nblauncher/core/Task.java:78-110 | the index of every part of head + flattened pairs + middle token + rest |
| CommandProperties.CommandLayout | main/src/main/java/se/trixon/nblauncher/core/Task.java:78-110 | the command is the executable's path, then pair i at 1+2i and 2+2i, then the logger token at 1+2·pairs, then the argument tokens, then the environment tokens; its length is their sum |
| CommandProperties.CommandStartsWithExecPath | main/src/main/java/se/trixon/nblauncher/core/Task.java:80 | the command exists exactly when the executable is set, starts with its path and has at least two tokens |
| CommandProperties.FontSizeOption | main/src/main/java/se/trixon/nblauncher/core/Task.java:82 | (`--fontsize`, v) is an option exactly when the font size is not blank and v is it |
| CommandProperties.FontSizeFollowsExecPath | main/src/main/java/se/trixon/nblauncher/core/Task.java:80-82 | token 1 is `--fontsize` exactly when the font size is not blank, and then token 2 is the font size |
| CommandProperties.FirstAfterHead | main/src/main/java/se/trixon/nblauncher/core/Task.java:80-88 | the token after the head is the first option key, or the logger token when no option is emitted; it is `--fontsize` exactly when the font size is not blank, and the font size then follows |
| CommandProperties.LocaleArgumentChars | main/src/main/java/se/trixon/nblauncher/core/Task.java:83 | the `--locale` value has the tag's length, each `-` turned into `:` and every other character kept, and is blank exactly when the tag is |
| CommandProperties.LocaleOption | main/src/main/java/se/trixon/nblauncher/core/Task.java:83 | (`--locale`, v) is an option exactly when the stored tag is not blank and v is the tag with `-` replaced by `:` |
| CommandProperties.PairInOptionalPair | main/src/main/java/se/trixon/nblauncher/core/Task.java:241-259 | (k, v) is the pair addOptional adds exactly when k is its key, it emits, and v is the rendered value |
| CommandProperties.DirectoryOption | main/src/main/java/se/trixon/nblauncher/core/Task.java:84-86 | one directory option appears, with the absolute path, exactly when its flag is set, the directory is not null and the path is not blank |
| CommandProperties.DirectoryOptions | main/src/main/java/se/trixon/nblauncher/core/Task.java:84-86 | each directory option appears, with the absolute path, exactly when its flag is set, the directory is not null and its absolute path is not blank |
| CommandProperties.TypicalCommand | main/src/main/java/se/trixon/nblauncher/core/Task.java:78-110 | the whole command of a task with executable, font size, locale and activated user directory, nothing else: [P, --fontsize, F, --locale, L', --userdir, U, logger] |
| CommandProperties.ArgumentTokensAreWords | main/src/main/java/se/trixon/nblauncher/core/Task.java:90-98 | a null or blank argument text adds nothing, and every argument token is non-empty and whitespace-free |
| CommandProperties.ArgumentLinesKept | main/src/main/java/se/trixon/nblauncher/core/Task.java:91-93 | the contributing lines are exactly the split lines that are not blank and do not start with `#` |
| CommandProperties.LineTokensKeepContent | main/src/main/java/se/trixon/nblauncher/core/Task.java:94-96 | the argument tokens glued together are the kept lines with their whitespace removed, in order |
| CommandProperties.WordsAreLine | main/src/main/java/se/trixon/nblauncher/core/Task.java:95 | two words joined by a space form one line that splits back into the two words |
| CommandProperties.SpacedWordsAreLine | main/src/main/java/se/trixon/nblauncher/core/Task.java:91 | two words with a space between them hold no newline |
| CommandProperties.CommentIsLine | main/src/main/java/se/trixon/nblauncher/core/Task.java:91 | `#` followed by text without a newline is one line |
| CommandProperties.ArgumentExampleLines | main/src/main/java/se/trixon/nblauncher/core/Task.java:91 | the example text splits into its three non-empty lines; the empty line vanishes |
| CommandProperties.ArgumentExampleKept | main/src/main/java/se/trixon/nblauncher/core/Task.java:92-93 | of the three lines, the comment is the only one dropped |
| CommandProperties.ArgumentExampleParts | main/src/main/java/se/trixon/nblauncher/core/Task.java:90-98 | the argument tokens of the example text, written with single-character separators, are the three words |
| CommandProperties.ArgumentExampleTokens | main/src/main/java/se/trixon/nblauncher/core/Task.java:94-96 | the tokens of the lines "w1 w2" and "w3" are w1, w2, w3 |
| CommandProperties.ArgumentExample | main/src/main/java/se/trixon/nblauncher/core/Task.java:90-98 | for any words, "w1 w2\n#comment\n\nw3" gives exactly the tokens [w1, w2, w3] |
| CommandProperties.EnvironmentTokensFromLines | main/src/main/java/se/trixon/nblauncher/core/Task.java:100-107 | for any environment text, null-guard included, a token comes from it exactly when it is `-J-D` followed by one of its lines that does not start with `#` and contains `=` |
| CommandProperties.EnvironmentTokenHasLine | main/src/main/java/se/trixon/nblauncher/core/Task.java:100-107 | every environment token is `-J-D` followed by a split line that is not a comment and holds `=` |
| CommandProperties.BlankEnvironmentHasNoAssignment | main/src/main/java/se/trixon/nblauncher/core/Task.java:100-103 | a blank environment text has no line holding `=`, so the `isNotBlank` guard drops nothing the filters would keep |
| CommandProperties.EnvironmentLineHasToken | main/src/main/java/se/trixon/nblauncher/core/Task.java:100-107 | for any text, every split line that is not a comment and holds `=` gives its `-J-D` token |
| CommandProperties.EnvironmentExampleLines | main/src/main/java/se/trixon/nblauncher/core/Task.java:101 | the example text splits into its three lines |
| CommandProperties.EnvironmentExampleKept | main/src/main/java/se/trixon/nblauncher/core/Task.java:102-103 | of the three lines, only the uncommented assignment is kept |
| CommandProperties.EnvironmentExample | main/src/main/java/se/trixon/nblauncher/core/Task.java:100-107 | "A=1\n#B=2\nC" gives exactly the one token `-J-DA=1`, and the same for any such three lines |
| CommandProperties.CommandStringSplits | main/src/main/java/se/trixon/nblauncher/core/Task.java:112-114 | when no token holds whitespace, splitting the command string on whitespace gives the command back |
| CommandProperties.CommandStringFails | main/src/main/java/se/trixon/nblauncher/core/Task.java:112-114 | the command string fails exactly when the executable is null, with the same error |
| CommandProperties.LocaleRoundTrip | main/src/main/java/se/trixon/nblauncher/core/Task.java:213-219 | getLocale after setLocale(tag) is `und` for `und` in any case and for a blank tag, the tag itself otherwise |
| CommandProperties.LocaleStable | main/src/main/java/se/trixon/nblauncher/core/Task.java:213-219 | storing the tag read back stores the same value again, for every non-blank tag |
| CommandProperties.UndeterminedLocaleHasNoOption | main/src/main/java/se/trixon/nblauncher/core/Task.java:83 | a null or "" stored locale reads back as `und`, yet no `--locale` pair is emitted |
| Tasks.Task.constructor | main/src/main/java/se/trixon/nblauncher/core/Task.java:67-68 | a new task has every reference null, every flag false and lastRun 0; the id is given |
| Tasks.Task.SetArg | main/src/main/java/se/trixon/nblauncher/core/Task.java:169-171 | sets the argument text and changes no other field |
| Tasks.Task.SetCacheDir | main/src/main/java/se/trixon/nblauncher/core/Task.java:173-175 | sets the cache directory and changes no other field |
| Tasks.Task.SetCacheDirActivated | main/src/main/java/se/trixon/nblauncher/core/Task.java:177-179 | sets the cache directory flag and changes no other field |
| Tasks.Task.SetConsoleLogger | main/src/main/java/se/trixon/nblauncher/core/Task.java:181-183 | sets the logger flag and changes no other field |
| Tasks.Task.SetEnv | main/src/main/java/se/trixon/nblauncher/core/Task.java:185-187 | sets the environment text and changes no other field |
| Tasks.Task.SetExecPath | main/src/main/java/se/trixon/nblauncher/core/Task.java:189-191 | sets the executable and changes no other field |
| Tasks.Task.SetFontSize | main/src/main/java/se/trixon/nblauncher/core/Task.java:193-195 | sets the font size and changes no other field |
| Tasks.Task.SetId | main/src/main/java/se/trixon/nblauncher/core/Task.java:197-199 | sets the id and changes no other field |
| Tasks.Task.SetJavaDir | main/src/main/java/se/trixon/nblauncher/core/Task.java:201-203 | sets the Java directory and changes no other field |
| Tasks.Task.SetJavaDirActivated | main/src/main/java/se/trixon/nblauncher/core/Task.java:205-207 | sets the Java directory flag and changes no other field |
| Tasks.Task.SetLastRun | main/src/main/java/se/trixon/nblauncher/core/Task.java:209-211 | sets the last run time (a 64-bit long) and changes no other field |
| Tasks.Task.SetName | main/src/main/java/se/trixon/nblauncher/core/Task.java:221-223 | sets the name and changes no other field |
| Tasks.Task.SetUserDir | main/src/main/java/se/trixon/nblauncher/core/Task.java:225-227 | sets the user directory and changes no other field |
| Tasks.Task.SetUserDirActivated | main/src/main/java/se/trixon/nblauncher/core/Task.java:229-231 | sets the user directory flag and changes no other field |
| Tasks.Task.SetLocale | main/src/main/java/se/trixon/nblauncher/core/Task.java:213-219 | stores "" for `und` in any case, the tag otherwise, nothing else changes; getLocale then returns `und` or the tag |
| Tasks.Task.GetLocale | main/src/main/java/se/trixon/nblauncher/core/Task.java:140-142 | never blank; the stored tag whenever that is not blank |
| Tasks.Task.GetCommand | main/src/main/java/se/trixon/nblauncher/core/Task.java:78-110 | the list built step by step equals Command of the task's fields, including the failure on a null executable |
| Tasks.Task.AddOptions | main/src/main/java/se/trixon/nblauncher/core/Task.java:82-86 | the five addOptional calls append exactly the flattened option pairs of the task's fields |
| Tasks.Task.GetCommandAsString | main/src/main/java/se/trixon/nblauncher/core/Task.java:112-114 | the tokens of getCommand joined by single spaces, and the same failure |
| Tasks.AddOptional | main/src/main/java/se/trixon/nblauncher/core/Task.java:241-259 | appends key and rendered value exactly when the value is not null, the condition holds and the rendered value is not blank; otherwise the list is unchanged |
| Tasks.AddOptionalEnvironment | main/src/main/java/se/trixon/nblauncher/core/Task.java:261-265 | appends `-J-D` + keyVal when the flag holds, nothing otherwise |
| Tasks.AddArguments | main/src/main/java/se/trixon/nblauncher/core/Task.java:90-98 | nothing for a null or blank text, otherwise the tokens of the kept lines: exactly ArgumentTokens |
| Tasks.AddLineTokens | main/src/main/java/se/trixon/nblauncher/core/Task.java:94-96 | the forEachOrdered loop appends each line's words in order: exactly LineTokens of the lines |
| Tasks.AddProperties | main/src/main/java/se/trixon/nblauncher/core/Task.java:104-106 | the forEachOrdered loop appends one `-J-D` token per line in order: exactly LineProperties of the lines |
| Tasks.AddEnvironment | main/src/main/java/se/trixon/nblauncher/core/Task.java:100-107 | nothing for a null or blank text, otherwise one property per kept line: exactly EnvironmentTokens |
| Tasks.AppendOptions | main/src/main/java/se/trixon/nblauncher/core/Task.java:82-86 | one more addOptional step extends the pairs appended so far |
| Tasks.FlattenAppend | main/src/main/java/se/trixon/nblauncher/core/Task.java:82-86 | the tokens of two groups of pairs are those of the first followed by those of the second |
| Executors.Admit | main/src/main/java/se/trixon/nblauncher/core/ExecutorManager.java:41-47 | afterwards the id is present and the keys are the old ones plus the id; no existing entry changes; a new id gets the new executor; the table is unchanged exactly when the id was present; at most one entry is added |
| Executors.Install | main/src/main/java/se/trixon/nblauncher/core/ExecutorManager.java:49-53 | the executor is put under the id whether or not it was present, and every other entry is kept |
| Executors.AdmitTwice | main/src/main/java/se/trixon/nblauncher/core/ExecutorManager.java:41-47 | a second request for the same id changes nothing: the first executor stays |
| Executors.AdmitIsGuardedInstall | main/src/main/java/se/trixon/nblauncher/core/ExecutorManager.java:41-53 | requestStart is start for an absent id and no change for a present one |
| Executors.IdsCons | main/src/main/java/se/trixon/nblauncher/core/ExecutorManager.java:41-47 | the ids of a request sequence are its first id plus the ids of the rest |
| Executors.Replay | main/src/main/java/se/trixon/nblauncher/core/ExecutorManager.java:41-47 | reference definition of the table after a sequence of `requestStart` calls, in order |
| Executors.ReplayKeys | main/src/main/java/se/trixon/nblauncher/core/ExecutorManager.java:28-47 | after any sequence of requests the ids are the old ones plus the requested ones |
| Executors.ReplayKeepsSlots | main/src/main/java/se/trixon/nblauncher/core/ExecutorManager.java:41-44 | no request ever replaces or removes an entry already present |
| Executors.ReplayFirstWins | main/src/main/java/se/trixon/nblauncher/core/ExecutorManager.java:41-47 | the executor left under a new id is the one of the first request for it |
| Executors.ReplayGrowth | main/src/main/java/se/trixon/nblauncher/core/ExecutorManager.java:41-53 | the table never shrinks and grows by at most one entry per request |
| Executors.Executor.constructor | main/src/main/java/se/trixon/nblauncher/core/ExecutorManager.java:50 | a new executor is bound to its task and has not run |
| Executors.Executor.Run | main/src/main/java/se/trixon/nblauncher/core/ExecutorManager.java:52 | afterwards the executor has been started |
| Executors.ExecutorManager.constructor | main/src/main/java/se/trixon/nblauncher/core/ExecutorManager.java:28 | the table starts empty, so no executor sits under two ids |
| Executors.ExecutorManager.RequestStart | main/src/main/java/se/trixon/nblauncher/core/ExecutorManager.java:41-47 | the new table is Admit of the old one: a present id leaves the table as it is, an absent id gets a fresh, running executor of the task; the id is present afterwards; no executor already in the table is run; no executor sits under two ids |
| Executors.ExecutorManager.Start | main/src/main/java/se/trixon/nblauncher/core/ExecutorManager.java:49-53 | the new table is Install of the old one with a fresh, running executor of the task, replacing any previous entry; no earlier executor is run; no executor sits under two ids |

## Left out

- The getters of `Task` are field reads. The model reads the fields of class `Task` directly.
  `getLocale` is the exception: it computes, and is `Task.GetLocale`.
- `Task.toString` and the `EditableListItem` interface are presentation only.
- The GSON serialisation names are persistence, which is not part of this model.
- The UUID that `Task()` draws for its id comes from randomness. The constructor takes the id
  as a parameter.
- `java.util.Locale` parsing and canonicalisation (`forLanguageTag`, `toLanguageTag`) are a
  foreign library. Locales are their tag strings: `SetLocale` takes the tag `toLanguageTag`
  would return, and `GetLocale` returns the tag given to `forLanguageTag`.
- `File.getAbsolutePath` is a foreign call that depends on the working directory. It is the
  parameter `abs`.
- The `default` branch of `addOptional`, for a value that is neither `String` nor
  `File`, cannot be reached from `getCommand`, so `OptionValue` has only the two cases.
- `Tasks.AddOptional` and `Tasks.AddOptionalEnvironment` take the token list and return the
  extended list. They do not mutate a shared `ArrayList`. No caller sees the list in between.
- `Executor` is not part of this model. Process spawning, output streaming and command
  compilation inside the executor are foreign. `Executor.Run` only records that it was started.
- Executor completion and release of a slot: no code shown removes an entry, so none is
  modelled.
- `NbMessage.error` on refusal is a user notification. A refusal is modelled as no state change.
- Threads: the source is single-threaded here, and concurrent `requestStart` calls are not
  modelled.
- The `getInstance` singleton and its holder class are plumbing. `ExecutorManager` has a public
  constructor.
- Null task ids: the model's ids are always strings. Java's `HashMap` would accept a null key.
- Characters: Java strings are UTF-16 code units, while Dafny's `char` is a Unicode scalar
  value. `IsWhitespace` lists the code points `Character.isWhitespace` accepts in current Java
  (U+180E is not among them).
- StringUtils.EqualsIgnoreCase folds ASCII letters only. Java also folds other letters;
  this matters only for tags, and language tags are ASCII.
- CommandProperties.CommandLayout: "exactly one logger token" is proved as a position: the one logger token
  sits at index 1 + 2·(number of options). The argument and environment texts can contain
  the same string again, so it is not unique as a value.
- CommandProperties.ArgumentExample and EnvironmentExample hold for all words and lines shaped
  like `foo bar\n# comment\n\nbaz` and `A=1\n#B=2\nC`, not only for those literal strings.
- `java.io.File` pathname normalisation is a foreign library. `File.path` is taken as already
  normalised, the string `toString()` returns.
- `ExecutorManager.getExecutors` returns the live `HashMap`. Callers can change it, and what they
  do is not modelled. The growth lemmas cover `requestStart` and `start` only.
- `setLocale(null)` throws a `NullPointerException` at `locale.toLanguageTag()`.
  `Task.SetLocale` takes a tag, not a nullable locale, so that case is not modelled.
