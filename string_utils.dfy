/**
 * The parts of Apache commons-lang3 `StringUtils` (and of `java.lang.String.join` and
 * `java.lang.Character.isWhitespace`) that the command builder relies on, as pure functions.
 * A Java `String` that may be `null` is an `Option<string>`.
 */
module StringUtils {
  import opened Wrappers
  import opened Sequences

  /** `Character.isWhitespace`: the space separators except the no-break ones, and the
      control characters TAB, LF, VT, FF, CR and FS, GS, RS, US. */
  predicate IsWhitespace(c: char)
  {
    ('\t' <= c <= '\r') || ('\U{1C}' <= c <= '\U{1F}') || c == ' ' || c == '\U{1680}'
    || ('\U{2000}' <= c <= '\U{2006}') || ('\U{2008}' <= c <= '\U{200A}')
    || c == '\U{2028}' || c == '\U{2029}' || c == '\U{205F}' || c == '\U{3000}'
  }

  /** Empty, or made of whitespace only. */
  predicate Blank(s: string)
  {
    forall i | 0 <= i < |s| :: IsWhitespace(s[i])
  }

  /** `StringUtils.isNotBlank`: not null, not empty and not whitespace only. */
  predicate IsNotBlank(cs: Option<string>)
  {
    cs.Some? && !Blank(cs.value)
  }

  /** `StringUtils.defaultIfBlank`. */
  function DefaultIfBlank(cs: Option<string>, default: string): (r: string)
    ensures r == default || (cs.Some? && r == cs.value)
    ensures IsNotBlank(cs) ==> r == cs.value
    ensures Blank(r) <==> Blank(default) && !IsNotBlank(cs)
  {
    if IsNotBlank(cs) then cs.value else default
  }

  /** Applying the default a second time changes nothing. */
  lemma DefaultIfBlankIdempotent(cs: Option<string>, default: string)
    ensures DefaultIfBlank(Some(DefaultIfBlank(cs, default)), default) == DefaultIfBlank(cs, default)
  {
  }

  /** `StringUtils.startsWith` on two non-null strings. */
  predicate StartsWith(s: string, prefix: string)
  {
    |prefix| <= |s| && s[..|prefix|] == prefix
  }

  /** `t` occurs in `s` starting at index `i`. */
  predicate OccursAt(s: string, t: string, i: nat)
  {
    i + |t| <= |s| && s[i..i + |t|] == t
  }

  lemma OccursAtTail(s: string, t: string, i: nat)
    requires |s| > 0
    ensures OccursAt(s[1..], t, i) <==> OccursAt(s, t, i + 1)
  {
    if i + 1 + |t| <= |s| {
      assert s[1..][i..i + |t|] == s[i + 1..i + 1 + |t|];
    }
  }

  /** `String.indexOf` from index 0: the first index at which `t` occurs in `s`, or -1. */
  function IndexOf(s: string, t: string): (r: int)
    ensures r == -1 || (0 <= r && OccursAt(s, t, r))
    ensures forall i: nat | i < r || r == -1 :: !OccursAt(s, t, i)
    decreases |s|
  {
    if |t| > |s| then -1
    else if s[..|t|] == t then 0
    else
      var k := IndexOf(s[1..], t);
      assert forall i: nat | (i < k + 1 || k == -1) :: !OccursAt(s, t, i) by {
        forall i: nat | i < k + 1 || k == -1 ensures !OccursAt(s, t, i) {
          if i > 0 {
            OccursAtTail(s, t, i - 1);
          }
        }
      }
      if k < 0 then -1 else OccursAtTail(s, t, k); k + 1
  }

  /** `StringUtils.contains` on two non-null strings. */
  predicate Contains(s: string, t: string): (r: bool)
    ensures r <==> exists i: nat :: OccursAt(s, t, i)
  {
    IndexOf(s, t) >= 0
  }

  /** `StringUtils.replace(text, search, replacement)` on non-null `text`: every occurrence of
      `search`, scanning from the left and without overlap, becomes `replacement`. */
  function Replace(text: string, search: string, replacement: string): string
  {
    if |text| == 0 || |search| == 0 then text else ReplaceEach(text, search, replacement)
  }

  function ReplaceEach(text: string, search: string, replacement: string): string
    requires |search| > 0
    decreases |text|
  {
    if |text| < |search| then text
    else if text[..|search|] == search then replacement + ReplaceEach(text[|search|..], search, replacement)
    else [text[0]] + ReplaceEach(text[1..], search, replacement)
  }

  /** The character map a one-character search and replacement amount to. */
  function SwapChar(c: char, from: char, to: char): char
  {
    if c == from then to else c
  }

  lemma {:induction false} ReplaceEachChar(text: string, from: char, to: char)
    ensures |ReplaceEach(text, [from], [to])| == |text|
    ensures forall i | 0 <= i < |text| :: ReplaceEach(text, [from], [to])[i] == SwapChar(text[i], from, to)
    decreases |text|
  {
    if |text| > 0 {
      ReplaceEachChar(text[1..], from, to);
      var rest := ReplaceEach(text[1..], [from], [to]);
      var head := if text[0] == from then [to] else [text[0]];
      assert ReplaceEach(text, [from], [to]) == head + rest;
    }
  }

  /** Replacing one character by another is the character map `SwapChar`: same length,
      every `from` becomes `to` and every other character stays where it is. */
  lemma ReplaceChar(text: string, from: char, to: char)
    ensures |Replace(text, [from], [to])| == |text|
    ensures forall i | 0 <= i < |text| :: Replace(text, [from], [to])[i] == SwapChar(text[i], from, to)
  {
    if |text| > 0 {
      ReplaceEachChar(text, from, to);
    }
  }

  /** `StringUtils.replace` when `text` may be null: null stays null. */
  function ReplaceNullable(text: Option<string>, search: string, replacement: string): (r: Option<string>)
    ensures r.Some? <==> text.Some?
  {
    match text
    case None => None
    case Some(s) => Some(Replace(s, search, replacement))
  }

  /** The separator argument of `StringUtils.split`: a string of separator characters, or
      `null`, which means whitespace. */
  datatype Separators = Chars(chars: string) | Whitespace

  predicate IsSeparator(sep: Separators, c: char)
  {
    match sep
    case Chars(cs) => c in cs
    case Whitespace => IsWhitespace(c)
  }

  /** What `split` can return as one piece: not empty and free of separators. */
  predicate IsToken(t: string, sep: Separators)
  {
    |t| > 0 && forall i | 0 <= i < |t| :: !IsSeparator(sep, t[i])
  }

  /** The length of the run of non-separators that `s` starts with. */
  function TokenLength(s: string, sep: Separators): (n: nat)
    ensures n <= |s|
    ensures forall i | 0 <= i < n :: !IsSeparator(sep, s[i])
    ensures n < |s| ==> IsSeparator(sep, s[n])
  {
    if |s| == 0 || IsSeparator(sep, s[0]) then 0 else 1 + TokenLength(s[1..], sep)
  }

  /** `StringUtils.split(s, separatorChars)` on non-null `s`: the maximal runs of
      non-separators, in order; adjacent separators count as one and no piece is empty. */
  function Split(s: string, sep: Separators): (r: seq<string>)
    ensures forall k | 0 <= k < |r| :: IsToken(r[k], sep)
    decreases |s|
  {
    if |s| == 0 then []
    else if IsSeparator(sep, s[0]) then Split(s[1..], sep)
    else
      var n := TokenLength(s, sep);
      [s[..n]] + Split(s[n..], sep)
  }

  /** The characters of `s` that are not separators, in order. */
  function Strip(s: string, sep: Separators): (r: string)
  {
    if |s| == 0 then []
    else (if IsSeparator(sep, s[0]) then [] else [s[0]]) + Strip(s[1..], sep)
  }

  lemma {:induction false} StripAppend(a: string, b: string, sep: Separators)
    ensures Strip(a + b, sep) == Strip(a, sep) + Strip(b, sep)
  {
    if |a| == 0 {
      assert a + b == b;
    } else {
      assert (a + b)[1..] == a[1..] + b;
      StripAppend(a[1..], b, sep);
    }
  }

  lemma {:induction false} StripToken(t: string, sep: Separators)
    requires forall i | 0 <= i < |t| :: !IsSeparator(sep, t[i])
    ensures Strip(t, sep) == t
  {
    if |t| > 0 {
      StripToken(t[1..], sep);
    }
  }

  /** Splitting loses exactly the separators: the pieces glued back together are the
      input with its separators taken out. */
  lemma {:induction false} SplitKeepsContent(s: string, sep: Separators)
    ensures Concat(Split(s, sep)) == Strip(s, sep)
    decreases |s|
  {
    if |s| == 0 {
    } else if IsSeparator(sep, s[0]) {
      SplitKeepsContent(s[1..], sep);
    } else {
      var n := TokenLength(s, sep);
      var rest := Split(s[n..], sep);
      assert Split(s, sep) == [s[..n]] + rest;
      assert ([s[..n]] + rest)[1..] == rest;
      SplitKeepsContent(s[n..], sep);
      assert s == s[..n] + s[n..];
      StripAppend(s[..n], s[n..], sep);
      StripToken(s[..n], sep);
    }
  }

  /** Every character of every piece is a character of the input. */
  lemma {:induction false} SplitPieceChars(s: string, sep: Separators, k: nat, i: nat)
    requires k < |Split(s, sep)| && i < |Split(s, sep)[k]|
    ensures Split(s, sep)[k][i] in s
    decreases |s|
  {
    if IsSeparator(sep, s[0]) {
      SplitPieceChars(s[1..], sep, k, i);
      var j :| 0 <= j < |s[1..]| && s[1..][j] == Split(s, sep)[k][i];
      assert s[j + 1] == s[1..][j];
    } else {
      var n := TokenLength(s, sep);
      if k == 0 {
        assert Split(s, sep)[0] == s[..n];
        assert s[..n][i] == s[i];
      } else {
        assert Split(s, sep)[k] == Split(s[n..], sep)[k - 1];
        SplitPieceChars(s[n..], sep, k - 1, i);
      }
    }
  }

  /** `String.join(delimiter, parts)`. */
  function Join(parts: seq<string>, delimiter: string): (r: string)
  {
    if |parts| == 0 then ""
    else if |parts| == 1 then parts[0]
    else parts[0] + delimiter + Join(parts[1..], delimiter)
  }

  lemma {:induction false} TokenLengthOfToken(t: string, rest: string, sep: Separators)
    requires IsToken(t, sep)
    requires |rest| == 0 || IsSeparator(sep, rest[0])
    ensures TokenLength(t + rest, sep) == |t|
  {
    assert (t + rest)[0] == t[0];
    assert (t + rest)[1..] == t[1..] + rest;
    if |t| > 1 {
      TokenLengthOfToken(t[1..], rest, sep);
    } else {
      assert t[1..] + rest == rest;
    }
  }

  lemma SplitLeadingToken(t: string, rest: string, sep: Separators)
    requires IsToken(t, sep)
    requires |rest| == 0 || IsSeparator(sep, rest[0])
    ensures Split(t + rest, sep) == [t] + Split(rest, sep)
  {
    TokenLengthOfToken(t, rest, sep);
    var s := t + rest;
    assert s[0] == t[0];
    assert s[..|t|] == t && s[|t|..] == rest;
  }

  lemma SplitSkipsSeparator(c: char, rest: string, sep: Separators)
    requires IsSeparator(sep, c)
    ensures Split([c] + rest, sep) == Split(rest, sep)
  {
    assert ([c] + rest)[1..] == rest;
  }

  /** A token followed by a separator: the token is the first piece. */
  lemma SplitTokenThenSeparator(t: string, c: char, rest: string, sep: Separators)
    requires IsToken(t, sep) && IsSeparator(sep, c)
    ensures Split(t + ([c] + rest), sep) == [t] + Split(rest, sep)
  {
    SplitLeadingToken(t, [c] + rest, sep);
    SplitSkipsSeparator(c, rest, sep);
  }

  lemma SplitOneToken(t: string, sep: Separators)
    requires IsToken(t, sep)
    ensures Split(t, sep) == [t]
  {
    SplitLeadingToken(t, "", sep);
    assert t + "" == t;
  }

  /** Splitting undoes joining with a separator character, as long as every part is a
      token: non-empty and free of separators. */
  lemma {:induction false} SplitJoin(parts: seq<string>, c: char, sep: Separators)
    requires IsSeparator(sep, c)
    requires forall k | 0 <= k < |parts| :: IsToken(parts[k], sep)
    ensures Split(Join(parts, [c]), sep) == parts
  {
    if |parts| == 1 {
      SplitLeadingToken(parts[0], "", sep);
      assert parts[0] + "" == parts[0];
      assert [parts[0]] + [] == parts;
    } else if |parts| > 1 {
      var tail := Join(parts[1..], [c]);
      var rest := [c] + tail;
      assert Join(parts, [c]) == parts[0] + rest;
      SplitLeadingToken(parts[0], rest, sep);
      assert rest[1..] == tail;
      SplitJoin(parts[1..], c, sep);
      assert [parts[0]] + parts[1..] == parts;
    }
  }

  /** An ASCII letter folded to lower case; every other character unchanged. */
  function ToLowerAscii(c: char): char
  {
    if 'A' <= c <= 'Z' then (c as int + 32) as char else c
  }

  /** `StringUtils.equalsIgnoreCase` on two non-null strings, folding ASCII letters. */
  predicate EqualsIgnoreCase(a: string, b: string)
  {
    |a| == |b| && forall i | 0 <= i < |a| :: ToLowerAscii(a[i]) == ToLowerAscii(b[i])
  }

  /** Comparing without case is an equivalence: reflexive, symmetric and transitive. */
  lemma EqualsIgnoreCaseEquivalence(a: string, b: string, c: string)
    ensures EqualsIgnoreCase(a, a)
    ensures EqualsIgnoreCase(a, b) ==> EqualsIgnoreCase(b, a)
    ensures EqualsIgnoreCase(a, b) && EqualsIgnoreCase(b, c) ==> EqualsIgnoreCase(a, c)
  {
  }
}
