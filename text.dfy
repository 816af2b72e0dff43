/**
 * The JavaScript string operations the article scripts rely on, over Dafny
 * strings.  A JavaScript string is a sequence of UTF-16 code units and a Dafny
 * `string` a sequence of Unicode scalar values; every character these
 * operations test for lies in the Basic Multilingual Plane, so the two views
 * split, trim and count alike.
 */
module Text {

  /**
   * The characters `String.prototype.trim` removes and the regular-expression
   * class `\s` matches: the WhiteSpace and LineTerminator code points of
   * ECMA-262 (sections 12.2 and 12.3): tab, line feed, vertical tab, form feed,
   * carriage return, the space separators of Unicode category Zs, the line and
   * paragraph separators and the byte-order mark.
   */
  predicate IsWhitespace(c: char) {
    || c == '\t' || c == '\n' || c == '\U{000B}' || c == '\U{000C}' || c == '\r'
    || c == ' ' || c == '\U{00A0}' || c == '\U{1680}'
    || ('\U{2000}' <= c <= '\U{200A}')
    || c == '\U{2028}' || c == '\U{2029}' || c == '\U{202F}' || c == '\U{205F}'
    || c == '\U{3000}' || c == '\U{FEFF}'
  }

  /** Every character of `s` is whitespace (the empty string included). */
  predicate Blank(s: string) {
    forall k :: 0 <= k < |s| ==> IsWhitespace(s[k])
  }

  /** No character of `s` is whitespace. */
  predicate Solid(s: string) {
    forall k :: 0 <= k < |s| ==> !IsWhitespace(s[k])
  }

  // ---------------------------------------------------------------------------
  // trim

  /** `s` without its leading whitespace. */
  function TrimStart(s: string): (r: string)
    ensures |r| <= |s|
  {
    if |s| > 0 && IsWhitespace(s[0]) then TrimStart(s[1..]) else s
  }

  /** What `TrimStart` cuts off is whitespace, and it leaves the rest of `s`, starting with no whitespace. */
  lemma {:induction false} TrimStartDropsBlankPrefix(s: string)
    ensures var r := TrimStart(s);
            r == s[|s| - |r|..] && Blank(s[..|s| - |r|]) && (r == [] || !IsWhitespace(r[0]))
  {
    if |s| > 0 && IsWhitespace(s[0]) {
      TrimStartDropsBlankPrefix(s[1..]);
      var r := TrimStart(s[1..]);
      var n := |s| - |r|;
      assert s[..n] == [s[0]] + s[1..][..n - 1];
      assert s[1..][n - 1..] == s[n..];
    }
  }

  /** `s` without its trailing whitespace. */
  function TrimEnd(s: string): (r: string)
    ensures |r| <= |s|
  {
    if |s| > 0 && IsWhitespace(s[|s| - 1]) then TrimEnd(s[..|s| - 1]) else s
  }

  /** What `TrimEnd` cuts off is whitespace, and it leaves the rest of `s`, ending with no whitespace. */
  lemma {:induction false} TrimEndDropsBlankSuffix(s: string)
    ensures var r := TrimEnd(s);
            r == s[..|r|] && Blank(s[|r|..]) && (r == [] || !IsWhitespace(r[|r| - 1]))
  {
    if |s| > 0 && IsWhitespace(s[|s| - 1]) {
      TrimEndDropsBlankSuffix(s[..|s| - 1]);
      var r := TrimEnd(s[..|s| - 1]);
      assert s[|r|..] == s[..|s| - 1][|r|..] + [s[|s| - 1]];
    }
  }

  /** `String.prototype.trim`: `s` with the whitespace at both ends cut off. */
  function Trim(s: string): (r: string)
    ensures |r| <= |s|
  {
    TrimEnd(TrimStart(s))
  }

  /**
   * The trimmed text neither starts nor ends with whitespace, and it is empty
   * exactly when `s` is blank.
   */
  lemma TrimBothEnds(s: string)
    ensures var r := Trim(s);
            (r == [] || (!IsWhitespace(r[0]) && !IsWhitespace(r[|r| - 1]))) && (r == [] <==> Blank(s))
  {
    var t := TrimStart(s);
    TrimStartDropsBlankPrefix(s);
    TrimEndDropsBlankSuffix(t);
    assert t != [] ==> t[0] == s[|s| - |t|];
  }

  /** Trimming a trimmed string changes nothing. */
  lemma TrimIdempotent(s: string)
    ensures Trim(Trim(s)) == Trim(s)
  {
    var r := Trim(s);
    TrimBothEnds(s);
    assert TrimStart(r) == r;
    assert TrimEnd(r) == r;
  }

  // ---------------------------------------------------------------------------
  // words and gaps

  /**
   * The number of words of `s`: maximal runs of non-whitespace characters,
   * each counted at its last character.
   */
  function Words(s: string): nat {
    if |s| == 0 then 0
    else (if !IsWhitespace(s[0]) && (|s| == 1 || IsWhitespace(s[1])) then 1 else 0) + Words(s[1..])
  }

  /** The number of maximal runs of whitespace in `s`, counted the same way. */
  function Gaps(s: string): nat {
    if |s| == 0 then 0
    else (if IsWhitespace(s[0]) && (|s| == 1 || !IsWhitespace(s[1])) then 1 else 0) + Gaps(s[1..])
  }

  /** Cutting off leading whitespace removes exactly one gap and no word. */
  lemma {:induction false} TrimStartOneGap(s: string)
    requires |s| > 0 && IsWhitespace(s[0])
    ensures Gaps(s) == Gaps(TrimStart(s)) + 1
    ensures Words(s) == Words(TrimStart(s))
    decreases |s|
  {
    if |s| > 1 && IsWhitespace(s[1]) {
      TrimStartOneGap(s[1..]);
    }
  }

  /** In a text that ends with a word, the gaps separate the words. */
  lemma {:induction false} WordsAndGaps(s: string)
    requires |s| > 0 && !IsWhitespace(s[|s| - 1])
    ensures Words(s) == Gaps(s) + (if IsWhitespace(s[0]) then 0 else 1)
    decreases |s|
  {
    if |s| > 1 {
      assert s[1..][|s[1..]| - 1] == s[|s| - 1];
      WordsAndGaps(s[1..]);
    }
  }

  /** Appending whitespace adds no word. */
  lemma {:induction false} WordsAppendWhitespace(s: string, c: char)
    requires IsWhitespace(c)
    ensures Words(s + [c]) == Words(s)
    decreases |s|
  {
    if |s| > 0 {
      assert (s + [c])[1..] == s[1..] + [c];
      WordsAppendWhitespace(s[1..], c);
    }
  }

  /** Trimming a text removes no word from it. */
  lemma {:induction false} WordsOfTrim(s: string)
    ensures Words(Trim(s)) == Words(s)
  {
    WordsOfTrimStart(s);
    WordsOfTrimEnd(TrimStart(s));
  }

  lemma {:induction false} WordsOfTrimStart(s: string)
    ensures Words(TrimStart(s)) == Words(s)
  {
    if |s| > 0 && IsWhitespace(s[0]) {
      TrimStartOneGap(s);
    }
  }

  lemma {:induction false} WordsOfTrimEnd(s: string)
    ensures Words(TrimEnd(s)) == Words(s)
    decreases |s|
  {
    if |s| > 0 && IsWhitespace(s[|s| - 1]) {
      WordsOfTrimEnd(s[..|s| - 1]);
      assert s == s[..|s| - 1] + [s[|s| - 1]];
      WordsAppendWhitespace(s[..|s| - 1], s[|s| - 1]);
    }
  }

  /** A text made of one word followed by whitespace and more text. */
  lemma {:induction false} WordsConcat(w: string, rest: string)
    requires |w| > 0 && Solid(w)
    requires |rest| > 0 && IsWhitespace(rest[0])
    ensures Words(w + rest) == 1 + Words(rest)
    decreases |w|
  {
    if |w| == 1 {
      assert (w + rest)[1..] == rest;
    } else {
      assert (w + rest)[1..] == w[1..] + rest;
      WordsConcat(w[1..], rest);
    }
  }

  // ---------------------------------------------------------------------------
  // split(/\s+/)

  /**
   * `s.split(/\s+/)`: the pieces between the maximal runs of whitespace, with
   * an empty piece before a leading run and after a trailing one, and the
   * single piece `""` for the empty string.
   */
  function SplitWhitespace(s: string): (r: seq<string>)
    ensures |r| >= 1
    ensures forall k :: 0 <= k < |r| ==> Solid(r[k])
    decreases |s|
  {
    if |s| == 0 then [""]
    else if IsWhitespace(s[0]) then
      var rest := TrimStart(s);
      TrimStartDropsBlankPrefix(s);
      assert rest != s;
      [""] + SplitWhitespace(rest)
    else
      var t := SplitWhitespace(s[1..]);
      [[s[0]] + t[0]] + t[1..]
  }

  /** There is one piece more than there are whitespace runs. */
  lemma {:induction false} SplitWhitespaceCount(s: string)
    ensures |SplitWhitespace(s)| == Gaps(s) + 1
    decreases |s|
  {
    if |s| == 0 {
    } else if IsWhitespace(s[0]) {
      var rest := TrimStart(s);
      TrimStartDropsBlankPrefix(s);
      assert rest != s;
      SplitWhitespaceCount(rest);
      TrimStartOneGap(s);
    } else {
      SplitWhitespaceCount(s[1..]);
    }
  }

  /**
   * The JavaScript word count `s.trim().split(/\s+/).length`: the number of
   * words of `s`, except that a blank `s` still gives one (empty) piece.
   */
  lemma SplitTrimCountsWords(s: string)
    ensures |SplitWhitespace(Trim(s))| == if Blank(s) then 1 else Words(s)
  {
    var t := Trim(s);
    TrimBothEnds(s);
    SplitWhitespaceCount(t);
    WordsOfTrim(s);
    if !Blank(s) {
      WordsAndGaps(t);
    }
  }

  // ---------------------------------------------------------------------------
  // split(c), join, replace

  /**
   * `s.split(sep)` for a one-character separator: the pieces between the
   * occurrences of `sep`, empty pieces included.
   */
  function Split(s: string, sep: char): (r: seq<string>)
    ensures |r| >= 1
  {
    if |s| == 0 then [""]
    else if s[0] == sep then [""] + Split(s[1..], sep)
    else
      var t := Split(s[1..], sep);
      [[s[0]] + t[0]] + t[1..]
  }

  /** `parts.join(sep)`. */
  function Join(parts: seq<string>, sep: string): string {
    if |parts| == 0 then ""
    else if |parts| == 1 then parts[0]
    else parts[0] + sep + Join(parts[1..], sep)
  }

  /** The number of occurrences of `c` in `s`. */
  function Count(s: string, c: char): nat {
    if |s| == 0 then 0 else (if s[0] == c then 1 else 0) + Count(s[1..], c)
  }

  /** `s.replace(/c/g, rep)`: every occurrence of `c` replaced by `rep`. */
  function ReplaceAll(s: string, c: char, rep: string): (r: string)
    ensures c !in rep ==> c !in r
    ensures c !in s ==> r == s
  {
    if |s| == 0 then "" else (if s[0] == c then rep else [s[0]]) + ReplaceAll(s[1..], c, rep)
  }

  /** No piece of a split holds the separator. */
  lemma {:induction false} SplitPiecesLackSeparator(s: string, sep: char)
    ensures forall k :: 0 <= k < |Split(s, sep)| ==> sep !in Split(s, sep)[k]
  {
    if |s| > 0 {
      SplitPiecesLackSeparator(s[1..], sep);
    }
  }

  /** Splitting on `sep` yields one piece more than there are separators. */
  lemma {:induction false} SplitCount(s: string, sep: char)
    ensures |Split(s, sep)| == Count(s, sep) + 1
  {
    if |s| > 0 {
      SplitCount(s[1..], sep);
    }
  }

  lemma JoinExtendFirst(c: char, t: seq<string>, sep: string)
    requires |t| >= 1
    ensures Join([[c] + t[0]] + t[1..], sep) == [c] + Join(t, sep)
  {
    var r := [[c] + t[0]] + t[1..];
    assert r[1..] == t[1..];
  }

  /** Replacing every `sep` by `rep` is joining the pieces of the split with `rep`. */
  lemma {:induction false} ReplaceAllIsJoinOfSplit(s: string, sep: char, rep: string)
    ensures ReplaceAll(s, sep, rep) == Join(Split(s, sep), rep)
  {
    if |s| > 0 {
      ReplaceAllIsJoinOfSplit(s[1..], sep, rep);
      var t := Split(s[1..], sep);
      if s[0] == sep {
        assert ([""] + t)[1..] == t;
      } else {
        JoinExtendFirst(s[0], t, rep);
      }
    }
  }

  /** Joining the pieces of a split with the separator gives the string back. */
  lemma {:induction false} JoinSplit(s: string, sep: char)
    ensures Join(Split(s, sep), [sep]) == s
  {
    if |s| > 0 {
      JoinSplit(s[1..], sep);
      var t := Split(s[1..], sep);
      if s[0] == sep {
        assert ([""] + t)[1..] == t;
      } else {
        JoinExtendFirst(s[0], t, [sep]);
      }
    }
  }

  lemma SplitOfSeparatorFirst(s: string, sep: char)
    ensures Split([sep] + s, sep) == [""] + Split(s, sep)
  {
    assert ([sep] + s)[1..] == s;
  }

  lemma SplitOfOtherFirst(c: char, s: string, sep: char)
    requires c != sep
    ensures Split([c] + s, sep) == [[c] + Split(s, sep)[0]] + Split(s, sep)[1..]
  {
    assert ([c] + s)[1..] == s;
  }

  /** Splitting at one separator and then on: the pieces of both sides. */
  lemma {:induction false} SplitAround(a: string, sep: char, b: string)
    requires sep !in a
    ensures Split(a + [sep] + b, sep) == Split(a, sep) + Split(b, sep)
    decreases |a|
  {
    if |a| == 0 {
      assert a + [sep] + b == [sep] + b;
      SplitOfSeparatorFirst(b, sep);
    } else {
      var tail := a[1..] + [sep] + b;
      assert a + [sep] + b == [a[0]] + tail;
      assert a == [a[0]] + a[1..];
      SplitAround(a[1..], sep, b);
      SplitOfOtherFirst(a[0], tail, sep);
      SplitOfOtherFirst(a[0], a[1..], sep);
      var front, back := Split(a[1..], sep), Split(b, sep);
      assert (front + back)[0] == front[0];
      ReplaceHeadOfAppend(front, back, [a[0]] + front[0]);
    }
  }

  lemma ReplaceHeadOfAppend<T>(front: seq<T>, back: seq<T>, h: T)
    requires |front| >= 1
    ensures [h] + (front + back)[1..] == [h] + front[1..] + back
  {
    assert (front + back)[1..] == front[1..] + back;
  }

  // ---------------------------------------------------------------------------
  // toLowerCase, includes, endsWith

  /** A capital with a one-character lower-case form: ASCII A-Z and the Latin-1 capitals. */
  predicate IsUpper(c: char) {
    ('A' <= c <= 'Z') || ('\U{00C0}' <= c <= '\U{00DE}' && c != '\U{00D7}')
  }

  /** The lower-case form of `c` under `String.prototype.toLowerCase`, for the capitals above. */
  function LowerChar(c: char): (d: char)
    ensures !IsUpper(d)
    ensures IsUpper(c) ==> d as int == c as int + 32
    ensures !IsUpper(c) ==> d == c
  {
    if IsUpper(c) then (c as int + 32) as char else c
  }

  /** `s.toLowerCase()`. */
  function ToLower(s: string): (r: string)
    ensures |r| == |s|
    ensures forall k :: 0 <= k < |s| ==> r[k] == LowerChar(s[k])
  {
    seq(|s|, k requires 0 <= k < |s| => LowerChar(s[k]))
  }

  /** Lower-casing twice is lower-casing once. */
  lemma ToLowerIdempotent(s: string)
    ensures ToLower(ToLower(s)) == ToLower(s)
  {
  }

  predicate StartsWith(s: string, prefix: string) {
    |prefix| <= |s| && s[..|prefix|] == prefix
  }

  /** `s.endsWith(suffix)`. */
  predicate EndsWith(s: string, suffix: string) {
    |suffix| <= |s| && s[|s| - |suffix|..] == suffix
  }

  /** `part` occurs in `s` starting at position `i`. */
  predicate OccursAt(s: string, part: string, i: int) {
    0 <= i <= |s| - |part| && s[i..i + |part|] == part
  }

  /** `s.includes(part)`: `part` occurs in `s` at some position. */
  function Includes(s: string, part: string): (b: bool)
    ensures b <==> exists i :: OccursAt(s, part, i)
    decreases |s|
  {
    if StartsWith(s, part) then
      assert OccursAt(s, part, 0);
      true
    else if |s| <= |part| then
      assert forall i :: OccursAt(s, part, i) ==> i == 0;
      false
    else
      var b := Includes(s[1..], part);
      assert forall i :: OccursAt(s[1..], part, i) <==> OccursAt(s, part, i + 1) by {
        forall i ensures OccursAt(s[1..], part, i) <==> OccursAt(s, part, i + 1) {
          if 0 <= i <= |s| - 1 - |part| {
            assert s[1..][i..i + |part|] == s[i + 1..i + 1 + |part|];
          }
        }
      }
      assert forall i :: OccursAt(s, part, i) ==> i == 0 || OccursAt(s[1..], part, i - 1);
      b
  }

  /** Whatever is placed between two strings is included in the result. */
  lemma IncludesMiddle(front: string, part: string, back: string)
    ensures Includes(front + part + back, part)
  {
    var s := front + part + back;
    assert s[|front|..|front| + |part|] == part;
    assert OccursAt(s, part, |front|);
  }
}
