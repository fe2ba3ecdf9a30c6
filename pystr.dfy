/**
 * The Python `str` operations the web service and the batch script rely on,
 * over strings as sequences of Unicode code points.
 */
module PyStr {

  /** `str.isspace()` of one character: the whitespace `strip()` and `split()` remove. */
  predicate IsSpace(c: char) {
    || ('\t' <= c <= '\r')
    || ('\U{1C}' <= c <= ' ')
    || c == '\U{85}' || c == '\U{A0}' || c == '\U{1680}'
    || ('\U{2000}' <= c <= '\U{200A}')
    || c == '\U{2028}' || c == '\U{2029}' || c == '\U{202F}' || c == '\U{205F}' || c == '\U{3000}'
  }

  /** `str.lower()` of one character, for the ASCII letters; every other character is kept. */
  function LowerChar(c: char): char {
    if 'A' <= c <= 'Z' then (c as int - 'A' as int + 'a' as int) as char else c
  }

  /** `str.lower()`, character by character. */
  function Lower(s: string): string {
    seq(|s|, i requires 0 <= i < |s| => LowerChar(s[i]))
  }

  /** `s.endswith(suffix)`. */
  predicate EndsWith(s: string, suffix: string) {
    |suffix| <= |s| && s[|s| - |suffix|..] == suffix
  }

  /** `str.lstrip()`: what is left after the leading whitespace. */
  function StripLeft(s: string): (r: string)
    ensures |r| <= |s| && r == s[|s| - |r|..]
  {
    if s != [] && IsSpace(s[0]) then StripLeft(s[1..]) else s
  }

  /** `lstrip()` removes exactly the leading whitespace: all of what it drops, and not the next character. */
  lemma {:induction false} StripLeftDropsSpace(s: string)
    ensures var r := StripLeft(s);
      && (r != [] ==> !IsSpace(r[0]))
      && forall i :: 0 <= i < |s| - |r| ==> IsSpace(s[i])
  {
    if s != [] && IsSpace(s[0]) {
      var t := s[1..];
      StripLeftDropsSpace(t);
      assert StripLeft(s) == StripLeft(t);
      forall i | 1 <= i < |s| - |StripLeft(t)|
        ensures IsSpace(s[i])
      {
        assert s[i] == t[i - 1];
      }
    }
  }

  /** `str.rstrip()`: what is left before the trailing whitespace. */
  function StripRight(s: string): (r: string)
    ensures |r| <= |s| && r == s[..|r|]
  {
    if s != [] && IsSpace(s[|s| - 1]) then StripRight(s[..|s| - 1]) else s
  }

  /** `rstrip()` removes exactly the trailing whitespace: all of what it drops, and not the character before. */
  lemma {:induction false} StripRightDropsSpace(s: string)
    ensures var r := StripRight(s);
      && (r != [] ==> !IsSpace(r[|r| - 1]))
      && forall i :: |r| <= i < |s| ==> IsSpace(s[i])
  {
    if s != [] && IsSpace(s[|s| - 1]) {
      var t := s[..|s| - 1];
      StripRightDropsSpace(t);
      assert StripRight(s) == StripRight(t);
    }
  }

  /** `str.strip()`: `rstrip()` after `lstrip()`. */
  function Strip(s: string): (r: string)
    ensures |r| <= |s|
  {
    StripRight(StripLeft(s))
  }

  /** Neither end of `strip()`'s result is whitespace. */
  lemma StripEnds(s: string)
    ensures var r := Strip(s); r != [] ==> !IsSpace(r[0]) && !IsSpace(r[|r| - 1])
  {
    var t := StripLeft(s);
    StripLeftDropsSpace(s);
    StripRightDropsSpace(t);
  }

  /** A string strips to nothing exactly when every character of it is whitespace. */
  lemma {:induction false} StripEmptyIffAllSpace(s: string)
    ensures Strip(s) == [] <==> forall i :: 0 <= i < |s| ==> IsSpace(s[i])
  {
    var t := StripLeft(s);
    StripLeftDropsSpace(s);
    StripRightDropsSpace(t);
    if Strip(s) == [] {
      assert t == [];
    } else {
      assert t != [] && t[0] == s[|s| - |t|];
      assert !IsSpace(s[|s| - |t|]);
    }
  }

  /** Length of the run of non-whitespace characters that starts `s`. */
  function TokenLength(s: string): (k: nat)
    ensures k <= |s|
    ensures forall i :: 0 <= i < k ==> !IsSpace(s[i])
    ensures k < |s| ==> IsSpace(s[k])
  {
    if s == [] || IsSpace(s[0]) then 0 else 1 + TokenLength(s[1..])
  }

  /** `str.split()` without a separator: the maximal runs of non-whitespace, in order. */
  function Split(s: string): seq<string>
    decreases |s|
  {
    if s == [] then []
    else if IsSpace(s[0]) then Split(s[1..])
    else
      var k := TokenLength(s);
      [s[..k]] + Split(s[k..])
  }

  /** `len(s.split())`. */
  function WordCount(s: string): nat {
    |Split(s)|
  }

  /** `sep.join(parts)`. */
  function Join(sep: string, parts: seq<string>): string {
    if |parts| == 0 then []
    else if |parts| == 1 then parts[0]
    else Join(sep, parts[..|parts| - 1]) + sep + parts[|parts| - 1]
  }

  /** The total number of characters in `parts`. */
  function TotalLength(parts: seq<string>): nat {
    if parts == [] then 0 else TotalLength(parts[..|parts| - 1]) + |parts[|parts| - 1]|
  }

  /** The sum of the word counts of `parts`. */
  function TotalWords(parts: seq<string>): nat {
    if parts == [] then 0 else TotalWords(parts[..|parts| - 1]) + WordCount(parts[|parts| - 1])
  }

  /** Every word `split()` returns is non-empty and holds no whitespace. */
  lemma {:induction false} SplitWords(s: string)
    ensures forall w :: w in Split(s) ==> w != [] && forall i :: 0 <= i < |w| ==> !IsSpace(w[i])
    decreases |s|
  {
    if s == [] {
    } else if IsSpace(s[0]) {
      SplitWords(s[1..]);
    } else {
      SplitWords(s[TokenLength(s)..]);
    }
  }

  /** `s` with every whitespace character removed. */
  function RemoveSpace(s: string): string {
    if s == [] then [] else (if IsSpace(s[0]) then [] else [s[0]]) + RemoveSpace(s[1..])
  }

  /** The parts written one after the other: `"".join(parts)`. */
  function Concat(parts: seq<string>): string {
    if parts == [] then [] else parts[0] + Concat(parts[1..])
  }

  /**
   * `split()` keeps every character that is not whitespace, in order: its
   * words written one after the other are `s` without its whitespace.
   */
  lemma {:induction false} SplitKeepsText(s: string)
    ensures Concat(Split(s)) == RemoveSpace(s)
    decreases |s|
  {
    if s == [] {
    } else if IsSpace(s[0]) {
      SplitKeepsText(s[1..]);
    } else {
      var k := TokenLength(s);
      var w, rest := s[..k], s[k..];
      SplitKeepsText(rest);
      assert ([w] + Split(rest))[1..] == Split(rest);
      assert s == w + rest;
      RemoveSpaceAppend(w, rest);
      RemoveSpaceOfWord(w);
    }
  }

  /**
   * The number of positions of `s` where a word starts: a character that is
   * not whitespace and follows whitespace, or begins the text when
   * `afterSpace` holds.
   */
  function WordStarts(s: string, afterSpace: bool): nat {
    if s == [] then 0
    else (if afterSpace && !IsSpace(s[0]) then 1 else 0) + WordStarts(s[1..], IsSpace(s[0]))
  }

  /** `len(s.split())` is the number of positions where a word of `s` starts. */
  lemma {:induction false} WordCountIsWordStarts(s: string)
    ensures WordCount(s) == WordStarts(s, true)
    decreases |s|
  {
    if s == [] {
    } else if IsSpace(s[0]) {
      WordCountIsWordStarts(s[1..]);
    } else {
      var k := TokenLength(s);
      WordCountIsWordStarts(s[k..]);
      WordStartsInWord(s[1..], k - 1);
      assert s[1..][k - 1..] == s[k..];
      if k < |s| {
        assert s[k..][0] == s[k];
      }
    }
  }

  /** Inside a word no word starts, and after it the count goes on as from whitespace. */
  lemma {:induction false} WordStartsInWord(t: string, j: nat)
    requires j <= |t| && forall i :: 0 <= i < j ==> !IsSpace(t[i])
    requires j < |t| ==> IsSpace(t[j])
    ensures WordStarts(t, false) == WordStarts(t[j..], true)
  {
    if j > 0 {
      WordStartsInWord(t[1..], j - 1);
      assert t[1..][j - 1..] == t[j..];
    } else if t != [] {
      assert t[j..] == t;
    }
  }

  /** Removing whitespace from two texts one after the other removes it from each. */
  lemma {:induction false} RemoveSpaceAppend(a: string, b: string)
    ensures RemoveSpace(a + b) == RemoveSpace(a) + RemoveSpace(b)
  {
    if a != [] {
      assert (a + b)[0] == a[0] && (a + b)[1..] == a[1..] + b;
      RemoveSpaceAppend(a[1..], b);
    } else {
      assert a + b == b;
    }
  }

  /** A text without whitespace loses nothing. */
  lemma {:induction false} RemoveSpaceOfWord(w: string)
    requires forall i :: 0 <= i < |w| ==> !IsSpace(w[i])
    ensures RemoveSpace(w) == w
  {
    if w != [] {
      RemoveSpaceOfWord(w[1..]);
    }
  }

  /** Text appended after the end of the first word does not change its length. */
  lemma {:induction false} TokenLengthExtend(t: string, x: string)
    requires TokenLength(t) < |t| || (x != [] && IsSpace(x[0]))
    ensures TokenLength(t + x) == TokenLength(t)
  {
    if t == [] {
      assert t + x == x;
    } else if IsSpace(t[0]) {
      assert (t + x)[0] == t[0];
    } else {
      assert (t + x)[0] == t[0];
      assert (t + x)[1..] == t[1..] + x;
      TokenLengthExtend(t[1..], x);
    }
  }

  /** Splitting across one whitespace character splits each side on its own. */
  lemma {:induction false} SplitAcrossSpace(a: string, c: char, b: string)
    requires IsSpace(c)
    ensures Split(a + [c] + b) == Split(a) + Split(b)
    decreases |a|, 1
  {
    var u := a + [c] + b;
    if a == [] {
      assert u[0] == c && u[1..] == b;
    } else if IsSpace(a[0]) {
      assert u[0] == a[0];
      assert u[1..] == a[1..] + [c] + b;
      SplitAcrossSpace(a[1..], c, b);
    } else {
      SplitAcrossSpaceAfterWord(a, c, b);
    }
  }

  /** `SplitAcrossSpace` when `a` starts with a word: the word ends before `c`. */
  lemma {:induction false} SplitAcrossSpaceAfterWord(a: string, c: char, b: string)
    requires IsSpace(c) && a != [] && !IsSpace(a[0])
    ensures Split(a + [c] + b) == Split(a) + Split(b)
    decreases |a|, 0
  {
    var x := [c] + b;
    var k := TokenLength(a);
    assert a + [c] + b == a + x;
    TokenLengthExtend(a, x);
    ConcatSlices(a, x, k);
    assert a[k..] + x == a[k..] + [c] + b;
    SplitAcrossSpace(a[k..], c, b);
  }

  /** The slices of a concatenation at a point of its first part. */
  lemma ConcatSlices<T>(a: seq<T>, x: seq<T>, k: nat)
    requires k <= |a|
    ensures (a + x)[..k] == a[..k] && (a + x)[k..] == a[k..] + x
  {
  }

  /** Joining with a whitespace separator neither merges nor splits any word. */
  lemma {:induction false} WordCountOfJoin(c: char, parts: seq<string>)
    requires IsSpace(c)
    ensures WordCount(Join([c], parts)) == TotalWords(parts)
  {
    if |parts| >= 2 {
      var init := parts[..|parts| - 1];
      WordCountOfJoin(c, init);
      SplitAcrossSpace(Join([c], init), c, parts[|parts| - 1]);
    } else if |parts| == 1 {
      assert parts[..0] == [];
    }
  }

  /** The length of a join with a one-character separator: every part plus one separator between each two. */
  lemma {:induction false} JoinLength(sep: string, parts: seq<string>)
    requires |sep| == 1 && parts != []
    ensures |Join(sep, parts)| == TotalLength(parts) + |parts| - 1
  {
    if |parts| >= 2 {
      JoinLength(sep, parts[..|parts| - 1]);
    } else {
      assert parts[..0] == [];
    }
  }
}
