/**
  The Python 2 `str` operations the fixtures rely on: `in`, `startswith`,
  `endswith`, `strip()`, `split()`, `split(c)`, `c.join(...)`, `sorted(...)`
  on strings and `'%s' % n` for a non-negative integer.
 */
module PyStr {

  /** Whitespace as Python 2's byte-string `strip()` and `split()` see it. */
  predicate IsSpace(c: char) {
    c == ' ' || c == '\t' || c == '\n' || c == '\r' || c == '\U{000B}' || c == '\U{000C}'
  }

  ghost predicate AllSpace(s: string) {
    forall k | 0 <= k < |s| :: IsSpace(s[k])
  }

  ghost predicate NoSpace(s: string) {
    forall k | 0 <= k < |s| :: !IsSpace(s[k])
  }

  predicate StartsWith(s: string, prefix: string) {
    |prefix| <= |s| && s[..|prefix|] == prefix
  }

  predicate EndsWith(s: string, suffix: string) {
    |suffix| <= |s| && s[|s| - |suffix|..] == suffix
  }

  ghost predicate OccursAt(s: string, sub: string, i: int) {
    0 <= i && i + |sub| <= |s| && s[i..i + |sub|] == sub
  }

  /** `sub in s`: `sub` occurs somewhere in `s`. */
  function Contains(s: string, sub: string): (r: bool)
    ensures r <==> exists i :: OccursAt(s, sub, i)
  {
    if StartsWith(s, sub) then
      assert OccursAt(s, sub, 0);
      true
    else if s == [] then
      false
    else
      var r := Contains(s[1..], sub);
      assert !OccursAt(s, sub, 0);
      assert forall i :: OccursAt(s, sub, i) && i > 0 ==> OccursAt(s[1..], sub, i - 1);
      assert forall i :: OccursAt(s[1..], sub, i) ==> OccursAt(s, sub, i + 1);
      r
  }

  /** `s.lstrip()`: `s` without its leading whitespace. */
  function LStrip(s: string): (r: string)
    ensures |r| <= |s| && r == s[|s| - |r|..]
    ensures AllSpace(s[..|s| - |r|])
    ensures r == [] || !IsSpace(r[0])
  {
    if s != [] && IsSpace(s[0]) then
      var r := LStrip(s[1..]);
      assert s[..|s| - |r|] == [s[0]] + s[1..][..|s| - 1 - |r|];
      r
    else
      s
  }

  /** `s.rstrip()`: `s` without its trailing whitespace. */
  function RStrip(s: string): (r: string)
    ensures |r| <= |s| && r == s[..|r|]
    ensures AllSpace(s[|r|..])
    ensures r == [] || !IsSpace(r[|r| - 1])
  {
    if s != [] && IsSpace(s[|s| - 1]) then
      var r := RStrip(s[..|s| - 1]);
      assert s[|r|..] == s[..|s| - 1][|r|..] + [s[|s| - 1]];
      r
    else
      s
  }

  /** `r` is the slice of `s` left once a blank head and a blank tail are cut off. */
  ghost predicate IsTrimmed(s: string, r: string) {
    exists i, j :: 0 <= i <= j <= |s| && r == s[i..j] && AllSpace(s[..i]) && AllSpace(s[j..])
  }

  /** `s.strip()`: empty exactly when `s` is blank, otherwise a slice of `s` that neither starts nor ends with whitespace. */
  function Strip(s: string): (r: string)
    ensures r == [] <==> AllSpace(s)
    ensures r != [] ==> !IsSpace(r[0]) && !IsSpace(r[|r| - 1])
    ensures IsTrimmed(s, r)
  {
    var t := LStrip(s);
    var r := RStrip(t);
    StripSlice(s, t, r);
    assert r == [] ==> AllSpace(s) by {
      if r == [] {
        assert t[|r|..] == t;
        assert s == s[..|s| - |t|] + t;
      }
    }
    r
  }

  /** Cutting blank text off the front of `s` and then off the back leaves a slice of `s` between two blank ends. */
  lemma StripSlice(s: string, t: string, r: string)
    requires |t| <= |s| && t == s[|s| - |t|..] && AllSpace(s[..|s| - |t|])
    requires |r| <= |t| && r == t[..|r|] && AllSpace(t[|r|..])
    ensures IsTrimmed(s, r)
  {
    var i := |s| - |t|;
    var j := i + |r|;
    assert r == s[i..j];
    assert s[j..] == t[|r|..];
  }

  /** Length of the run of non-whitespace characters that starts `s`. */
  function WordLength(s: string): (n: nat)
    ensures n <= |s| && NoSpace(s[..n])
    ensures n < |s| ==> IsSpace(s[n])
  {
    if s == [] || IsSpace(s[0]) then 0 else 1 + WordLength(s[1..])
  }

  /** Non-empty words without whitespace: what `s.split()` returns. */
  ghost predicate AreWords(words: seq<string>) {
    forall k | 0 <= k < |words| :: words[k] != [] && NoSpace(words[k])
  }

  /** `s.split()` without a separator: the maximal runs of non-whitespace characters of `s`, in order. */
  function Split(s: string): (r: seq<string>)
    ensures AreWords(r)
    decreases |s|
  {
    var t := LStrip(s);
    if t == [] then
      []
    else
      var n := WordLength(t);
      var rest := Split(t[n..]);
      WordsCons(t[..n], rest);
      [t[..n]] + rest
  }

  lemma WordsCons(w: string, rest: seq<string>)
    requires w != [] && NoSpace(w) && AreWords(rest)
    ensures AreWords([w] + rest)
  {
    assert forall k | 1 <= k < |rest| + 1 :: ([w] + rest)[k] == rest[k - 1];
  }

  /** `s.split()` is empty exactly when `s` is blank. */
  lemma SplitBlank(s: string)
    ensures Split(s) == [] <==> AllSpace(s)
  {
    if LStrip(s) == [] { LStripBlank(s); } else { LStripNotBlank(s); }
  }

  lemma LStripBlank(s: string)
    requires LStrip(s) == []
    ensures AllSpace(s)
  {
    assert s[..|s|] == s;
  }

  lemma LStripNotBlank(s: string)
    requires LStrip(s) != []
    ensures !AllSpace(s)
  {
    var t := LStrip(s);
    assert s[|s| - |t|] == t[0];
  }

  /** `[sep].join(parts)` for a one-character separator. */
  function JoinWith(parts: seq<string>, sep: char): string {
    if parts == [] then []
    else if |parts| == 1 then parts[0]
    else parts[0] + [sep] + JoinWith(parts[1..], sep)
  }

  /** `s.split(sep)` for a one-character separator. */
  function SplitOn(s: string, sep: char): (r: seq<string>)
    ensures |r| >= 1
    ensures forall k | 0 <= k < |r| :: sep !in r[k]
  {
    if s == [] then [[]]
    else
      var rest := SplitOn(s[1..], sep);
      if s[0] == sep then [[]] + rest else [[s[0]] + rest[0]] + rest[1..]
  }

  /** Joining the pieces of `s.split(sep)` with `sep` gives back `s`. */
  lemma {:induction false} JoinSplit(s: string, sep: char)
    ensures JoinWith(SplitOn(s, sep), sep) == s
  {
    if s != [] {
      var rest := SplitOn(s[1..], sep);
      JoinSplit(s[1..], sep);
      if s[0] != sep && |rest| > 1 {
        assert JoinWith(rest, sep) == rest[0] + [sep] + JoinWith(rest[1..], sep);
      }
    }
  }

  /** Splitting at a separator splits the two sides independently. */
  lemma {:induction false} SplitOnAppend(a: string, b: string, sep: char)
    ensures SplitOn(a + [sep] + b, sep) == SplitOn(a, sep) + SplitOn(b, sep)
  {
    if a == [] {
      assert a + [sep] + b == [sep] + b;
      assert ([sep] + b)[1..] == b;
    } else {
      assert (a + [sep] + b)[1..] == a[1..] + [sep] + b;
      SplitOnAppend(a[1..], b, sep);
    }
  }

  /** A string without the separator does not split. */
  lemma {:induction false} SplitOnNoSeparator(s: string, sep: char)
    requires sep !in s
    ensures SplitOn(s, sep) == [s]
  {
    if s != [] {
      assert s[0] in s && s[0] != sep;
      assert forall c | c in s[1..] :: c in s;
      SplitOnNoSeparator(s[1..], sep);
      assert s == [s[0]] + s[1..];
    }
  }

  /** `s.split(sep)` undoes `sep.join(parts)` when no part holds the separator. */
  lemma {:induction false} SplitJoin(parts: seq<string>, sep: char)
    requires |parts| >= 1
    requires forall k | 0 <= k < |parts| :: sep !in parts[k]
    ensures SplitOn(JoinWith(parts, sep), sep) == parts
  {
    SplitOnNoSeparator(parts[0], sep);
    if |parts| > 1 {
      SplitJoin(parts[1..], sep);
      SplitOnAppend(parts[0], JoinWith(parts[1..], sep), sep);
    }
  }

  /** Leading whitespace does not change `s.split()`. */
  lemma {:induction false} SplitAfterSpace(c: char, s: string)
    requires IsSpace(c)
    ensures Split([c] + s) == Split(s)
  {
    assert ([c] + s)[1..] == s;
  }

  /** `' '.join(words).split() == words` for non-empty words without whitespace. */
  lemma {:induction false} SplitJoinWords(words: seq<string>)
    requires AreWords(words)
    ensures Split(JoinWith(words, ' ')) == words
  {
    if |words| == 1 {
      SplitOneWord(words);
    } else if |words| > 1 {
      AreWordsTail(words);
      SplitJoinWords(words[1..]);
      SplitMoreWords(words);
      HeadTail(words);
    }
  }

  lemma HeadTail(words: seq<string>)
    requires words != []
    ensures [words[0]] + words[1..] == words
  {
  }

  lemma AreWordsTail(words: seq<string>)
    requires words != [] && AreWords(words)
    ensures AreWords(words[1..])
  {
    assert forall k | 0 <= k < |words| - 1 :: words[1..][k] == words[k + 1];
  }

  lemma SplitOneWord(words: seq<string>)
    requires |words| == 1 && words[0] != [] && NoSpace(words[0])
    ensures Split(JoinWith(words, ' ')) == words
  {
    var w := words[0];
    assert JoinWith(words, ' ') == w;
    WordLengthWhole(w);
    assert LStrip(w) == w;
    assert w[..|w|] == w && w[|w|..] == [];
    assert Split([]) == [];
  }

  lemma {:induction false} WordLengthWhole(w: string)
    requires NoSpace(w)
    ensures WordLength(w) == |w|
  {
    if w != [] {
      WordLengthWhole(w[1..]);
    }
  }

  lemma SplitMoreWords(words: seq<string>)
    requires |words| > 1 && words[0] != [] && NoSpace(words[0])
    ensures Split(JoinWith(words, ' ')) == [words[0]] + Split(JoinWith(words[1..], ' '))
  {
    var w := words[0];
    var tail := JoinWith(words[1..], ' ');
    assert JoinWith(words, ' ') == w + ([' '] + tail);
    SplitOfWordThen(w, [' '] + tail);
    SplitAfterSpace(' ', tail);
  }

  lemma SplitOfWordThen(w: string, rest: string)
    requires w != [] && NoSpace(w) && (rest == [] || IsSpace(rest[0]))
    ensures Split(w + rest) == [w] + Split(rest)
  {
    WordLengthOfWord(w, rest);
    SplitOfWord(w, rest);
  }

  lemma SplitOfWord(w: string, rest: string)
    requires w != [] && NoSpace(w) && WordLength(w + rest) == |w|
    ensures Split(w + rest) == [w] + Split(rest)
  {
    var s := w + rest;
    assert !IsSpace(s[0]);
    assert LStrip(s) == s;
    assert s[..|w|] == w && s[|w|..] == rest;
  }

  lemma {:induction false} WordLengthOfWord(w: string, rest: string)
    requires NoSpace(w)
    requires rest == [] || IsSpace(rest[0])
    ensures WordLength(w + rest) == |w|
  {
    if w != [] {
      assert (w + rest)[1..] == w[1..] + rest;
      WordLengthOfWord(w[1..], rest);
    }
  }

  /** Python's `a <= b` on strings: lexicographic order of character codes. */
  predicate LessEq(a: string, b: string) {
    a == [] || (b != [] && (a[0] < b[0] || (a[0] == b[0] && LessEq(a[1..], b[1..]))))
  }

  lemma {:induction false} LessEqTotal(a: string, b: string)
    ensures LessEq(a, b) || LessEq(b, a)
  {
    if a != [] && b != [] && a[0] == b[0] {
      LessEqTotal(a[1..], b[1..]);
    }
  }

  lemma {:induction false} LessEqTrans(a: string, b: string, c: string)
    requires LessEq(a, b) && LessEq(b, c)
    ensures LessEq(a, c)
  {
    if a != [] && a[0] == b[0] && b[0] == c[0] {
      LessEqTrans(a[1..], b[1..], c[1..]);
    }
  }

  ghost predicate Sorted(s: seq<string>) {
    forall i, j | 0 <= i < j < |s| :: LessEq(s[i], s[j])
  }

  /** Inserting `x` into a sorted list keeps it sorted and adds exactly `x`. */
  function Insert(x: string, s: seq<string>): (r: seq<string>)
    requires Sorted(s)
    ensures Sorted(r) && multiset(r) == multiset(s) + multiset{x}
  {
    if s == [] then
      [x]
    else if LessEq(x, s[0]) then
      forall j | 0 <= j < |s| ensures LessEq(x, s[j]) {
        if j > 0 { LessEqTrans(x, s[0], s[j]); }
      }
      SortedCons(x, s);
      [x] + s
    else
      LessEqTotal(x, s[0]);
      SortedTail(s);
      var tail := Insert(x, s[1..]);
      BelowAll(s[0], s[1..], x, tail);
      SortedCons(s[0], tail);
      HeadTail(s);
      [s[0]] + tail
  }

  lemma SortedCons(h: string, t: seq<string>)
    requires Sorted(t)
    requires forall j | 0 <= j < |t| :: LessEq(h, t[j])
    ensures Sorted([h] + t)
  {
    forall i, j | 0 <= i < j < |t| + 1 ensures LessEq(([h] + t)[i], ([h] + t)[j]) {
      assert ([h] + t)[j] == t[j - 1];
      if i > 0 { assert ([h] + t)[i] == t[i - 1]; }
    }
  }

  lemma SortedTail(s: seq<string>)
    requires s != [] && Sorted(s)
    ensures Sorted(s[1..])
    ensures forall j | 0 <= j < |s| - 1 :: LessEq(s[0], s[1..][j])
  {
    assert forall j | 0 <= j < |s| - 1 :: s[1..][j] == s[j + 1];
  }

  lemma BelowAll(h: string, s: seq<string>, x: string, t: seq<string>)
    requires forall j | 0 <= j < |s| :: LessEq(h, s[j])
    requires LessEq(h, x)
    requires multiset(t) == multiset(s) + multiset{x}
    ensures forall j | 0 <= j < |t| :: LessEq(h, t[j])
  {
    forall j | 0 <= j < |t| ensures LessEq(h, t[j]) {
      assert t[j] in multiset(t);
      if t[j] != x {
        assert t[j] in s;
        var k :| 0 <= k < |s| && s[k] == t[j];
      }
    }
  }

  /** `sorted(s)`: the strings of `s` in ascending order. */
  function Sort(s: seq<string>): (r: seq<string>)
    ensures Sorted(r) && multiset(r) == multiset(s)
  {
    if s == [] then [] else
      assert s == [s[0]] + s[1..];
      Insert(s[0], Sort(s[1..]))
  }

  predicate IsDigit(c: char) {
    '0' <= c <= '9'
  }

  /** The number a string of decimal digits denotes. */
  function DigitsValue(s: string): nat
    requires forall k | 0 <= k < |s| :: IsDigit(s[k])
  {
    if s == [] then 0
    else
      assert IsDigit(s[|s| - 1]);
      DigitsValue(s[..|s| - 1]) * 10 + (s[|s| - 1] as int - '0' as int)
  }

  function Digit(d: nat): (c: char)
    requires d < 10
    ensures IsDigit(c) && c as int - '0' as int == d
  {
    "0123456789"[d]
  }

  /** `'%s' % n`: the decimal digits of `n`, without leading zeros, denoting `n`. */
  function FormatNat(n: nat): (r: string)
    ensures r != [] && forall k | 0 <= k < |r| :: IsDigit(r[k])
    ensures r[0] == '0' ==> r == "0"
    ensures DigitsValue(r) == n
  {
    if n < 10 then
      [Digit(n)]
    else
      var prefix := FormatNat(n / 10);
      var r := prefix + [Digit(n % 10)];
      assert r[..|r| - 1] == prefix;
      r
  }
}
