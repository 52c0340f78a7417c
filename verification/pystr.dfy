/** The parts of Python's `str` that the correction pipeline relies on:
    `strip()`, `split()`, `lower()`, `startswith`/`endswith`, the `in`
    substring test, `find`/`rfind` of one character, slicing and
    `" ".join`. Strings are sequences of Unicode scalar values. */
module PyStr {
  import opened Sequences

  /** Python's `str.isspace()` for one character: the characters that
      argument-less `strip()` removes and `split()` separates on. */
  predicate IsSpace(c: char) {
    || c == ' ' || c == '\t' || c == '\n' || c == '\r'
    || c == '\U{0B}' || c == '\U{0C}'
    || ('\U{1C}' <= c <= '\U{1F}')
    || c == '\U{85}' || c == '\U{A0}' || c == '\U{1680}'
    || ('\U{2000}' <= c <= '\U{200A}')
    || c == '\U{2028}' || c == '\U{2029}' || c == '\U{202F}'
    || c == '\U{205F}' || c == '\U{3000}'
  }

  /** True when every character is whitespace; `not s.strip()` in Python. */
  predicate IsBlank(s: string) {
    forall i | 0 <= i < |s| :: IsSpace(s[i])
  }

  /** Whitespace followed by whitespace is whitespace. */
  lemma BlankAppend(a: string, b: string)
    requires IsBlank(a) && IsBlank(b)
    ensures IsBlank(a + b)
  {
    forall i | 0 <= i < |a + b| ensures IsSpace((a + b)[i]) {
      if i >= |a| {
        assert (a + b)[i] == b[i - |a|];
      }
    }
  }

  /** `s.lstrip()`: the suffix left after dropping leading whitespace. */
  function LStrip(s: string): (r: string)
    ensures |r| <= |s| && r == s[|s| - |r|..]
    ensures forall i | 0 <= i < |s| - |r| :: IsSpace(s[i])
    ensures r == [] || !IsSpace(r[0])
  {
    if s == [] || !IsSpace(s[0]) then s else LStrip(s[1..])
  }

  /** `s.rstrip()`: the prefix left after dropping trailing whitespace. */
  function RStrip(s: string): (r: string)
    ensures |r| <= |s| && r == s[..|r|]
    ensures forall i | |r| <= i < |s| :: IsSpace(s[i])
    ensures r == [] || !IsSpace(r[|r| - 1])
  {
    if s == [] || !IsSpace(s[|s| - 1]) then s else RStrip(s[..|s| - 1])
  }

  /** `s.strip()`. The result is empty exactly when `s` is blank, and
      otherwise neither starts nor ends with whitespace. */
  function Strip(s: string): (r: string)
    ensures r == [] <==> IsBlank(s)
    ensures r == [] || (!IsSpace(r[0]) && !IsSpace(r[|r| - 1]))
  {
    var l := LStrip(s);
    var r := RStrip(l);
    assert r != [] ==> r[0] == l[0];
    if r == [] then
      assert |l| == 0;
      r
    else
      assert !IsSpace(s[|s| - |l|]);
      r
  }

  /** A string that `strip()` leaves as it is. */
  predicate IsStripped(s: string) {
    s == [] || (!IsSpace(s[0]) && !IsSpace(s[|s| - 1]))
  }

  /** Whatever the input, `strip()` leaves a stripped string. */
  lemma StripIsStripped(s: string)
    ensures IsStripped(Strip(s))
  {
  }

  lemma StripOfStripped(s: string)
    requires IsStripped(s)
    ensures Strip(s) == s
  {
  }

  /** Stripping is idempotent. */
  lemma StripIdempotent(s: string)
    ensures Strip(Strip(s)) == Strip(s)
  {
    StripOfStripped(Strip(s));
  }

  /** Leading whitespace in front of a non-space is what `lstrip()` drops. */
  lemma {:induction false} LStripBlankPrefix(pre: string, t: string)
    requires IsBlank(pre) && (t == [] || !IsSpace(t[0]))
    ensures LStrip(pre + t) == t
    decreases |pre|
  {
    if pre != [] {
      assert (pre + t)[1..] == pre[1..] + t;
      LStripBlankPrefix(pre[1..], t);
    } else {
      assert pre + t == t;
    }
  }

  /** Trailing whitespace after a non-space is what `rstrip()` drops. */
  lemma {:induction false} RStripBlankSuffix(t: string, post: string)
    requires IsBlank(post) && (t == [] || !IsSpace(t[|t| - 1]))
    ensures RStrip(t + post) == t
    decreases |post|
  {
    if post != [] {
      var post' := post[..|post| - 1];
      assert (t + post)[..|t + post| - 1] == t + post';
      RStripBlankSuffix(t, post');
    } else {
      assert t + post == t;
    }
  }

  /** Whitespace on either side of a stripped string is removed by `strip()`. */
  lemma StripPadded(pre: string, s: string, post: string)
    requires IsBlank(pre) && IsBlank(post) && IsStripped(s)
    ensures Strip(pre + s + post) == s
  {
    var t := pre + s + post;
    if s == [] {
      assert IsBlank(t) by {
        forall i | 0 <= i < |t| ensures IsSpace(t[i]) {
          if i < |pre| {
            assert t[i] == pre[i];
          } else {
            assert t[i] == post[i - |pre|];
          }
        }
      }
    } else {
      assert t == pre + (s + post);
      assert (s + post)[0] == s[0];
      LStripBlankPrefix(pre, s + post);
      RStripBlankSuffix(s, post);
    }
  }

  /** The word-by-word split of a blank-free prefix: the longest run of
      non-whitespace at the start of `s`. */
  function WordPrefix(s: string): (w: string)
    ensures |w| <= |s| && w == s[..|w|]
    ensures forall i | 0 <= i < |w| :: !IsSpace(w[i])
    ensures |w| == |s| || IsSpace(s[|w|])
    ensures s != [] && !IsSpace(s[0]) ==> w != []
  {
    if s == [] || IsSpace(s[0]) then [] else [s[0]] + WordPrefix(s[1..])
  }

  /** A word: non-empty, with no whitespace in it. */
  predicate IsWord(w: string) {
    w != [] && forall j | 0 <= j < |w| :: !IsSpace(w[j])
  }

  /** `s.split()` with no separator: the maximal runs of non-whitespace, in
      order; empty words never appear. */
  function Split(s: string): seq<string>
    decreases |s|
  {
    var t := LStrip(s);
    if t == [] then []
    else
      var w := WordPrefix(t);
      [w] + Split(t[|w|..])
  }

  /** Every word takes up at least one character of `s`. */
  lemma {:induction false} SplitBound(s: string)
    ensures |Split(s)| <= |s|
    decreases |s|
  {
    var t := LStrip(s);
    if t != [] {
      SplitBound(t[|WordPrefix(t)|..]);
    }
  }

  /** Every item of the split is a word. */
  lemma {:induction false} SplitWords(s: string)
    ensures forall w | w in Split(s) :: IsWord(w)
    decreases |s|
  {
    var t := LStrip(s);
    if t != [] {
      var w := WordPrefix(t);
      SplitWords(t[|w|..]);
      assert IsWord(w);
      assert Split(s) == [w] + Split(t[|w|..]);
    }
  }

  /** `len(s.split())`. */
  function WordCount(s: string): (n: nat)
    ensures n <= |s|
  {
    SplitBound(s);
    |Split(s)|
  }

  /** A string has no words exactly when it is blank. */
  lemma WordCountZeroIffBlank(s: string)
    ensures WordCount(s) == 0 <==> IsBlank(s)
  {
    var t := LStrip(s);
    if t == [] {
      assert IsBlank(s) by {
        forall i | 0 <= i < |s| ensures IsSpace(s[i]) {
        }
      }
    } else {
      assert !IsSpace(s[|s| - |t|]);
    }
  }

  /** Leading whitespace does not change the split. */
  lemma {:induction false} LStripSkipsBlank(pre: string, s: string)
    requires IsBlank(pre)
    ensures LStrip(pre + s) == LStrip(s)
    decreases |pre|
  {
    if pre == [] {
      assert pre + s == s;
    } else {
      assert (pre + s)[0] == pre[0];
      assert (pre + s)[1..] == pre[1..] + s;
      LStripSkipsBlank(pre[1..], s);
    }
  }

  /** The word at the start of `t` is unchanged by what follows `t`, as
      long as the word ends inside `t` or the continuation starts with
      whitespace. */
  lemma {:induction false} WordPrefixAppend(t: string, x: string)
    requires |WordPrefix(t)| < |t| || x == [] || IsSpace(x[0])
    ensures WordPrefix(t + x) == WordPrefix(t)
    decreases |t|
  {
    if t == [] {
      assert t + x == x;
    } else if !IsSpace(t[0]) {
      assert (t + x)[0] == t[0];
      assert (t + x)[1..] == t[1..] + x;
      WordPrefixAppend(t[1..], x);
    } else {
      assert (t + x)[0] == t[0];
    }
  }

  /** A blank text has no words. */
  lemma SplitBlank(s: string)
    requires IsBlank(s)
    ensures Split(s) == []
  {
    LStripBlankPrefix(s, []);
    assert s + [] == s;
  }

  /** A single word splits into itself. */
  lemma SplitWord(w: string)
    requires IsWord(w)
    ensures Split(w) == [w]
  {
    LStripBlankPrefix([], w);
    assert [] + w == w;
    assert WordPrefix(w) == w;
    assert w[|w|..] == [];
    SplitBlank([]);
  }

  /** One step of the split, once the leading whitespace is known to be
      gone: the first word, then the split of what follows it. */
  lemma SplitUnfold(s: string, t: string, w: string, rest: string)
    requires LStrip(s) == t && t != [] && WordPrefix(t) == w && t[|w|..] == rest
    ensures Split(s) == [w] + Split(rest)
  {
  }

  /** The split only sees what is left after the leading whitespace. */
  lemma SplitSameStrip(x: string, y: string)
    requires LStrip(x) == LStrip(y)
    ensures Split(x) == Split(y)
  {
  }

  /** `SplitAtSpace` when `a` has no words. */
  lemma SplitAtSpaceBlank(a: string, c: char, b: string)
    requires IsSpace(c) && IsBlank(a)
    ensures Split(a + [c] + b) == Split(a) + Split(b)
  {
    assert IsBlank([c]);
    BlankAppend(a, [c]);
    LStripSkipsBlank(a + [c], b);
    SplitSameStrip(a + [c] + b, b);
    SplitBlank(a);
    ConcatEmptyLeft(Split(a), Split(b));
  }

  /** Splitting at a whitespace character: the words of `a + [c] + b` are
      the words of `a` followed by the words of `b`. With `SplitBlank` and
      `SplitWord` this pins `split()` down as the maximal non-whitespace
      runs, in order. */
  lemma {:induction false} SplitAtSpace(a: string, c: char, b: string)
    requires IsSpace(c)
    ensures Split(a + [c] + b) == Split(a) + Split(b)
    decreases |a|
  {
    var t := LStrip(a);
    if t == [] {
      SplitAtSpaceBlank(a, c, b);
    } else {
      var w := WordPrefix(t);
      var a' := t[|w|..];
      SplitAtSpaceStep(a, c, b);
      SplitAtSpace(a', c, b);
      ConcatAssoc([w], Split(a'), Split(b));
    }
  }

  /** The inductive step of `SplitAtSpace`: the first word of `a` is the
      first word of `a + [c] + b`, and the rest is split the same way. */
  lemma SplitAtSpaceStep(a: string, c: char, b: string)
    requires IsSpace(c) && LStrip(a) != []
    ensures var t := LStrip(a);
            var w := WordPrefix(t);
            && Split(a + [c] + b) == [w] + Split(t[|w|..] + [c] + b)
            && Split(a) == [w] + Split(t[|w|..])
  {
    var t := LStrip(a);
    var ws := a[..|a| - |t|];
    var tail := [c] + b;
    TakeDrop(a, |a| - |t|);
    Regroup(ws, t, [c], b);
    LStripBlankPrefix(ws, t + tail);
    WordPrefixAppend(t, tail);
    var w := WordPrefix(t);
    DropAppend(t, tail, |w|);
    ConcatAssoc(t[|w|..], [c], b);
    SplitUnfold(a, t, w, t[|w|..]);
    SplitUnfold(a + [c] + b, t + tail, w, t[|w|..] + [c] + b);
  }

  /** ASCII `str.lower()` on one character. */
  function LowerChar(c: char): (d: char)
    ensures 'A' <= c <= 'Z' ==> 'a' <= d <= 'z'
    ensures !('A' <= c <= 'Z') ==> d == c
  {
    if 'A' <= c <= 'Z' then (c as int + 32) as char else c
  }

  /** `s.lower()`, restricted to the ASCII letters. */
  function Lower(s: string): (r: string)
    ensures |r| == |s|
    ensures forall i | 0 <= i < |s| :: r[i] == LowerChar(s[i])
  {
    seq(|s|, i requires 0 <= i < |s| => LowerChar(s[i]))
  }

  predicate StartsWith(s: string, prefix: string) {
    |prefix| <= |s| && s[..|prefix|] == prefix
  }

  predicate EndsWith(s: string, suffix: string) {
    |suffix| <= |s| && s[|s| - |suffix|..] == suffix
  }

  /** True when `sub` occurs at position `i` of `s`. */
  predicate OccursAt(s: string, sub: string, i: int) {
    0 <= i && i + |sub| <= |s| && s[i..i + |sub|] == sub
  }

  /** Python's `sub in s`. */
  predicate Contains(s: string, sub: string) {
    exists i | 0 <= i <= |s| - |sub| :: OccursAt(s, sub, i)
  }

  /** As in Python, the empty string occurs in every string, and a string
      never occurs in a shorter one. */
  lemma ContainsBounds(s: string, sub: string)
    ensures sub == [] ==> Contains(s, sub)
    ensures Contains(s, sub) ==> |sub| <= |s|
  {
    if sub == [] {
      assert OccursAt(s, sub, 0);
    }
  }

  /** `s.find(c)` for a one-character needle: the first index of `c`, or -1. */
  function Find(s: string, c: char): (r: int)
    ensures r == -1 <==> c !in s
    ensures r != -1 ==> 0 <= r < |s| && s[r] == c && c !in s[..r]
  {
    if s == [] then -1
    else if s[0] == c then 0
    else
      var k := Find(s[1..], c);
      if k == -1 then
        assert c !in s;
        -1
      else
        assert s[..k + 1] == [s[0]] + s[1..][..k];
        k + 1
  }

  /** `s.rfind(c)` for a one-character needle: the last index of `c`, or -1. */
  function RFind(s: string, c: char): (r: int)
    ensures r == -1 <==> c !in s
    ensures r != -1 ==> 0 <= r < |s| && s[r] == c && c !in s[r + 1..]
  {
    if s == [] then -1
    else if s[|s| - 1] == c then |s| - 1
    else
      var k := RFind(s[..|s| - 1], c);
      if k == -1 then
        assert c !in s by {
          assert s == s[..|s| - 1] + [s[|s| - 1]];
        }
        -1
      else
        assert s[k + 1..] == s[..|s| - 1][k + 1..] + [s[|s| - 1]];
        k
  }

  /** Python's normalisation of a slice bound: a negative bound counts from
      the end, and the result is clamped to `0..n`. */
  function SliceBound(b: int, n: nat): (r: nat)
    ensures r <= n
    ensures 0 <= b <= n ==> r == b
    ensures b > n ==> r == n
    ensures b < 0 && b + n >= 0 ==> r == b + n
    ensures b + n < 0 ==> r == 0
  {
    if b < 0 then (if b + n < 0 then 0 else b + n)
    else if b > n then n
    else b
  }

  /** `s[start:stop]` with Python's slice semantics. */
  function Slice(s: string, start: int, stop: int): (r: string)
    ensures SliceBound(stop, |s|) <= SliceBound(start, |s|) ==> r == []
    ensures SliceBound(start, |s|) < SliceBound(stop, |s|) ==>
              r == s[SliceBound(start, |s|)..SliceBound(stop, |s|)]
  {
    var i := SliceBound(start, |s|);
    var j := SliceBound(stop, |s|);
    if j <= i then [] else s[i..j]
  }

  /** `" ".join(parts)`. */
  function JoinSpace(parts: seq<string>): (text: string)
    ensures parts == [] ==> text == []
    ensures parts != [] ==> StartsWith(text, parts[0]) && EndsWith(text, parts[|parts| - 1])
  {
    if parts == [] then []
    else if |parts| == 1 then parts[0]
    else parts[0] + " " + JoinSpace(parts[1..])
  }

  /** Joining two non-empty runs of parts is joining each and putting one
      space between. */
  lemma {:induction false} JoinSpaceAppend(a: seq<string>, b: seq<string>)
    requires a != [] && b != []
    ensures JoinSpace(a + b) == JoinSpace(a) + " " + JoinSpace(b)
    decreases |a|
  {
    var ab := a + b;
    assert ab[0] == a[0];
    assert ab[1..] == a[1..] + b;
    var x := a[0] + " ";
    var jb := JoinSpace(b);
    assert JoinSpace(ab) == x + JoinSpace(a[1..] + b);
    if |a| > 1 {
      var j1 := JoinSpace(a[1..]);
      JoinSpaceAppend(a[1..], b);
      ConcatAssoc(j1, " ", jb);
      ConcatAssoc(x, j1, " " + jb);
      ConcatAssoc(x + j1, " ", jb);
    }
  }

  /** Splitting words joined by single spaces gives the words back. */
  lemma SplitJoinStep(w: string, rest: seq<string>)
    requires IsWord(w) && rest != [] && Split(JoinSpace(rest)) == rest
    ensures Split(JoinSpace([w] + rest)) == [w] + rest
  {
    var words := [w] + rest;
    assert words[1..] == rest;
    assert JoinSpace(words) == w + [' '] + JoinSpace(rest);
    SplitWord(w);
    SplitAtSpace(w, ' ', JoinSpace(rest));
  }

  lemma {:induction false} SplitJoin(words: seq<string>)
    requires forall k | 0 <= k < |words| :: IsWord(words[k])
    ensures Split(JoinSpace(words)) == words
    decreases |words|
  {
    if words == [] {
      SplitBlank([]);
    } else if |words| == 1 {
      SplitWord(words[0]);
    } else {
      var rest := words[1..];
      assert forall k | 0 <= k < |rest| :: IsWord(rest[k]) by {
        forall k | 0 <= k < |rest| ensures IsWord(rest[k]) {
          assert rest[k] == words[k + 1];
        }
      }
      SplitJoin(rest);
      SplitJoinStep(words[0], rest);
      ConsDrop(words);
    }
  }

  /** Words on either side of a single space count separately. */
  lemma WordCountJoin(a: string, b: string)
    ensures WordCount(a + " " + b) == WordCount(a) + WordCount(b)
  {
    assert a + " " + b == a + [' '] + b;
    SplitAtSpace(a, ' ', b);
  }

  /** A space-joined text is blank exactly when every part is blank. */
  lemma {:induction false} JoinSpaceBlank(parts: seq<string>)
    ensures IsBlank(JoinSpace(parts)) <==> forall k | 0 <= k < |parts| :: IsBlank(parts[k])
  {
    if |parts| > 1 {
      JoinSpaceBlank(parts[1..]);
      var t := parts[0] + " " + JoinSpace(parts[1..]);
      if IsBlank(t) {
        assert IsBlank(parts[0]) by {
          forall i | 0 <= i < |parts[0]| ensures IsSpace(parts[0][i]) {
            assert t[i] == parts[0][i];
          }
        }
        assert IsBlank(JoinSpace(parts[1..])) by {
          var u := JoinSpace(parts[1..]);
          forall i | 0 <= i < |u| ensures IsSpace(u[i]) {
            assert t[|parts[0]| + 1 + i] == u[i];
          }
        }
        forall k | 0 <= k < |parts| ensures IsBlank(parts[k]) {
          if k > 0 {
            assert parts[k] == parts[1..][k - 1];
          }
        }
      }
      if forall k | 0 <= k < |parts| :: IsBlank(parts[k]) {
        assert forall k | 0 <= k < |parts[1..]| :: IsBlank(parts[1..][k]) by {
          forall k | 0 <= k < |parts[1..]| ensures IsBlank(parts[1..][k]) {
            assert parts[1..][k] == parts[k + 1];
          }
        }
        assert IsBlank(parts[0]);
        var u := JoinSpace(parts[1..]);
        forall i | 0 <= i < |t| ensures IsSpace(t[i]) {
          if i < |parts[0]| {
            assert t[i] == parts[0][i];
          } else if i == |parts[0]| {
            assert t[i] == ' ';
          } else {
            assert t[i] == u[i - |parts[0]| - 1];
          }
        }
      }
    }
  }
}
