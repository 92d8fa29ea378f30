/** String operations of the JavaScript runtime that the plugin relies on,
    written out with JavaScript's own edge cases (index clamping, argument
    swapping in `substring`, the "-1 means not found" convention, the
    character classes `\s` and `.` of regular expressions). */
module JsString {

  /** The JavaScript regular-expression class `\s` (WhiteSpace and LineTerminator). */
  predicate IsWs(c: char) {
    var n := c as int;
    n == 0x09 || n == 0x0A || n == 0x0B || n == 0x0C || n == 0x0D || n == 0x20 ||
    n == 0xA0 || n == 0x1680 || (0x2000 <= n <= 0x200A) || n == 0x2028 || n == 0x2029 ||
    n == 0x202F || n == 0x205F || n == 0x3000 || n == 0xFEFF
  }

  /** The characters that the regular-expression dot `.` does not match. */
  predicate IsLineTerm(c: char) {
    var n := c as int;
    n == 0x0A || n == 0x0D || n == 0x2028 || n == 0x2029
  }

  lemma LineTermIsWs(c: char)
    ensures IsLineTerm(c) ==> IsWs(c)
  {
  }

  predicate NoLineTerm(s: string) {
    forall i :: 0 <= i < |s| ==> !IsLineTerm(s[i])
  }

  predicate NoWs(s: string) {
    forall i :: 0 <= i < |s| ==> !IsWs(s[i])
  }

  predicate StartsWith(s: string, p: string) {
    |p| <= |s| && s[..|p|] == p
  }

  predicate EndsWith(s: string, p: string) {
    |p| <= |s| && s[|s| - |p|..] == p
  }

  function Repeat(c: char, n: nat): (r: string)
    ensures |r| == n && forall i :: 0 <= i < n ==> r[i] == c
  {
    if n == 0 then [] else [c] + Repeat(c, n - 1)
  }

  /** `s.padStart(n, c)`: `c` repeated on the left up to length `n`. */
  function PadStart(s: string, n: nat, c: char): (r: string)
    ensures |s| >= n ==> r == s
    ensures |s| < n ==> |r| == n && r[n - |s|..] == s && forall i :: 0 <= i < n - |s| ==> r[i] == c
  {
    if |s| >= n then s else Repeat(c, n - |s|) + s
  }

  function Clamp(x: int, lo: int, hi: int): int
    requires lo <= hi
  {
    if x < lo then lo else if x > hi then hi else x
  }

  /** `s.substring(a, b)`: both ends are clamped to the string and swapped when reversed. */
  function Substring(s: string, a: int, b: int): (r: string)
    ensures var a' := Clamp(a, 0, |s|); var b' := Clamp(b, 0, |s|);
            r == if a' <= b' then s[a'..b'] else s[b'..a']
  {
    var a' := Clamp(a, 0, |s|);
    var b' := Clamp(b, 0, |s|);
    if a' <= b' then s[a'..b'] else s[b'..a']
  }

  /** `xs.slice(a, b)` for non-negative arguments: clamped, empty when reversed. */
  function Slice<T>(xs: seq<T>, a: nat, b: nat): (r: seq<T>)
    ensures a <= b <= |xs| ==> r == xs[a..b]
    ensures b <= a ==> r == []
  {
    var a' := if a < |xs| then a else |xs|;
    var b' := if b < |xs| then b else |xs|;
    if a' < b' then xs[a'..b'] else []
  }

  /** `s.indexOf(c, from)`: the first index at or after `from` holding `c`, or -1. */
  function IndexOf(s: string, c: char, from: int): (r: int)
    ensures -1 <= r < |s|
    ensures r == -1 <==> forall k :: Clamp(from, 0, |s|) <= k < |s| ==> s[k] != c
    ensures r != -1 ==> Clamp(from, 0, |s|) <= r && s[r] == c &&
                        forall k :: Clamp(from, 0, |s|) <= k < r ==> s[k] != c
  {
    IndexOfFrom(s, c, Clamp(from, 0, |s|))
  }

  function IndexOfFrom(s: string, c: char, k: nat): (r: int)
    requires k <= |s|
    ensures -1 <= r < |s|
    ensures r == -1 <==> forall j :: k <= j < |s| ==> s[j] != c
    ensures r != -1 ==> k <= r && s[r] == c && forall j :: k <= j < r ==> s[j] != c
    decreases |s| - k
  {
    if k == |s| then -1 else if s[k] == c then k else IndexOfFrom(s, c, k + 1)
  }

  /** `s.lastIndexOf(c, from)`: the last index at or before `from` (clamped to
      `[0, |s|]`, so a negative `from` still inspects index 0) holding `c`, or -1. */
  function LastIndexOf(s: string, c: char, from: int): (r: int)
    ensures -1 <= r < |s|
    ensures r == -1 <==> forall k :: 0 <= k <= Clamp(from, 0, |s|) && k < |s| ==> s[k] != c
    ensures r != -1 ==> r <= Clamp(from, 0, |s|) && s[r] == c &&
                        forall k :: r < k <= Clamp(from, 0, |s|) && k < |s| ==> s[k] != c
  {
    var start := Clamp(from, 0, |s|);
    LastIndexBelow(s, c, if start < |s| then start + 1 else |s|)
  }

  /** The last index below `k` holding `c`, or -1. */
  function LastIndexBelow(s: string, c: char, k: nat): (r: int)
    requires k <= |s|
    ensures -1 <= r < k
    ensures r == -1 <==> forall j :: 0 <= j < k ==> s[j] != c
    ensures r != -1 ==> s[r] == c && forall j :: r < j < k ==> s[j] != c
  {
    if k == 0 then -1 else if s[k - 1] == c then k - 1 else LastIndexBelow(s, c, k - 1)
  }

  /** `s.split(sep)` for a one-character separator. */
  function Split(s: string, sep: char): (r: seq<string>)
    ensures |r| >= 1
    decreases |s|
  {
    if s == [] then [[]]
    else
      var rest := Split(s[1..], sep);
      if s[0] == sep then [[]] + rest else [[s[0]] + rest[0]] + rest[1..]
  }

  /** `xs.join(sep)` for a one-character separator. */
  function Join(xs: seq<string>, sep: char): (r: string)
    decreases |xs|
  {
    if |xs| == 0 then [] else if |xs| == 1 then xs[0] else xs[0] + [sep] + Join(xs[1..], sep)
  }

  predicate NoSep(xs: seq<string>, sep: char) {
    forall i :: 0 <= i < |xs| ==> sep !in xs[i]
  }

  lemma {:induction false} SplitNoSep(s: string, sep: char)
    ensures NoSep(Split(s, sep), sep)
    decreases |s|
  {
    if s != [] {
      SplitNoSep(s[1..], sep);
    }
  }

  /** Joining the pieces of a split gives back the string. */
  lemma {:induction false} JoinSplit(s: string, sep: char)
    ensures Join(Split(s, sep), sep) == s
    decreases |s|
  {
    if s != [] {
      var rest := Split(s[1..], sep);
      JoinSplit(s[1..], sep);
      if s[0] == sep {
        assert Split(s, sep) == [[]] + rest;
      } else {
        var r := Split(s, sep);
        assert r == [[s[0]] + rest[0]] + rest[1..];
        if |rest| == 1 {
          assert Join(r, sep) == [s[0]] + rest[0];
        } else {
          assert r[1..] == rest[1..];
          assert Join(r, sep) == [s[0]] + rest[0] + [sep] + Join(rest[1..], sep);
          assert Join(rest, sep) == rest[0] + [sep] + Join(rest[1..], sep);
        }
      }
    }
  }

  lemma {:induction false} SplitFirst(x: string, tail: string, sep: char)
    requires sep !in x
    ensures Split(x + [sep] + tail, sep) == [x] + Split(tail, sep)
    decreases |x|
  {
    if x == [] {
      assert x + [sep] + tail == [sep] + tail;
      assert ([sep] + tail)[1..] == tail;
    } else {
      SplitFirst(x[1..], tail, sep);
      assert (x + [sep] + tail)[1..] == x[1..] + [sep] + tail;
      assert [x[0]] + x[1..] == x;
    }
  }

  lemma {:induction false} SplitNoSepString(x: string, sep: char)
    requires sep !in x
    ensures Split(x, sep) == [x]
    decreases |x|
  {
    if x != [] {
      SplitNoSepString(x[1..], sep);
      assert [x[0]] + x[1..] == x;
    }
  }

  /** Splitting a join gives back the pieces when none contains the separator. */
  lemma {:induction false} SplitJoin(xs: seq<string>, sep: char)
    requires |xs| >= 1 && NoSep(xs, sep)
    ensures Split(Join(xs, sep), sep) == xs
    decreases |xs|
  {
    if |xs| == 1 {
      SplitNoSepString(xs[0], sep);
    } else {
      SplitJoin(xs[1..], sep);
      SplitFirst(xs[0], Join(xs[1..], sep), sep);
      assert [xs[0]] + xs[1..] == xs;
    }
  }

  /** The number of occurrences of `c` in `s`. */
  function CountChar(s: string, c: char): (r: nat)
    ensures r == 0 <==> c !in s
    decreases |s|
  {
    if s == [] then 0 else (if s[0] == c then 1 else 0) + CountChar(s[1..], c)
  }

  lemma {:induction false} CountCharAppend(a: string, b: string, c: char)
    ensures CountChar(a + b, c) == CountChar(a, c) + CountChar(b, c)
    decreases |a|
  {
    if a == [] {
      assert a + b == b;
    } else {
      assert (a + b)[1..] == a[1..] + b;
      CountCharAppend(a[1..], b, c);
    }
  }

  /** A split has one piece more than the string has separators. */
  lemma {:induction false} SplitCount(s: string, sep: char)
    ensures |Split(s, sep)| == CountChar(s, sep) + 1
    decreases |s|
  {
    if s != [] {
      SplitCount(s[1..], sep);
    }
  }

  lemma {:induction false} JoinAppend(xs: seq<string>, ys: seq<string>, sep: char)
    requires |xs| >= 1 && |ys| >= 1
    ensures Join(xs + ys, sep) == Join(xs, sep) + [sep] + Join(ys, sep)
    decreases |xs|
  {
    if |xs| == 1 {
      assert (xs + ys)[1..] == ys;
    } else {
      JoinAppend(xs[1..], ys, sep);
      assert (xs + ys)[1..] == xs[1..] + ys;
    }
  }

  lemma {:induction false} JoinLength(xs: seq<string>, sep: char)
    requires |xs| >= 1
    ensures |Join(xs, sep)| == SumLengths(xs) + |xs| - 1
    decreases |xs|
  {
    if |xs| > 1 {
      JoinLength(xs[1..], sep);
    }
  }

  function SumLengths(xs: seq<string>): nat
    decreases |xs|
  {
    if xs == [] then 0 else |xs[0]| + SumLengths(xs[1..])
  }

  /** `s.replaceAll(pat, rep)`: every non-overlapping occurrence of `pat`,
      scanning left to right, is replaced by `rep`. An empty pattern places
      `rep` before every character and at the end. `rep` is inserted as it
      is: the `$` replacement patterns of JavaScript are not expanded. */
  function ReplaceAll(s: string, pat: string, rep: string): (r: string)
    decreases |s|
  {
    if pat == [] then
      (if s == [] then rep else rep + [s[0]] + ReplaceAll(s[1..], pat, rep))
    else if |s| < |pat| then s
    else if s[..|pat|] == pat then rep + ReplaceAll(s[|pat|..], pat, rep)
    else [s[0]] + ReplaceAll(s[1..], pat, rep)
  }

  /** A string that does not contain the first character of a non-empty pattern
      is left alone by `replaceAll`. */
  lemma {:induction false} ReplaceAllAbsent(s: string, pat: string, rep: string)
    requires pat != [] && pat[0] !in s
    ensures ReplaceAll(s, pat, rep) == s
    decreases |s|
  {
    if |s| >= |pat| {
      assert s[..|pat|][0] == s[0];
      ReplaceAllAbsent(s[1..], pat, rep);
      assert [s[0]] + s[1..] == s;
    }
  }

  /** A prefix free of the pattern's first character passes through `replaceAll`. */
  lemma {:induction false} ReplaceAllPrefix(pre: string, s: string, pat: string, rep: string)
    requires pat != [] && pat[0] !in pre
    ensures ReplaceAll(pre + s, pat, rep) == pre + ReplaceAll(s, pat, rep)
    decreases |pre|
  {
    if pre != [] {
      assert pre + s == [pre[0]] + (pre[1..] + s);
      ReplaceAllCons(pre[0], pre[1..] + s, pat, rep);
      ReplaceAllPrefix(pre[1..], s, pat, rep);
      assert [pre[0]] + (pre[1..] + ReplaceAll(s, pat, rep)) == pre + ReplaceAll(s, pat, rep);
    } else {
      assert pre + s == s;
    }
  }

  /** A first character that cannot start the pattern is kept. */
  lemma ReplaceAllCons(c: char, u: string, pat: string, rep: string)
    requires pat != [] && c != pat[0]
    ensures ReplaceAll([c] + u, pat, rep) == [c] + ReplaceAll(u, pat, rep)
  {
    var t := [c] + u;
    assert t[1..] == u;
    if |t| < |pat| {
      // [c] + u is shorter than pat, and so is u: both are returned unchanged
      ReplaceAllShort(u, pat, rep);
    } else {
      assert t[..|pat|][0] == c;
    }
  }

  lemma ReplaceAllShort(s: string, pat: string, rep: string)
    requires pat != [] && |s| < |pat|
    ensures ReplaceAll(s, pat, rep) == s
  {
  }

  /** A front part that differs from the pattern at position `k`, and whose
      other characters cannot start it, is kept as it is. */
  lemma {:induction false} ReplaceAllUnmatchedFront(q: string, s: string, pat: string, rep: string, k: nat)
    requires k < |pat| <= |q| && q[k] != pat[k] && pat[0] !in q[1..]
    ensures ReplaceAll(q + s, pat, rep) == q + ReplaceAll(s, pat, rep)
  {
    var t := q + s;
    var r := ReplaceAll(s, pat, rep);
    calc {
      ReplaceAll(t, pat, rep);
    == { assert t[..|pat|][k] == q[k];
         assert t[0] == q[0] && t[1..] == q[1..] + s; }
      [q[0]] + ReplaceAll(q[1..] + s, pat, rep);
    == { ReplaceAllPrefix(q[1..], s, pat, rep); }
      [q[0]] + (q[1..] + r);
    == { assert [q[0]] + q[1..] == q; }
      q + r;
    }
  }

  /** An occurrence at the very front is replaced, and the scan goes on
      after it. */
  lemma {:induction false} ReplaceAllLeading(pat: string, s: string, rep: string)
    requires pat != []
    ensures ReplaceAll(pat + s, pat, rep) == rep + ReplaceAll(s, pat, rep)
  {
    assert (pat + s)[..|pat|] == pat;
    assert (pat + s)[|pat|..] == s;
  }

  /** The pattern itself is replaced by the replacement. */
  lemma ReplaceAllWhole(pat: string, rep: string)
    requires pat != []
    ensures ReplaceAll(pat, pat, rep) == rep
  {
    assert pat[..|pat|] == pat;
    assert pat[|pat|..] == [];
  }

  function ToLowerChar(c: char): char {
    if 'A' <= c <= 'Z' then (c as int + 32) as char else c
  }

  function ToUpperChar(c: char): char {
    if 'a' <= c <= 'z' then (c as int - 32) as char else c
  }

  function ToLower(s: string): (r: string)
    ensures |r| == |s| && forall i :: 0 <= i < |s| ==> r[i] == ToLowerChar(s[i])
  {
    if s == [] then [] else [ToLowerChar(s[0])] + ToLower(s[1..])
  }

  function ToUpper(s: string): (r: string)
    ensures |r| == |s| && forall i :: 0 <= i < |s| ==> r[i] == ToUpperChar(s[i])
  {
    if s == [] then [] else [ToUpperChar(s[0])] + ToUpper(s[1..])
  }

  /** The length of the longest prefix without white space (a greedy `\S*`). */
  function WordLen(s: string): (r: nat)
    ensures r <= |s| && NoWs(s[..r])
    ensures r < |s| ==> IsWs(s[r])
    decreases |s|
  {
    if s == [] || IsWs(s[0]) then 0
    else
      var n := WordLen(s[1..]);
      assert s[..1 + n][1..] == s[1..][..n];
      1 + n
  }

  /** A word followed by white space or by nothing is taken whole. */
  lemma {:induction false} WordLenAppend(w: string, rest: string)
    requires NoWs(w) && (rest == [] || IsWs(rest[0]))
    ensures WordLen(w + rest) == |w|
    decreases |w|
  {
    if w == [] {
      assert w + rest == rest;
    } else {
      assert (w + rest)[1..] == w[1..] + rest;
      WordLenAppend(w[1..], rest);
    }
  }

  /** The length of the longest prefix without line terminators (a greedy `.*`). */
  function LineLen(s: string): (r: nat)
    ensures r <= |s| && NoLineTerm(s[..r])
    ensures r < |s| ==> IsLineTerm(s[r])
    ensures NoLineTerm(s) ==> r == |s|
    decreases |s|
  {
    if s == [] || IsLineTerm(s[0]) then 0
    else
      var n := LineLen(s[1..]);
      assert s[..1 + n][1..] == s[1..][..n];
      1 + n
  }

  /** The length of the run of `c` that starts `s`. */
  function RunLen(s: string, c: char): (r: nat)
    ensures r <= |s| && forall i :: 0 <= i < r ==> s[i] == c
    ensures r < |s| ==> s[r] != c
    decreases |s|
  {
    if s == [] || s[0] != c then 0 else 1 + RunLen(s[1..], c)
  }

  /** A run of `c` followed by anything else is taken whole. */
  lemma {:induction false} RunLenAppend(run: string, rest: string, c: char)
    requires forall i :: 0 <= i < |run| ==> run[i] == c
    requires rest == [] || rest[0] != c
    ensures RunLen(run + rest, c) == |run|
    decreases |run|
  {
    if run == [] {
      assert run + rest == rest;
    } else {
      assert (run + rest)[1..] == run[1..] + rest;
      RunLenAppend(run[1..], rest, c);
    }
  }
}
