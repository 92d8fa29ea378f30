/** `CodeBlock.getMetaString` (src/CodeBlock.ts): the meta string of a
    rendered code block, read back from the block's opening line with the
    pattern `^[^`~]*?(```+|~~~+)<shorthand> (.*)`. The shorthand is taken to
    hold no regular-expression metacharacters, so it matches itself. */
module CodeBlock {
  import opened Wrappers
  import opened JsString
  import opened FenceParse

  predicate NoFenceChar(s: string) {
    forall i :: 0 <= i < |s| ==> !IsFenceChar(s[i])
  }

  /** The length of the lazy `[^`~]*?` that the fence can follow: the prefix
      cannot contain a fence character, so the fence starts at the first one. */
  function NonFenceLen(s: string): (r: nat)
    ensures r <= |s| && NoFenceChar(s[..r])
    ensures r < |s| ==> IsFenceChar(s[r])
    decreases |s|
  {
    if s == [] || IsFenceChar(s[0]) then 0
    else
      var n := NonFenceLen(s[1..]);
      assert s[..1 + n][1..] == s[1..][..n];
      1 + n
  }

  /** The greedy fence run backtracks from its full length `n` down to 3,
      stopping at the first length after which `<shorthand> ` follows. */
  function FenceBacktrack(rest: string, n: nat, key: string): (r: Option<nat>)
    requires n <= |rest|
    ensures r.Some? ==> 3 <= r.value <= n && StartsWith(rest[r.value..], key)
    decreases n
  {
    if n < 3 then None
    else if StartsWith(rest[n..], key) then Some(n)
    else FenceBacktrack(rest, n - 1, key)
  }

  /** The backtracking takes the longest fence that the key can follow. */
  lemma {:induction false} FenceBacktrackLongest(rest: string, n: nat, key: string)
    requires n <= |rest|
    ensures FenceBacktrack(rest, n, key).Some? ==>
              forall k :: FenceBacktrack(rest, n, key).value < k <= n ==> !StartsWith(rest[k..], key)
    ensures FenceBacktrack(rest, n, key).None? ==> forall k :: 3 <= k <= n ==> !StartsWith(rest[k..], key)
    decreases n
  {
    if n >= 3 && !StartsWith(rest[n..], key) {
      FenceBacktrackLongest(rest, n - 1, key);
    }
  }

  /** The parts of a match: the text before the fence, the fence (`match[1]`)
      and the meta string (`match[2]`). */
  datatype MetaParts = MetaParts(prefix: string, fence: string, meta: string)

  function MetaGlued(m: MetaParts, shorthand: string): string {
    m.prefix + (m.fence + (shorthand + (" " + m.meta)))
  }

  /** The match on one line, `None` when the pattern fails. */
  function MetaMatch(line: string, shorthand: string): (r: Option<MetaParts>)
    ensures r.Some? ==> |r.value.fence| >= 3
  {
    var p := NonFenceLen(line);
    if p == |line| then None
    else
      var rest := line[p..];
      var run := RunLen(rest, rest[0]);
      match FenceBacktrack(rest, run, shorthand + " ")
      case None => None
      case Some(n) =>
        Some(PartsAt(line, shorthand, p, n))
  }

  /** The parts once the fence start `p` and the fence length `n` are known. */
  function PartsAt(line: string, shorthand: string, p: nat, n: nat): MetaParts
    requires p + n + |shorthand| + 1 <= |line|
  {
    var rest := line[p..];
    var tail := rest[n + |shorthand| + 1..];
    MetaParts(line[..p], rest[..n], tail[..LineLen(tail)])
  }

  /** The shape of a match: a prefix free of fence characters, a fence, the
      shorthand, a space and the meta string start the line, and what follows
      is empty or starts at a line terminator. */
  predicate MatchShape(line: string, shorthand: string, m: MetaParts) {
    && NoFenceChar(m.prefix)
    && IsFlag(m.fence)
    && NoLineTerm(m.meta)
    && StartsWith(line, MetaGlued(m, shorthand))
    && (var g := |MetaGlued(m, shorthand)|; g == |line| || IsLineTerm(line[g]))
  }

  /** Every match has that shape. */
  lemma MetaMatchSound(line: string, shorthand: string)
    requires MetaMatch(line, shorthand).Some?
    ensures MatchShape(line, shorthand, MetaMatch(line, shorthand).value)
  {
    var p := NonFenceLen(line);
    var rest := line[p..];
    var run := RunLen(rest, rest[0]);
    var n := FenceBacktrack(rest, run, shorthand + " ").value;
    assert MetaMatch(line, shorthand).value == PartsAt(line, shorthand, p, n);
    PartsAtSound(line, shorthand, p, n);
  }

  lemma PartsAtSound(line: string, shorthand: string, p: nat, n: nat)
    requires p < |line| && NoFenceChar(line[..p]) && IsFenceChar(line[p])
    requires 3 <= n <= RunLen(line[p..], line[p])
    requires StartsWith(line[p..][n..], shorthand + " ")
    ensures MatchShape(line, shorthand, PartsAt(line, shorthand, p, n))
  {
    var rest := line[p..];
    var tail := rest[n + |shorthand| + 1..];
    var m := PartsAt(line, shorthand, p, n);
    assert IsFlag(m.fence) by {
      assert m.fence == rest[..n];
      assert rest[0] == line[p];
    }
    MetaGluedPrefix(line, p, rest, n, shorthand, tail, m);
  }

  lemma MetaGluedPrefix(line: string, p: nat, rest: string, n: nat, shorthand: string, tail: string, m: MetaParts)
    requires p <= |line| && rest == line[p..] && n <= |rest| && StartsWith(rest[n..], shorthand + " ")
    requires tail == rest[n + |shorthand| + 1..]
    requires m.prefix == line[..p] && m.fence == rest[..n] && m.meta == tail[..LineLen(tail)]
    ensures StartsWith(line, MetaGlued(m, shorthand))
    ensures var g := |MetaGlued(m, shorthand)|; g == |line| || IsLineTerm(line[g])
  {
    MetaGluedStarts(line, p, rest, n, shorthand, tail, m);
    MetaGluedEnds(line, p, rest, n, shorthand, tail, m);
  }

  lemma MetaGluedStarts(line: string, p: nat, rest: string, n: nat, shorthand: string, tail: string, m: MetaParts)
    requires p <= |line| && rest == line[p..] && n <= |rest| && StartsWith(rest[n..], shorthand + " ")
    requires tail == rest[n + |shorthand| + 1..]
    requires m.prefix == line[..p] && m.fence == rest[..n] && m.meta == tail[..LineLen(tail)]
    ensures StartsWith(line, MetaGlued(m, shorthand))
  {
    var after := rest[n..];
    assert tail == after[|shorthand| + 1..];
    MetaTail(after, shorthand, tail, m.meta);
    StartsWithAt(rest, n, shorthand + (" " + m.meta));
    StartsWithAt(line, p, m.fence + (shorthand + (" " + m.meta)));
  }

  lemma MetaGluedEnds(line: string, p: nat, rest: string, n: nat, shorthand: string, tail: string, m: MetaParts)
    requires p <= |line| && rest == line[p..] && n + |shorthand| + 1 <= |rest|
    requires tail == rest[n + |shorthand| + 1..]
    requires |m.prefix| == p && |m.fence| == n && m.meta == tail[..LineLen(tail)]
    ensures var g := |MetaGlued(m, shorthand)|; g == |line| || IsLineTerm(line[g])
  {
    var len := |m.meta|;
    assert len == LineLen(tail);
    assert |MetaGlued(m, shorthand)| == p + n + |shorthand| + 1 + len;
    MetaGluedEnd(line, p, rest, n, |shorthand|, tail, len);
  }

  /** The shorthand, the space and the rest of the line up to its end. */
  lemma MetaTail(after: string, shorthand: string, tail: string, meta: string)
    requires StartsWith(after, shorthand + " ") && tail == after[|shorthand| + 1..] && meta == tail[..LineLen(tail)]
    ensures StartsWith(after, shorthand + (" " + meta))
  {
    StartsWithSplit(after, shorthand, " ");
    var sp := after[|shorthand|..];
    assert sp[1..] == tail;
    StartsWithChain(sp, " ", meta);
    StartsWithChain(after, shorthand, " " + meta);
  }

  lemma StartsWithAt(s: string, k: nat, x: string)
    requires k <= |s| && StartsWith(s[k..], x)
    ensures StartsWith(s, s[..k] + x)
  {
    assert s[|s[..k]|..] == s[k..];
    StartsWithChain(s, s[..k], x);
  }

  lemma MetaGluedEnd(line: string, p: nat, rest: string, n: nat, k: nat, tail: string, len: nat)
    requires p <= |line| && rest == line[p..] && n + k + 1 <= |rest|
    requires tail == rest[n + k + 1..] && len == LineLen(tail)
    ensures var g := p + n + k + 1 + len; g == |line| || IsLineTerm(line[g])
  {
    var g := p + n + k + 1 + len;
    if g < |line| {
      assert line[g] == rest[n + k + 1 + len] == tail[len];
    }
  }

  lemma StartsWithSplit(s: string, a: string, b: string)
    requires StartsWith(s, a + b)
    ensures StartsWith(s, a) && StartsWith(s[|a|..], b)
  {
    assert s[..|a|] == (a + b)[..|a|] == a;
    forall i | 0 <= i < |b|
      ensures s[|a|..][i] == b[i]
    {
      assert s[|a| + i] == (a + b)[|a| + i];
    }
  }

  /** `getMetaString`: empty without section information, on a missing line
      and when the pattern does not match. */
  function GetMetaString(section: Option<SectionInfo>, shorthand: string): (r: string)
    ensures section.None? ==> r == ""
    ensures NoLineTerm(r)
  {
    match section
    case None => ""
    case Some(info) =>
      match LineAt(Split(info.text, '\n'), info.lineStart)
      case None => ""
      case Some(line) =>
        match MetaMatch(line, shorthand)
        case None => ""
        case Some(m) =>
          MetaMatchSound(line, shorthand);
          m.meta
  }

  lemma {:induction false} NonFenceLenAppend(pre: string, rest: string)
    requires NoFenceChar(pre)
    requires rest != [] && IsFenceChar(rest[0])
    ensures NonFenceLen(pre + rest) == |pre|
    decreases |pre|
  {
    if pre == [] {
      assert pre + rest == rest;
    } else {
      var s := pre + rest;
      assert s[0] == pre[0] && !IsFenceChar(pre[0]);
      assert s[1..] == pre[1..] + rest;
      assert NoFenceChar(pre[1..]) by {
        forall i | 0 <= i < |pre[1..]|
          ensures !IsFenceChar(pre[1..][i])
        {
          assert pre[1..][i] == pre[i + 1];
        }
      }
      NonFenceLenAppend(pre[1..], rest);
      assert NonFenceLen(s) == 1 + NonFenceLen(s[1..]);
    }
  }

  /** Conversely, a line of that shape whose shorthand does not itself start
      with the fence character yields exactly its parts. */
  lemma MetaMatchComplete(m: MetaParts, shorthand: string)
    requires NoFenceChar(m.prefix) && IsFlag(m.fence) && NoLineTerm(m.meta)
    requires shorthand == [] || shorthand[0] != m.fence[0]
    ensures MetaMatch(MetaGlued(m, shorthand), shorthand) == Some(m)
  {
    var line := MetaGlued(m, shorthand);
    var body := shorthand + (" " + m.meta);
    var p := |m.prefix|;
    var n := |m.fence|;
    FenceAt(m.prefix, m.fence, body);
    BodyStartsWithKey(shorthand, m.meta);
    assert line[p..] == m.fence + body;
    assert line[p..][n..] == body;
    MetaMatchAt(line, shorthand, p, n);
    PartsAtGlued(m, shorthand);
  }

  /** The parts at the prefix and fence lengths of a glued line are the parts it was glued from. */
  lemma PartsAtGlued(m: MetaParts, shorthand: string)
    requires NoLineTerm(m.meta)
    ensures |m.prefix| + |m.fence| + |shorthand| + 1 <= |MetaGlued(m, shorthand)|
    ensures PartsAt(MetaGlued(m, shorthand), shorthand, |m.prefix|, |m.fence|) == m
  {
    var body := shorthand + (" " + m.meta);
    var rest := m.fence + body;
    var line := m.prefix + rest;
    assert line == MetaGlued(m, shorthand);
    assert line[..|m.prefix|] == m.prefix && line[|m.prefix|..] == rest;
    assert rest[..|m.fence|] == m.fence && rest[|m.fence|..] == body;
    BodyStartsWithKey(shorthand, m.meta);
    var tail := rest[|m.fence| + |shorthand| + 1..];
    assert tail == body[|shorthand| + 1..];
    assert tail == m.meta;
    assert tail[..LineLen(tail)] == m.meta;
  }

  /** The fence of `prefix + (fence + body)` starts after the prefix and ends
      where the fence ends. */
  lemma FenceAt(prefix: string, fence: string, body: string)
    requires NoFenceChar(prefix) && IsFlag(fence)
    requires body != [] && body[0] != fence[0]
    ensures var line := prefix + (fence + body);
            && NonFenceLen(line) == |prefix|
            && line[..|prefix|] == prefix && line[|prefix|..] == fence + body
            && RunLen(fence + body, fence[0]) == |fence|
            && (fence + body)[..|fence|] == fence && (fence + body)[|fence|..] == body
  {
    var rest := fence + body;
    NonFenceLenAppend(prefix, rest);
    RunLenAppend(fence, body, fence[0]);
  }

  /** The match once the fence start and the backtracked fence length are known. */
  lemma MetaMatchAt(line: string, shorthand: string, p: nat, n: nat)
    requires p == NonFenceLen(line) && p < |line|
    requires n == RunLen(line[p..], line[p]) && n >= 3
    requires StartsWith(line[p..][n..], shorthand + " ")
    ensures MetaMatch(line, shorthand) == Some(PartsAt(line, shorthand, p, n))
  {
    var rest := line[p..];
    assert rest[0] == line[p];
    var key := shorthand + " ";
    assert FenceBacktrack(rest, n, key) == Some(n);
  }

  lemma BodyStartsWithKey(shorthand: string, meta: string)
    ensures StartsWith(shorthand + (" " + meta), shorthand + " ")
    ensures (shorthand + (" " + meta))[|shorthand| + 1..] == meta
  {
    assert shorthand + (" " + meta) == (shorthand + " ") + meta;
  }

  /** A bare opener such as "```python", with nothing after the shorthand,
      has no meta string. */
  lemma BareShorthandNoMeta(prefix: string, fence: string, shorthand: string)
    requires NoFenceChar(prefix) && IsFlag(fence)
    requires shorthand == [] || shorthand[0] != fence[0]
    ensures MetaMatch(prefix + (fence + shorthand), shorthand) == None
  {
    var c := fence[0];
    var key := shorthand + " ";
    var rest := fence + shorthand;
    var line := prefix + rest;
    NonFenceLenAppend(prefix, rest);
    assert line[|prefix|..] == rest;
    assert rest[0] == c;
    RunLenAppend(fence, shorthand, c);
    forall k | 3 <= k <= |fence|
      ensures !StartsWith(rest[k..], key)
    {
      if k < |fence| {
        assert rest[k..][0] == c;
        assert key[0] != c;
      } else {
        assert |rest[k..]| == |shorthand|;
      }
    }
  }
}
