/** The two regular expressions of the editable code blocks, written out as
    string functions:

    - the fence-opener pattern `reg_code` of src/EditableCodeblock.ts and
      src/general/EditableCodeblockInOb.ts, an approximation of the
      fenced-code-block opener of section 4.5 of the CommonMark
      specification: a run of blockquote/list markers and white space, three
      or more backticks or tildes, a language word and the rest of the line;
    - the language-input pattern `^(\S*)(\s?.*)$`.

    JavaScript `\s` is `IsWs` and `.` is any character but a line
    terminator. Neither pattern has the `m` flag, so `^` and `$` are the ends
    of the string. */
module FenceParse {
  import opened Wrappers
  import opened JsString

  /** Obsidian's section information for a rendered block: the text of the
      section and the indices of the block's first and last lines in it. */
  datatype SectionInfo = SectionInfo(text: string, lineStart: nat, lineEnd: nat)

  /** `lines[k]`, absent past the end. The code does not guard the index;
      the `undefined` it reads there becomes the string "undefined" in
      `RegExp.exec`, which contains no fence character, so both patterns
      fail on it exactly as they do on an absent line here. */
  function LineAt(lines: seq<string>, k: nat): Option<string> {
    if k < |lines| then Some(lines[k]) else None
  }

  /** `lines.slice(lineStart + 1, lineEnd).join('\n')`: the lines strictly
      between the two fence lines. */
  function BodyOf(lines: seq<string>, lineStart: nat, lineEnd: nat): string {
    Join(Slice(lines, lineStart + 1, lineEnd), '\n')
  }

  /** The body splits back into exactly the lines between the fences, which
      excludes both fence lines; with no line between them it is empty. */
  lemma BodyLines(lines: seq<string>, lineStart: nat, lineEnd: nat)
    requires NoSep(lines, '\n')
    ensures lineStart + 1 < lineEnd <= |lines| ==>
              Split(BodyOf(lines, lineStart, lineEnd), '\n') == lines[lineStart + 1..lineEnd]
    ensures lineEnd <= lineStart + 1 ==> BodyOf(lines, lineStart, lineEnd) == ""
  {
    if lineStart + 1 < lineEnd <= |lines| {
      var body := lines[lineStart + 1..lineEnd];
      assert NoSep(body, '\n') by {
        forall i | 0 <= i < |body|
          ensures '\n' !in body[i]
        {
          assert body[i] == lines[lineStart + 1 + i];
        }
      }
      SplitJoin(body, '\n');
    }
  }

  /** The marker characters that may open a prefix unit `>\s`, `-\s`, `*\s`, `+\s`. */
  predicate IsMarker(c: char) {
    c == '>' || c == '-' || c == '*' || c == '+'
  }

  predicate IsFenceChar(c: char) {
    c == '`' || c == '~'
  }

  /** A string made of the units of `(\s|>\s|-\s|\*\s|\+\s)*`. */
  predicate PrefixShape(s: string)
    decreases |s|
  {
    s == [] ||
    (IsWs(s[0]) && PrefixShape(s[1..])) ||
    (|s| >= 2 && IsMarker(s[0]) && IsWs(s[1]) && PrefixShape(s[2..]))
  }

  /** The length the greedy prefix group takes. No unit starts with a fence
      character, so giving a unit back never lets the fence match: the greedy
      length is the only one the regular expression can use. */
  function PrefixLen(s: string): (r: nat)
    ensures r <= |s| && PrefixShape(s[..r])
    decreases |s|
  {
    if s == [] then 0
    else if IsWs(s[0]) then
      var n := PrefixLen(s[1..]);
      assert s[..1 + n][1..] == s[1..][..n];
      1 + n
    else if |s| >= 2 && IsMarker(s[0]) && IsWs(s[1]) then
      var n := PrefixLen(s[2..]);
      assert s[..2 + n][2..] == s[2..][..n];
      2 + n
    else 0
  }

  /** A fence: three or more backticks, or three or more tildes. */
  predicate IsFlag(f: string) {
    |f| >= 3 && IsFenceChar(f[0]) && forall i :: 0 <= i < |f| ==> f[i] == f[0]
  }

  /** The four groups `match[1]`, `match[3]`, `match[4]`, `match[5]`. */
  datatype Fence = Fence(prefix: string, flag: string, languageType: string, languageMeta: string)

  function Glued(f: Fence): string {
    f.prefix + (f.flag + (f.languageType + f.languageMeta))
  }

  /** The shape of `(\s?.*)`: empty, or one white-space character followed by
      characters that are not line terminators. */
  predicate MetaShape(m: string) {
    m == [] || (IsWs(m[0]) && NoLineTerm(m[1..]))
  }

  /** The greedy `(\s?.*)` after the language word: the next character when
      it is white space, then everything up to the first line terminator. */
  function MetaOf(rest: string): (r: string)
    ensures StartsWith(rest, r)
    ensures rest == [] || IsWs(rest[0]) ==> MetaShape(r)
    ensures rest != [] && IsWs(rest[0]) && NoLineTerm(rest[1..]) ==> r == rest
  {
    if rest == [] then []
    else if IsWs(rest[0]) then
      var n := LineLen(rest[1..]);
      assert (rest[..1 + n])[1..] == rest[1..][..n];
      rest[..1 + n]
    else rest[..LineLen(rest)]
  }

  /** `reg_code.exec(line)`. */
  function ParseFenceLine(line: string): (r: Option<Fence>)
    ensures r.Some? ==>
              && PrefixShape(r.value.prefix)
              && IsFlag(r.value.flag)
              && NoWs(r.value.languageType)
              && (r.value.languageType == [] || r.value.languageType[0] != r.value.flag[0])
              && MetaShape(r.value.languageMeta)
              && StartsWith(line, Glued(r.value))
  {
    var p := PrefixLen(line);
    var rest := line[p..];
    if rest == [] || !IsFenceChar(rest[0]) then None
    else
      var n := RunLen(rest, rest[0]);
      if n < 3 then None
      else
        var after := rest[n..];
        var t := WordLen(after);
        var f := Fence(line[..p], rest[..n], after[..t], MetaOf(after[t..]));
        GluedPrefix(line, p, rest, n, after, t, f);
        Some(f)
  }

  lemma GluedPrefix(line: string, p: nat, rest: string, n: nat, after: string, t: nat, f: Fence)
    requires p <= |line| && rest == line[p..] && n <= |rest| && after == rest[n..] && t <= |after|
    requires f.prefix == line[..p] && f.flag == rest[..n] && f.languageType == after[..t]
    requires StartsWith(after[t..], f.languageMeta)
    ensures StartsWith(line, Glued(f))
  {
    StartsWithChain(after, f.languageType, f.languageMeta);
    StartsWithChain(rest, f.flag, f.languageType + f.languageMeta);
    StartsWithChain(line, f.prefix, f.flag + (f.languageType + f.languageMeta));
  }

  lemma StartsWithChain(s: string, a: string, b: string)
    requires StartsWith(s, a) && StartsWith(s[|a|..], b)
    ensures StartsWith(s, a + b)
  {
    forall i | 0 <= i < |a + b|
      ensures s[i] == (a + b)[i]
    {
      if i >= |a| {
        assert s[|a|..][i - |a|] == s[i];
      }
    }
  }

  /** On a line without line terminators (every line of a `split('\n')`
      that has no `\r`) the four groups glue back to the whole line. */
  lemma FenceReconstructs(line: string)
    requires NoLineTerm(line)
    requires ParseFenceLine(line).Some?
    ensures Glued(ParseFenceLine(line).value) == line
  {
    var p := PrefixLen(line);
    var rest := line[p..];
    var n := RunLen(rest, rest[0]);
    var after := rest[n..];
    var t := WordLen(after);
    var m := after[t..];
    NoLineTermSuffix(line, p);
    NoLineTermSuffix(rest, n);
    NoLineTermSuffix(after, t);
    if m != [] {
      NoLineTermSuffix(m, 1);
    }
    assert MetaOf(m) == m;
    var g := Glued(ParseFenceLine(line).value);
    assert |g| == |line|;
    assert line[..|line|] == line;
  }

  lemma {:induction false} PrefixLenAppend(pre: string, rest: string)
    requires PrefixShape(pre)
    requires rest != [] && IsFenceChar(rest[0])
    ensures PrefixLen(pre + rest) == |pre|
    decreases |pre|
  {
    if pre == [] {
      assert pre + rest == rest;
    } else if IsWs(pre[0]) {
      assert (pre + rest)[1..] == pre[1..] + rest;
      PrefixLenAppend(pre[1..], rest);
    } else {
      assert (pre + rest)[2..] == pre[2..] + rest;
      PrefixLenAppend(pre[2..], rest);
    }
  }

  /** Conversely, every line of the shape the pattern describes is parsed into
      exactly its parts: the parse is the unique decomposition. */
  lemma FenceParseComplete(f: Fence)
    requires PrefixShape(f.prefix) && IsFlag(f.flag) && NoWs(f.languageType)
    requires f.languageType == [] || f.languageType[0] != f.flag[0]
    requires MetaShape(f.languageMeta)
    ensures ParseFenceLine(Glued(f)) == Some(f)
  {
    var line := Glued(f);
    var tail := f.languageType + f.languageMeta;
    var rest := f.flag + tail;
    PrefixLenAppend(f.prefix, rest);
    assert line[|f.prefix|..] == rest;
    assert line[..|f.prefix|] == f.prefix;
    var c := f.flag[0];
    assert rest[0] == c;
    FlagRun(f.flag, f.languageType, f.languageMeta);
    assert rest[|f.flag|..] == tail;
    assert rest[..|f.flag|] == f.flag;
    WordLenAppend(f.languageType, f.languageMeta);
    assert tail[..|f.languageType|] == f.languageType;
    assert tail[|f.languageType|..] == f.languageMeta;
  }

  /** The fence run ends where the flag ends. */
  lemma FlagRun(flag: string, languageType: string, languageMeta: string)
    requires IsFlag(flag)
    requires languageType == [] || languageType[0] != flag[0]
    requires MetaShape(languageMeta)
    ensures RunLen(flag + (languageType + languageMeta), flag[0]) == |flag|
  {
    var tail := languageType + languageMeta;
    if tail != [] && languageType == [] {
      assert tail[0] == languageMeta[0];
      assert !IsWs(flag[0]);
    }
    RunLenAppend(flag, tail, flag[0]);
  }

  /** `/^(\S*)(\s?.*)$/.exec(value)`: the language word and the rest. The
      pattern fails, and the caller throws, when a line terminator follows
      the optional white-space character. */
  function LanguageInputSplit(value: string): (r: Result<(string, string)>)
    ensures r.Ok? ==> r.value.0 + r.value.1 == value && NoWs(r.value.0) && MetaShape(r.value.1)
    ensures r.Ok? <==> (var t := WordLen(value); t == |value| || NoLineTerm(value[t + 1..]))
  {
    var t := WordLen(value);
    if t == |value| then
      assert value[..t] == value;
      Ok((value, []))
    else if NoLineTerm(value[t + 1..]) then
      assert value[..t] + value[t..] == value;
      assert value[t..][1..] == value[t + 1..];
      Ok((value[..t], value[t..]))
    else Err("This is not a regular expression matching that may fail")
  }

  /** A single-line input always splits. */
  lemma LanguageInputSingleLine(value: string)
    requires NoLineTerm(value)
    ensures LanguageInputSplit(value).Ok?
  {
    var t := WordLen(value);
    if t < |value| {
      NoLineTermSuffix(value, t + 1);
    }
  }

  lemma NoLineTermSuffix(s: string, k: nat)
    requires NoLineTerm(s) && k <= |s|
    ensures NoLineTerm(s[k..])
  {
    var u := s[k..];
    forall i | 0 <= i < |u|
      ensures !IsLineTerm(u[i])
    {
      assert u[i] == s[k + i];
    }
  }

  /** Every word followed by a white-space-led single line is split back into
      exactly those two parts. */
  lemma LanguageInputSplitComplete(languageType: string, languageMeta: string)
    requires NoWs(languageType) && MetaShape(languageMeta)
    ensures LanguageInputSplit(languageType + languageMeta) == Ok((languageType, languageMeta))
  {
    var v := languageType + languageMeta;
    WordLenAppend(languageType, languageMeta);
    assert v[..|languageType|] == languageType;
    assert v[|languageType|..] == languageMeta;
    if languageMeta != [] {
      assert v[|languageType| + 1..] == languageMeta[1..];
    }
  }
}
