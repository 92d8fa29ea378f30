/** `ThemeMapper` (src/themes/ThemeMapper.ts). The built-in Obsidian theme
    uses CSS variables as colours, which Shiki cannot handle; the mapper
    replaces every such colour by a numbered placeholder `#XXXXXX` before
    highlighting (`mapColor`) and substitutes the original colour back into
    the rendered tree (`fixAST`). */
module ThemeMapper {
  import opened Wrappers
  import opened JsString
  import opened Highlighter

  /** The digit of `d` in `Number.prototype.toString(16)`. */
  function HexChar(d: nat): char
    requires d < 16
  {
    "0123456789abcdef"[d]
  }

  /** `n.toString(16)` for a non-negative integer: lower-case digits, no padding. */
  function ToHex(n: nat): (r: string)
    ensures r != []
    ensures '#' !in r
    decreases n
  {
    if n < 16 then [HexChar(n)] else ToHex(n / 16) + [HexChar(n % 16)]
  }

  /** The value of a hexadecimal digit of either case; other characters count 0. */
  function HexVal(c: char): nat {
    if '0' <= c <= '9' then c as int - '0' as int
    else if 'a' <= c <= 'f' then c as int - 'a' as int + 10
    else if 'A' <= c <= 'F' then c as int - 'A' as int + 10
    else 0
  }

  /** Reading a string of hexadecimal digits back as a number. */
  function ParseHex(s: string): nat {
    if s == [] then 0 else ParseHex(s[..|s| - 1]) * 16 + HexVal(s[|s| - 1])
  }

  /** The placeholder for the `n`-th mapped colour:
      `'#' + n.toString(16).padStart(6, '0').toUpperCase()`. */
  function Placeholder(n: nat): string {
    "#" + ToUpper(PadStart(ToHex(n), 6, '0'))
  }

  lemma HexValHexChar(d: nat)
    requires d < 16
    ensures HexVal(HexChar(d)) == d
  {
  }

  lemma {:induction false} ParseHexToHex(n: nat)
    ensures ParseHex(ToHex(n)) == n
    decreases n
  {
    HexValHexChar(n % 16);
    if n >= 16 {
      var s := ToHex(n);
      assert s[..|s| - 1] == ToHex(n / 16);
      ParseHexToHex(n / 16);
    }
  }

  lemma {:induction false} ParseHexUpper(s: string)
    ensures ParseHex(ToUpper(s)) == ParseHex(s)
    decreases |s|
  {
    if s != [] {
      var u := ToUpper(s);
      assert u[..|u| - 1] == ToUpper(s[..|s| - 1]);
      ParseHexUpper(s[..|s| - 1]);
    }
  }

  lemma {:induction false} ParseHexZeroRun(k: nat)
    ensures ParseHex(Repeat('0', k)) == 0
    decreases k
  {
    if k > 0 {
      var z := Repeat('0', k);
      assert z[..|z| - 1] == Repeat('0', k - 1);
      ParseHexZeroRun(k - 1);
    }
  }

  /** Leading zeros do not change the value. */
  lemma {:induction false} ParseHexZeros(k: nat, s: string)
    ensures ParseHex(Repeat('0', k) + s) == ParseHex(s)
    decreases |s|
  {
    var z := Repeat('0', k);
    if s == [] {
      assert z + s == z;
      ParseHexZeroRun(k);
    } else {
      var t := z + s;
      assert t[..|t| - 1] == z + s[..|s| - 1];
      assert t[|t| - 1] == s[|s| - 1];
      ParseHexZeros(k, s[..|s| - 1]);
    }
  }

  /** Every placeholder decodes back to its number, so placeholders of
      different numbers differ. */
  lemma PlaceholderDecode(n: nat)
    ensures |Placeholder(n)| >= 7 && Placeholder(n)[0] == '#'
    ensures ParseHex(Placeholder(n)[1..]) == n
  {
    var h := ToHex(n);
    var p := PadStart(h, 6, '0');
    assert Placeholder(n)[1..] == ToUpper(p);
    ParseHexUpper(p);
    if |h| < 6 {
      assert p == Repeat('0', 6 - |h|) + h;
      ParseHexZeros(6 - |h|, h);
    }
    ParseHexToHex(n);
  }

  lemma PlaceholderInjective(i: nat, j: nat)
    requires i != j
    ensures Placeholder(i) != Placeholder(j)
  {
    PlaceholderDecode(i);
    PlaceholderDecode(j);
  }

  function Pow16(k: nat): nat {
    if k == 0 then 1 else 16 * Pow16(k - 1)
  }

  lemma {:induction false} ToHexLength(n: nat, k: nat)
    requires 1 <= k && n < Pow16(k)
    ensures |ToHex(n)| <= k
    decreases k
  {
    if n >= 16 {
      assert k >= 2;
      assert n / 16 < Pow16(k - 1);
      ToHexLength(n / 16, k - 1);
    }
  }

  /** A seven-character placeholder with `#` only in front. */
  predicate Shaped(p: string) {
    |p| == 7 && p[0] == '#' && '#' !in p[1..]
  }

  /** Below 16^6 colours every placeholder has exactly six digits. */
  lemma PlaceholderShaped(n: nat)
    requires n < 0x100_0000
    ensures Shaped(Placeholder(n))
  {
    assert Pow16(6) == 0x100_0000;
    ToHexLength(n, 6);
    var p := PadStart(ToHex(n), 6, '0');
    assert '#' !in p;
    assert Placeholder(n)[1..] == ToUpper(p);
  }

  /** The `mapping` of the mapper, in insertion order (the iteration order of
      a JavaScript `Map`). */
  type Mapping = seq<(string, string)>

  /** `mapping.get(key)`. */
  function Lookup(m: Mapping, key: string): (r: Option<string>)
    ensures r.None? <==> forall i :: 0 <= i < |m| ==> m[i].0 != key
    ensures r.Some? ==> exists i :: 0 <= i < |m| && m[i] == (key, r.value)
  {
    if m == [] then None else if m[0].0 == key then Some(m[0].1) else Lookup(m[1..], key)
  }

  predicate KeysDistinct(m: Mapping) {
    forall i, j :: 0 <= i < j < |m| ==> m[i].0 != m[j].0
  }

  /** The invariant of the mapper: the counter is the number of entries, and
      the `i`-th entry maps its colour to the `i`-th placeholder. */
  predicate ValidMapping(m: Mapping, counter: int) {
    counter == |m| && KeysDistinct(m) && forall i :: 0 <= i < |m| ==> m[i].1 == Placeholder(i)
  }

  /** The stored placeholders are pairwise distinct. */
  lemma ValidMappingPlaceholdersDistinct(m: Mapping, counter: int, i: int, j: int)
    requires ValidMapping(m, counter)
    requires 0 <= i < j < |m|
    ensures m[i].1 != m[j].1
  {
    PlaceholderInjective(i, j);
  }

  /** With distinct keys, the entry at `i` is what a lookup returns. */
  lemma LookupEntry(m: Mapping, i: int)
    requires KeysDistinct(m) && 0 <= i < |m|
    ensures Lookup(m, m[i].0) == Some(m[i].1)
  {
    var r := Lookup(m, m[i].0);
    var j :| 0 <= j < |m| && m[j] == (m[i].0, r.value);
    assert j == i;
  }

  /** Appending a new colour with the next placeholder keeps the invariant,
      and the colour then looks up to that placeholder. */
  lemma ValidMappingAppend(m: Mapping, color: string)
    requires ValidMapping(m, |m|) && Lookup(m, color).None?
    ensures ValidMapping(m + [(color, Placeholder(|m|))], |m| + 1)
    ensures Lookup(m + [(color, Placeholder(|m|))], color) == Some(Placeholder(|m|))
  {
    var p := Placeholder(|m|);
    KeysDistinctAppend(m, color, p);
    PlaceholdersAppend(m, color);
    LookupEntry(m + [(color, p)], |m|);
  }

  lemma KeysDistinctAppend(m: Mapping, color: string, p: string)
    requires KeysDistinct(m) && forall i :: 0 <= i < |m| ==> m[i].0 != color
    ensures KeysDistinct(m + [(color, p)])
  {
    var m' := m + [(color, p)];
    forall i, j | 0 <= i < j < |m'|
      ensures m'[i].0 != m'[j].0
    {
      assert m'[i] == m[i];
      if j < |m| {
        assert m'[j] == m[j];
      }
    }
  }

  lemma PlaceholdersAppend(m: Mapping, color: string)
    requires forall i :: 0 <= i < |m| ==> m[i].1 == Placeholder(i)
    ensures var m' := m + [(color, Placeholder(|m|))];
            forall i :: 0 <= i < |m'| ==> m'[i].1 == Placeholder(i)
  {
    var m' := m + [(color, Placeholder(|m|))];
    forall i | 0 <= i < |m'|
      ensures m'[i].1 == Placeholder(i)
    {
      if i < |m| {
        assert m'[i] == m[i];
      }
    }
  }

  /** The style rewrite of `fixNode`: for each stored pair in insertion order,
      `style = style.replaceAll(value, key)`. */
  function FixStyle(style: string, m: Mapping): string {
    if m == [] then style
    else ReplaceAll(FixStyle(style, m[..|m| - 1]), m[|m| - 1].1, m[|m| - 1].0)
  }

  /** A string without `#` is not changed by any placeholder substitution. */
  lemma {:induction false} FixStyleNoHash(s: string, m: Mapping)
    requires '#' !in s
    requires forall j :: 0 <= j < |m| ==> Shaped(m[j].1)
    ensures FixStyle(s, m) == s
    decreases |m|
  {
    if m != [] {
      FixStyleNoHash(s, m[..|m| - 1]);
      ReplaceAllAbsent(s, m[|m| - 1].1, m[|m| - 1].0);
    }
  }

  /** A shaped placeholder is not changed by replacing a different one. */
  lemma ReplaceOtherPlaceholder(pre: string, p: string, q: string, key: string)
    requires '#' !in pre && Shaped(p) && Shaped(q) && p != q
    ensures ReplaceAll(pre + p, q, key) == pre + p
  {
    ReplaceAllPrefix(pre, p, q, key);
    assert p[..|q|] == p;
    ReplaceAllAbsent(p[1..], q, key);
    assert [p[0]] + p[1..] == p;
  }

  lemma {:induction false} FixStyleOthers(pre: string, p: string, m: Mapping)
    requires '#' !in pre && Shaped(p)
    requires forall j :: 0 <= j < |m| ==> Shaped(m[j].1) && m[j].1 != p
    ensures FixStyle(pre + p, m) == pre + p
    decreases |m|
  {
    if m != [] {
      FixStyleOthers(pre, p, m[..|m| - 1]);
      ReplaceOtherPlaceholder(pre, p, m[|m| - 1].1, m[|m| - 1].0);
    }
  }

  lemma {:induction false} FixStyleRestoresAt(pre: string, m: Mapping, i: int)
    requires '#' !in pre && 0 <= i < |m|
    requires forall j :: 0 <= j < |m| ==> Shaped(m[j].1) && '#' !in m[j].0
    requires forall j :: 0 <= j < |m| && j != i ==> m[j].1 != m[i].1
    ensures FixStyle(pre + m[i].1, m) == pre + m[i].0
    decreases |m|
  {
    var init := m[..|m| - 1];
    var last := m[|m| - 1];
    if i == |m| - 1 {
      FixStyleOthers(pre, m[i].1, init);
      ReplaceAllPrefix(pre, m[i].1, last.1, last.0);
      ReplaceAllWhole(last.1, last.0);
    } else {
      FixStyleRestoresAt(pre, init, i);
      assert '#' !in pre + m[i].0;
      ReplaceAllAbsent(pre + m[i].0, last.1, last.0);
    }
  }

  /** The round trip of the mapper: a style naming the placeholder of the
      `i`-th colour reads, after `fixNode`, the original colour. This needs
      fewer than 16^6 colours (so that no placeholder is a prefix of
      another) and colours and surrounding text free of `#` (CSS variables). */
  lemma FixStyleRestores(m: Mapping, counter: int, pre: string, i: int)
    requires ValidMapping(m, counter) && |m| <= 0x100_0000
    requires forall j :: 0 <= j < |m| ==> '#' !in m[j].0
    requires '#' !in pre && 0 <= i < |m|
    ensures FixStyle(pre + Placeholder(i), m) == pre + m[i].0
  {
    forall j | 0 <= j < |m|
      ensures Shaped(m[j].1)
    {
      PlaceholderShaped(j);
    }
    forall j | 0 <= j < |m| && j != i
      ensures m[j].1 != m[i].1
    {
      PlaceholderInjective(i, j);
    }
    FixStyleRestoresAt(pre, m, i);
  }

  /** A style as the mapper sees it: plain text and placeholders, in order. */
  datatype Segment = Text(text: string) | Ph(index: nat)

  /** A segment after the first `n` substitutions of `fixNode`: a placeholder
      of one of the first `n` colours reads that colour. */
  function SegmentText(g: Segment, m: Mapping, n: nat): string {
    match g
    case Text(t) => t
    case Ph(j) => if j < n && j < |m| then m[j].0 else Placeholder(j)
  }

  function Render(gs: seq<Segment>, m: Mapping, n: nat): string
    decreases |gs|
  {
    if gs == [] then [] else SegmentText(gs[0], m, n) + Render(gs[1..], m, n)
  }

  /** Plain text free of `#`, and placeholders of stored colours only. */
  predicate SegmentsFit(gs: seq<Segment>, m: Mapping) {
    forall k :: 0 <= k < |gs| ==>
      (gs[k].Text? ==> '#' !in gs[k].text) && (gs[k].Ph? ==> gs[k].index < |m|)
  }

  /** A shaped placeholder in front is not touched by replacing another one. */
  lemma {:induction false} ReplaceAllOtherLeading(q: string, s: string, p: string, key: string)
    requires Shaped(q) && Shaped(p) && q != p
    ensures ReplaceAll(q + s, p, key) == q + ReplaceAll(s, p, key)
  {
    var k :| 0 <= k < |q| && q[k] != p[k];
    ReplaceAllUnmatchedFront(q, s, p, key, k);
  }

  /** One substitution step of `fixNode`: replacing the `n`-th placeholder by
      its colour turns the style after `n` steps into the style after `n + 1`. */
  lemma {:induction false} RenderStep(gs: seq<Segment>, m: Mapping, n: nat)
    requires SegmentsFit(gs, m) && n < |m| <= 0x100_0000
    requires forall j :: 0 <= j < |m| ==> '#' !in m[j].0
    ensures ReplaceAll(Render(gs, m, n), Placeholder(n), m[n].0) == Render(gs, m, n + 1)
    decreases |gs|
  {
    var p := Placeholder(n);
    PlaceholderShaped(n);
    if gs == [] {
      ReplaceAllShort([], p, m[n].0);
    } else {
      var rest := Render(gs[1..], m, n);
      assert SegmentsFit(gs[1..], m) by {
        forall k | 0 <= k < |gs[1..]| ensures gs[1..][k] == gs[k + 1] { }
      }
      RenderStep(gs[1..], m, n);
      match gs[0]
      case Text(t) =>
        ReplaceAllPrefix(t, rest, p, m[n].0);
      case Ph(j) =>
        if j < n {
          ReplaceAllPrefix(m[j].0, rest, p, m[n].0);
        } else if j == n {
          ReplaceAllLeading(p, rest, m[n].0);
        } else {
          PlaceholderShaped(j);
          PlaceholderInjective(j, n);
          ReplaceAllOtherLeading(Placeholder(j), rest, p, m[n].0);
        }
    }
  }

  /** The first `n` substitutions of `fixNode` restore the first `n` colours,
      wherever their placeholders stand. */
  lemma {:induction false} FixStylePrefix(gs: seq<Segment>, m: Mapping, counter: int, n: nat)
    requires ValidMapping(m, counter) && |m| <= 0x100_0000 && n <= |m|
    requires forall j :: 0 <= j < |m| ==> '#' !in m[j].0
    requires SegmentsFit(gs, m)
    ensures FixStyle(Render(gs, m, 0), m[..n]) == Render(gs, m, n)
    decreases n
  {
    if n > 0 {
      FixStylePrefix(gs, m, counter, n - 1);
      assert m[..n][..n - 1] == m[..n - 1];
      assert m[..n][n - 1] == m[n - 1];
      RenderStep(gs, m, n - 1);
    }
  }

  /** The round trip of the mapper on a whole style: text and placeholders of
      stored colours, each colour however often and in whatever order, reads
      after `fixNode` as the same text with every placeholder replaced by its
      colour. */
  lemma {:induction false} FixStyleRestoresAll(gs: seq<Segment>, m: Mapping, counter: int)
    requires ValidMapping(m, counter) && |m| <= 0x100_0000
    requires forall j :: 0 <= j < |m| ==> '#' !in m[j].0
    requires SegmentsFit(gs, m)
    ensures FixStyle(Render(gs, m, 0), m) == Render(gs, m, |m|)
    ensures forall k :: 0 <= k < |gs| && gs[k].Ph? ==> SegmentText(gs[k], m, |m|) == m[gs[k].index].0
  {
    FixStylePrefix(gs, m, counter, |m|);
    assert m[..|m|] == m;
  }

  /** A HAST node: the root, an element with its tag, its `style` property
      and its children, or a leaf (text, comment). */
  datatype HNode =
    | Root(children: seq<HNode>)
    | Element(tagName: string, style: Option<string>, children: seq<HNode>)
    | Leaf(value: string)

  /** `node.properties?.style` is truthy. */
  predicate HasStyle(n: HNode) {
    n.Element? && n.style.Some? && n.style.value != []
  }

  /** `fixNode` on an element, and the identity on anything else (the
      callers pass only elements and keep every other child as it is). */
  function FixNodeSpec(n: HNode, m: Mapping): (r: HNode)
    ensures n.Element? ==> r.Element? && r.tagName == n.tagName && |r.children| == |n.children|
    ensures n.Element? && HasStyle(n) ==> r.style == Some(FixStyle(n.style.value, m))
    ensures n.Element? && !HasStyle(n) ==> r.style == n.style
    ensures n.Element? ==> forall k :: 0 <= k < |n.children| ==> r.children[k] == FixNodeSpec(n.children[k], m)
    ensures !n.Element? ==> r == n
    decreases n
  {
    match n
    case Element(tag, style, cs) =>
      Element(tag, if HasStyle(n) then Some(FixStyle(style.value, m)) else style,
              seq(|cs|, k requires 0 <= k < |cs| => FixNodeSpec(cs[k], m)))
    case _ => n
  }

  /** The round trip on an element: a style built from text and placeholders
      of stored colours comes back with every colour restored. */
  lemma {:induction false} FixNodeRestoresStyle(n: HNode, gs: seq<Segment>, m: Mapping, counter: int)
    requires ValidMapping(m, counter) && |m| <= 0x100_0000
    requires forall j :: 0 <= j < |m| ==> '#' !in m[j].0
    requires SegmentsFit(gs, m)
    requires n.Element? && n.style == Some(Render(gs, m, 0)) && n.style.value != []
    ensures FixNodeSpec(n, m).style == Some(Render(gs, m, |m|))
  {
    FixStyleRestoresAll(gs, m, counter);
  }

  /** With nothing mapped, `fixNode` changes nothing anywhere in the tree. */
  lemma {:induction false} FixNodeEmptyMapping(n: HNode)
    ensures FixNodeSpec(n, []) == n
    decreases n
  {
    match n
    case Element(tag, style, cs) =>
      forall k | 0 <= k < |cs|
        ensures FixNodeSpec(cs[k], []) == cs[k]
      {
        FixNodeEmptyMapping(cs[k]);
      }
    case _ =>
  }

  /** `fixAST`, on values: the children of the root are fixed only for the
      built-in theme. */
  function FixASTSpec(theme: string, ast: HNode, m: Mapping): (r: HNode)
    requires !ast.Leaf?
    ensures theme != "obsidian-theme" ==> r == ast
    ensures !r.Leaf? && r.Root? == ast.Root? && |r.children| == |ast.children|
    ensures r == ast.(children := r.children)
    ensures theme == "obsidian-theme" ==>
              forall k :: 0 <= k < |ast.children| ==> r.children[k] == FixNodeSpec(ast.children[k], m)
    ensures theme == "obsidian-theme" ==>
              forall k :: 0 <= k < |ast.children| && !ast.children[k].Element? ==> r.children[k] == ast.children[k]
  {
    if theme != "obsidian-theme" then ast
    else ast.(children := seq(|ast.children|, k requires 0 <= k < |ast.children| => FixNodeSpec(ast.children[k], m)))
  }

  /** Which theme `getTheme`/`getThemeForEC` hand to the highlighter. */
  datatype ThemeSource = Custom(theme: Option<CustomTheme>) | Bundled(name: string) | Builtin

  /** `customThemes.find(theme => theme.name === name)`. */
  function FindTheme(ts: seq<CustomTheme>, name: string): (r: Option<CustomTheme>)
    ensures r.None? <==> forall i :: 0 <= i < |ts| ==> ts[i].name != name
    ensures r.Some? ==> exists i :: 0 <= i < |ts| && ts[i] == r.value && r.value.name == name &&
                                    forall j :: 0 <= j < i ==> ts[j].name != name
  {
    if ts == [] then None
    else if ts[0].name == name then Some(ts[0])
    else
      var r := FindTheme(ts[1..], name);
      if r.Some? then
        var i :| 0 <= i < |ts[1..]| && ts[1..][i] == r.value && r.value.name == name &&
                 forall j :: 0 <= j < i ==> ts[1..][j].name != name;
        assert ts[i + 1] == r.value;
        r
      else r
  }

  /** `getTheme`: a `.json` setting selects a custom theme, any other name but
      `obsidian-theme` a bundled theme, and `obsidian-theme` the built-in one. */
  function GetTheme(theme: string, customThemes: seq<CustomTheme>): (r: ThemeSource)
    ensures r.Custom? <==> UsesCustomTheme(theme)
    ensures r.Custom? ==> r.theme == FindTheme(customThemes, theme)
    ensures r.Bundled? <==> !UsesCustomTheme(theme) && theme != "obsidian-theme"
    ensures r.Bundled? ==> r.name == theme
    ensures r.Builtin? <==> theme == "obsidian-theme"
  {
    if UsesCustomTheme(theme) then Custom(FindTheme(customThemes, theme))
    else if theme != "obsidian-theme" then Bundled(theme)
    else Builtin
  }

  /** The theme state: the counter and the colour-to-placeholder map. */
  class Mapper {
    var mapCounter: int
    var mapping: Mapping

    ghost predicate Valid()
      reads this
    {
      ValidMapping(mapping, mapCounter)
    }

    constructor()
      ensures Valid() && mapCounter == 0 && mapping == []
    {
      mapCounter := 0;
      mapping := [];
    }

    /** `mapColor`: a colour seen before gets its stored placeholder back and
        nothing changes; a new colour gets the next placeholder. */
    method MapColor(color: string) returns (r: string)
      requires Valid()
      modifies this
      ensures Valid()
      ensures Lookup(mapping, color) == Some(r)
      ensures Lookup(old(mapping), color).Some? ==>
                r == Lookup(old(mapping), color).value && mapping == old(mapping) && mapCounter == old(mapCounter)
      ensures Lookup(old(mapping), color).None? ==>
                r == Placeholder(old(mapCounter)) && mapping == old(mapping) + [(color, r)] &&
                mapCounter == old(mapCounter) + 1
    {
      var stored := Lookup(mapping, color);
      if stored.Some? {
        return stored.value;
      }
      r := Placeholder(mapCounter);
      ValidMappingAppend(mapping, color);
      mapCounter := mapCounter + 1;
      mapping := mapping + [(color, r)];
    }

    /** `fixNode`: rewrites the style of an element and of every element
        below it. */
    method FixNode(node: HNode) returns (r: HNode)
      requires node.Element?
      ensures r == FixNodeSpec(node, mapping)
      decreases node
    {
      var style := node.style;
      if HasStyle(node) {
        var s := node.style.value;
        for k := 0 to |mapping|
          invariant s == FixStyle(node.style.value, mapping[..k])
        {
          assert mapping[..k + 1][..k] == mapping[..k];
          s := ReplaceAll(s, mapping[k].1, mapping[k].0);
        }
        assert mapping[..|mapping|] == mapping;
        style := Some(s);
      }
      var children: seq<HNode> := [];
      for k := 0 to |node.children|
        invariant |children| == k
        invariant forall j :: 0 <= j < k ==> children[j] == FixNodeSpec(node.children[j], mapping)
      {
        var child := node.children[k];
        if child.Element? {
          child := FixNode(child);
        }
        children := children + [child];
      }
      r := Element(node.tagName, style, children);
    }

    /** `fixAST`. */
    method FixAST(theme: string, ast: HNode) returns (r: HNode)
      requires !ast.Leaf?
      ensures r == FixASTSpec(theme, ast, mapping)
    {
      if theme != "obsidian-theme" {
        return ast;
      }
      var children: seq<HNode> := [];
      for k := 0 to |ast.children|
        invariant |children| == k
        invariant forall j :: 0 <= j < k ==> children[j] == FixNodeSpec(ast.children[j], mapping)
      {
        var child := ast.children[k];
        if child.Element? {
          child := FixNode(child);
        }
        children := children + [child];
      }
      r := ast.(children := children);
    }

    /** `getThemeForEC`: like `getTheme`, except that for the built-in theme
        every colour of the colour table and then every truthy token
        foreground is passed through `mapColor`. */
    method GetThemeForEC(theme: string, customThemes: seq<CustomTheme>,
                         colors: seq<(string, string)>, foregrounds: seq<Option<string>>)
      returns (source: ThemeSource, mappedColors: seq<(string, string)>, mappedForegrounds: seq<Option<string>>)
      requires Valid()
      modifies this
      ensures Valid() && old(mapping) <= mapping
      ensures source == GetTheme(theme, customThemes)
      ensures !source.Builtin? ==> mapping == old(mapping) && mapCounter == old(mapCounter)
      ensures source.Builtin? ==> ColorsMapped(colors, mappedColors, mapping) && ForegroundsMapped(foregrounds, mappedForegrounds, mapping)
    {
      source := GetTheme(theme, customThemes);
      mappedColors := [];
      mappedForegrounds := [];
      if !source.Builtin? {
        return;
      }
      mappedColors := MapColors(colors);
      ghost var afterColors := mapping;
      mappedForegrounds := MapForegrounds(foregrounds);
      LookupPreserved(afterColors, mapping, colors);
    }

    /** The `colors` table of the built-in theme, entry by entry. */
    method MapColors(colors: seq<(string, string)>) returns (mapped: seq<(string, string)>)
      requires Valid()
      modifies this
      ensures Valid() && old(mapping) <= mapping
      ensures ColorsMapped(colors, mapped, mapping)
    {
      mapped := [];
      for k := 0 to |colors|
        invariant Valid() && old(mapping) <= mapping
        invariant ColorsMapped(colors[..k], mapped, mapping)
      {
        ghost var before := mapping;
        var c := MapColor(colors[k].1);
        ColorsMappedStep(colors, k, mapped, before, mapping, c);
        mapped := mapped + [(colors[k].0, c)];
      }
      assert colors[..|colors|] == colors;
    }

    /** The token foregrounds of the built-in theme, one by one. */
    method MapForegrounds(foregrounds: seq<Option<string>>) returns (mapped: seq<Option<string>>)
      requires Valid()
      modifies this
      ensures Valid() && old(mapping) <= mapping
      ensures ForegroundsMapped(foregrounds, mapped, mapping)
    {
      mapped := [];
      for k := 0 to |foregrounds|
        invariant Valid() && old(mapping) <= mapping
        invariant ForegroundsMapped(foregrounds[..k], mapped, mapping)
      {
        ghost var before := mapping;
        var f := foregrounds[k];
        if f.Some? && f.value != [] {
          var c := MapColor(f.value);
          f := Some(c);
        }
        ForegroundsMappedStep(foregrounds, k, mapped, before, mapping, f);
        mapped := mapped + [f];
      }
      assert foregrounds[..|foregrounds|] == foregrounds;
    }
  }

  /** Every colour of the table is replaced by its stored placeholder. */
  predicate ColorsMapped(colors: seq<(string, string)>, mapped: seq<(string, string)>, m: Mapping) {
    |mapped| == |colors| &&
    forall i :: 0 <= i < |colors| ==> mapped[i].0 == colors[i].0 && Lookup(m, colors[i].1) == Some(mapped[i].1)
  }

  /** Every truthy foreground is replaced by its stored placeholder; the
      others are kept. */
  predicate ForegroundsMapped(fs: seq<Option<string>>, mapped: seq<Option<string>>, m: Mapping) {
    |mapped| == |fs| &&
    forall i :: 0 <= i < |fs| ==>
      if fs[i].Some? && fs[i].value != [] then Lookup(m, fs[i].value) == mapped[i] && mapped[i].Some?
      else mapped[i] == fs[i]
  }

  lemma ColorsMappedStep(colors: seq<(string, string)>, k: int, mapped: seq<(string, string)>, m: Mapping, m': Mapping, c: string)
    requires 0 <= k < |colors|
    requires ColorsMapped(colors[..k], mapped, m)
    requires KeysDistinct(m') && m <= m' && Lookup(m', colors[k].1) == Some(c)
    ensures ColorsMapped(colors[..k + 1], mapped + [(colors[k].0, c)], m')
  {
    LookupPreserved(m, m', colors[..k]);
  }

  lemma ForegroundsMappedStep(fs: seq<Option<string>>, k: int, mapped: seq<Option<string>>, m: Mapping, m': Mapping, f: Option<string>)
    requires 0 <= k < |fs|
    requires ForegroundsMapped(fs[..k], mapped, m)
    requires KeysDistinct(m') && m <= m'
    requires if fs[k].Some? && fs[k].value != [] then Lookup(m', fs[k].value) == f && f.Some? else f == fs[k]
    ensures ForegroundsMapped(fs[..k + 1], mapped + [f], m')
  {
    LookupPreservedOpt(m, m', fs[..k]);
  }

  /** Extending a mapping keeps every earlier answer. */
  lemma LookupExtends(m: Mapping, m': Mapping, key: string)
    requires KeysDistinct(m') && m <= m'
    requires Lookup(m, key).Some?
    ensures Lookup(m', key) == Lookup(m, key)
  {
    var i :| 0 <= i < |m| && m[i] == (key, Lookup(m, key).value);
    assert m'[i] == m[i];
    LookupEntry(m', i);
  }

  lemma LookupPreserved(m: Mapping, m': Mapping, cs: seq<(string, string)>)
    requires KeysDistinct(m') && m <= m'
    ensures forall i :: 0 <= i < |cs| && Lookup(m, cs[i].1).Some? ==> Lookup(m', cs[i].1) == Lookup(m, cs[i].1)
  {
    forall i | 0 <= i < |cs| && Lookup(m, cs[i].1).Some?
      ensures Lookup(m', cs[i].1) == Lookup(m, cs[i].1)
    {
      LookupExtends(m, m', cs[i].1);
    }
  }

  lemma LookupPreservedOpt(m: Mapping, m': Mapping, fs: seq<Option<string>>)
    requires KeysDistinct(m') && m <= m'
    ensures forall i :: 0 <= i < |fs| && fs[i].Some? && Lookup(m, fs[i].value).Some? ==>
              Lookup(m', fs[i].value) == Lookup(m, fs[i].value)
  {
    forall i | 0 <= i < |fs| && fs[i].Some? && Lookup(m, fs[i].value).Some?
      ensures Lookup(m', fs[i].value) == Lookup(m, fs[i].value)
    {
      LookupExtends(m, m', fs[i].value);
    }
  }
}
