/** The CodeMirror 6 view plugin of the editor (src/codemirror/Cm6_ViewPlugin.ts):
    a single pass over the syntax nodes of the document that highlights
    inline code of the form `{lang} code` and fenced code blocks by keeping a
    store of decorations up to date.

    The store is modelled as a sequence of decorations. CodeMirror's
    `RangeSet` is not part of this model: both its `between` query and the
    `filterFrom`/`filterTo` window of its `update` are taken to select the
    decorations whose closed range overlaps the queried one (the test of
    `checkRangeOverlap`), and the sorting it does on insertion is not
    modelled. */
module ViewPlugin {
  import opened Wrappers
  import opened JsString
  import opened Cm6Util
  import opened Highlighter

  /** A syntax node of the Markdown parser: its type name (absent names give
      no tags) and its range. */
  datatype Node = Node(name: Option<string>, from: int, to: int)

  /** `new Set(node.type.name?.split('_'))`, as a sequence. */
  function Tags(n: Node): seq<string> {
    match n.name
    case None => []
    case Some(s) => Split(s, '_')
  }

  predicate HasTag(n: Node, tag: string) {
    tag in Tags(n)
  }

  /** What a pass sees of the editor. `inlineMatch` is the inline pattern
      `SHIKI_INLINE_REGEX`, whose definition is not part of this model: it
      yields the language and the code of a `{lang} code` span. `tokenize` is
      Shiki's tokenizer, taken to answer synchronously, and `safeLanguages`
      the result of `obsidianSafeLanguageNames`. */
  datatype Env = Env(
    doc: string,
    selection: seq<SelRange>,
    inlineHighlighting: bool,
    livePreview: bool,
    inlineMatch: string -> Option<(string, string)>,
    tokenize: Tokenizer,
    safeLanguages: seq<string>)

  /** `tokens.flat(1)`. */
  function Flatten(lines: seq<seq<Token>>): (r: seq<Token>)
    ensures lines == [] ==> r == []
  {
    if lines == [] then [] else lines[0] + Flatten(lines[1..])
  }

  lemma {:induction false} FlattenLength(lines: seq<seq<Token>>)
    ensures |Flatten(lines)| == if lines == [] then 0 else |lines[0]| + |Flatten(lines[1..])|
  {
  }

  /** The mark drawn over a token: its inline style and its class attribute. */
  function TokenKind(t: Token): Kind {
    Mark(GetTokenStyle(t).style, ClassAttribute(t))
  }

  /** The mark of the `i`-th token: from its offset to the next token's
      offset, the last one to `to`. */
  function TokenMark(toks: seq<Token>, i: int, from: int, to: int): Decoration
    requires 0 <= i < |toks|
  {
    Decoration(from + toks[i].offset, if i + 1 < |toks| then from + toks[i + 1].offset else to, TokenKind(toks[i]))
  }

  /** The marks of a token list, one per token in token order. */
  function Marks(toks: seq<Token>, from: int, to: int): (r: seq<Decoration>)
    ensures |r| == |toks|
    ensures forall i :: 0 <= i < |r| ==> r[i] == TokenMark(toks, i, from, to)
  {
    seq(|toks|, i requires 0 <= i < |toks| => TokenMark(toks, i, from, to))
  }

  /** Each mark starts at its token's offset, adjacent marks abut and the last one ends at `to`. */
  lemma MarksAbut(toks: seq<Token>, from: int, to: int)
    ensures var r := Marks(toks, from, to);
            && (forall i {:trigger r[i]} :: 0 <= i < |r| ==> r[i].from == from + toks[i].offset)
            && (forall i, j :: 0 <= i && j == i + 1 && j < |r| ==> r[i].to == r[j].from)
            && (r != [] ==> r[|r| - 1].to == to)
  {
    var r := Marks(toks, from, to);
    forall i | 0 <= i < |r|
      ensures r[i].from == from + toks[i].offset
    {
      assert r[i] == TokenMark(toks, i, from, to);
    }
    forall i, j | 0 <= i && j == i + 1 && j < |r|
      ensures r[i].to == r[j].from
    {
      assert r[i] == TokenMark(toks, i, from, to);
      assert r[j] == TokenMark(toks, j, from, to);
    }
    if r != [] {
      assert r[|r| - 1] == TokenMark(toks, |r| - 1, from, to);
    }
  }

  /** What `buildDecorations` computes when the tokenizer answers. */
  function BuildSpec(env: Env, from: int, to: int, language: string, content: string): (r: seq<Decoration>)
    ensures language == "" ==> r == []
    ensures GetHighlightTokens(env.safeLanguages, env.tokenize, content, language).None? ==> r == []
    ensures language !in env.safeLanguages ==> r == []
    ensures forall i :: 0 <= i < |r| ==> r[i].kind.Mark?
  {
    if language == "" then []
    else match GetHighlightTokens(env.safeLanguages, env.tokenize, content, language)
      case None => []
      case Some(lines) => Marks(Flatten(lines), from, to)
  }

  /** With tokens available, one mark per flattened token, abutting, the
      first starting at the first token's offset and the last ending at `to`. */
  lemma BuildSpecTokens(env: Env, from: int, to: int, language: string, content: string)
    requires language != ""
    requires GetHighlightTokens(env.safeLanguages, env.tokenize, content, language).Some?
    ensures var toks := Flatten(GetHighlightTokens(env.safeLanguages, env.tokenize, content, language).value);
            var r := BuildSpec(env, from, to, language, content);
            && |r| == |toks|
            && (forall i {:trigger r[i]} :: 0 <= i < |r| ==> r[i].from == from + toks[i].offset && r[i].kind == TokenKind(toks[i]))
            && (forall i, j :: 0 <= i && j == i + 1 && j < |r| ==> r[i].to == r[j].from)
            && (r != [] ==> r[|r| - 1].to == to)
  {
    var toks := Flatten(GetHighlightTokens(env.safeLanguages, env.tokenize, content, language).value);
    MarksAbut(toks, from, to);
  }

  /** `removeDecoration`: the store without the decorations touching
      `[from, to]`, the others kept in order. */
  function RemoveBetween(decos: seq<Decoration>, from: int, to: int): (r: seq<Decoration>)
    ensures forall d :: d in r <==> d in decos && !Touches(d, from, to)
    ensures !AnyTouches(r, from, to)
    ensures SubsequenceOf(r, decos)
    ensures |r| <= |decos|
  {
    if decos == [] then []
    else if Touches(decos[0], from, to) then RemoveBetween(decos[1..], from, to)
    else [decos[0]] + RemoveBetween(decos[1..], from, to)
  }

  /** `addDecoration`: nothing happens if a stored decoration touches
      `[from, to]` or the new list is empty; otherwise the new list is added. */
  function AddSpec(decos: seq<Decoration>, from: int, to: int, newDecos: seq<Decoration>): (r: seq<Decoration>)
    ensures AnyTouches(decos, from, to) ==> r == decos
    ensures newDecos == [] ==> r == decos
    ensures !AnyTouches(decos, from, to) && newDecos != [] ==> r == decos + newDecos
  {
    if AnyTouches(decos, from, to) || |newDecos| == 0 then decos else decos + newDecos
  }

  /** Removing and then adding over the same range replaces exactly the
      decorations of that range by the new ones, and keeps the rest. */
  lemma RemoveThenAdd(decos: seq<Decoration>, from: int, to: int, newDecos: seq<Decoration>)
    ensures AddSpec(RemoveBetween(decos, from, to), from, to, newDecos) == RemoveBetween(decos, from, to) + newDecos
    ensures forall d :: d in AddSpec(RemoveBetween(decos, from, to), from, to, newDecos) && Touches(d, from, to) <==>
                        d in newDecos && Touches(d, from, to)
    ensures forall d :: !Touches(d, from, to) ==>
                        (d in AddSpec(RemoveBetween(decos, from, to), from, to, newDecos) <==> d in decos || d in newDecos)
  {
  }

  /** `content.match(/^```(\S+)/)?.[1] ?? ''`: the non-space run right after
      three backticks. */
  function FenceLanguage(content: string): (r: string)
    ensures NoWs(r)
    ensures r != [] ==> StartsWith(content, "```" + r) && (3 + |r| == |content| || IsWs(content[3 + |r|]))
    ensures r == [] <==> !StartsWith(content, "```") || |content| == 3 || IsWs(content[3])
  {
    if StartsWith(content, "```") then
      var rest := content[3..];
      var n := WordLen(rest);
      assert ("```" + rest[..n])[..3 + n] == content[..3 + n];
      rest[..n]
    else []
  }

  /** The inline-code branch of `updateWidgets`. */
  function InlineStep(env: Env, decos: seq<Decoration>, node: Node): seq<Decoration> {
    var content := GetContent(env.doc, node.from, node.to);
    if StartsWith(content, "{") && env.inlineHighlighting then
      match env.inlineMatch(content)
      case None => decos
      case Some(m) => InlineMatched(env, decos, node, m.0, m.1)
    else RemoveBetween(decos, node.from, node.to)
  }

  /** The range `[from, from + |lang| + 3)` that hides the `{lang} ` tag. */
  function TagRange(node: Node, lang: string): Decoration {
    Decoration(node.from, node.from + |lang| + 3, Replace)
  }

  /** `checkSelectionAndRangeOverlap(selection, from - 1, to + 1)`. */
  predicate SelectedAround(env: Env, node: Node) {
    SelectionOverlaps(env.selection, node.from - 1, node.to + 1)
  }

  /** Inline code matching `{lang} code`. */
  function InlineMatched(env: Env, decos: seq<Decoration>, node: Node, lang: string, code: string): seq<Decoration> {
    AddSpec(RemoveBetween(InlineFirstRemoval(env, decos, node), node.from, node.to), node.from, node.to,
            InlineAdded(env, node, lang, code))
  }

  /** The removal done first when the selection is around the node. */
  function InlineFirstRemoval(env: Env, decos: seq<Decoration>, node: Node): seq<Decoration> {
    if SelectedAround(env, node) then RemoveBetween(decos, node.from, node.to) else decos
  }

  /** The decorations added for inline code: the marks of the code, after
      the hidden tag in live preview when the selection is not around it. */
  function InlineAdded(env: Env, node: Node, lang: string, code: string): seq<Decoration> {
    var built := BuildSpec(env, node.from + |lang| + 3, node.to, lang, code);
    if env.livePreview && !SelectedAround(env, node) then [TagRange(node, lang)] + built else built
  }

  /** Inline code without `{`, or seen with inline highlighting off, loses
      every decoration over its range. */
  lemma InlinePlainRemoves(env: Env, decos: seq<Decoration>, node: Node)
    requires !StartsWith(GetContent(env.doc, node.from, node.to), "{") || !env.inlineHighlighting
    ensures InlineStep(env, decos, node) == RemoveBetween(decos, node.from, node.to)
    ensures !AnyTouches(InlineStep(env, decos, node), node.from, node.to)
  {
  }

  /** Inline code starting with `{` that the pattern rejects is left alone. */
  lemma InlineNoMatchUnchanged(env: Env, decos: seq<Decoration>, node: Node)
    requires StartsWith(GetContent(env.doc, node.from, node.to), "{") && env.inlineHighlighting
    requires env.inlineMatch(GetContent(env.doc, node.from, node.to)).None?
    ensures InlineStep(env, decos, node) == decos
  {
  }

  /** On a match, the decorations over the node are exactly the highlight
      marks, preceded by the range hiding `{lang} ` if and only if the editor
      is in live preview and no selection overlaps `[from - 1, to + 1]`. */
  lemma InlineMatchResult(env: Env, decos: seq<Decoration>, node: Node, lang: string, code: string)
    requires node.from <= node.to
    requires StartsWith(GetContent(env.doc, node.from, node.to), "{") && env.inlineHighlighting
    requires env.inlineMatch(GetContent(env.doc, node.from, node.to)) == Some((lang, code))
    ensures var built := BuildSpec(env, node.from + |lang| + 3, node.to, lang, code);
            var r := InlineStep(env, decos, node);
            && (TagRange(node, lang) in r <==> env.livePreview && !SelectedAround(env, node))
            && (forall d :: d in r && Touches(d, node.from, node.to) ==> d in built || d == TagRange(node, lang))
            && (forall d :: d in built ==> d in r)
  {
    InlineMatchedResult(env, decos, node, lang, code);
  }

  lemma InlineMatchedResult(env: Env, decos: seq<Decoration>, node: Node, lang: string, code: string)
    requires node.from <= node.to
    ensures var built := BuildSpec(env, node.from + |lang| + 3, node.to, lang, code);
            var r := InlineMatched(env, decos, node, lang, code);
            && (TagRange(node, lang) in r <==> env.livePreview && !SelectedAround(env, node))
            && (forall d :: d in r && Touches(d, node.from, node.to) ==> d in built || d == TagRange(node, lang))
            && (forall d :: d in built ==> d in r)
  {
    var overlap := SelectedAround(env, node);
    var built := BuildSpec(env, node.from + |lang| + 3, node.to, lang, code);
    var d2 := RemoveBetween(InlineFirstRemoval(env, decos, node), node.from, node.to);
    var added := InlineAdded(env, node, lang, code);
    assert added == if env.livePreview && !overlap then [TagRange(node, lang)] + built else built;
    AddedAfterRemoval(d2, node.from, node.to, added);
    assert InlineMatched(env, decos, node, lang, code) == d2 + added;
    InlineMatchedPieces(d2, built, added, d2 + added, TagRange(node, lang), node.from, node.to, env.livePreview && !overlap);
  }

  lemma InlineMatchedPieces(d2: seq<Decoration>, built: seq<Decoration>, added: seq<Decoration>, r: seq<Decoration>,
                            tag: Decoration, from: int, to: int, showTag: bool)
    requires !AnyTouches(d2, from, to) && Touches(tag, from, to) && tag.kind.Replace?
    requires forall i :: 0 <= i < |built| ==> built[i].kind.Mark?
    requires added == if showTag then [tag] + built else built
    requires r == d2 + added
    ensures tag in r <==> showTag
    ensures forall d :: d in r && Touches(d, from, to) ==> d in built || d == tag
    ensures forall d :: d in built ==> d in r
  {
    assert tag !in d2;
  }

  lemma InlineStepMatched(env: Env, decos: seq<Decoration>, node: Node, lang: string, code: string)
    requires StartsWith(GetContent(env.doc, node.from, node.to), "{") && env.inlineHighlighting
    requires env.inlineMatch(GetContent(env.doc, node.from, node.to)) == Some((lang, code))
    ensures InlineStep(env, decos, node) == InlineMatched(env, decos, node, lang, code)
  {
  }

  /** After a removal over `[from, to]` an addition over it always happens. */
  lemma AddedAfterRemoval(d: seq<Decoration>, from: int, to: int, added: seq<Decoration>)
    requires !AnyTouches(d, from, to)
    ensures AddSpec(d, from, to, added) == d + added
    ensures forall x :: x in AddSpec(d, from, to, added) && Touches(x, from, to) ==> x in added
  {
  }

  /** The per-block accumulator of `updateWidgets` and the store. */
  datatype ScanState = ScanState(decos: seq<Decoration>, lang: string, lines: seq<Node>)

  /** The block-end branch: highlight the accumulated lines when there are
      some and the language is known. */
  function BlockEnd(env: Env, decos: seq<Decoration>, lang: string, lines: seq<Node>): seq<Decoration> {
    if |lines| > 0 && lang != "" then
      var start := lines[0].from;
      var end := lines[|lines| - 1].to;
      var built := BuildSpec(env, start, end, lang, GetContent(env.doc, start, end));
      AddSpec(RemoveBetween(decos, start, end), start, end, built)
    else decos
  }

  predicate IsBlockLine(n: Node) {
    HasTag(n, "HyperMD-codeblock") && !HasTag(n, "HyperMD-codeblock-begin") && !HasTag(n, "HyperMD-codeblock-end")
  }

  /** One node of the pass. */
  function Step(env: Env, docChanged: bool, st: ScanState, node: Node): ScanState {
    if HasTag(node, "formatting") then st
    else if HasTag(node, "inline-code") then st.(decos := InlineStep(env, st.decos, node))
    else if !docChanged then st
    else if IsBlockLine(node) then st.(lines := st.lines + [node])
    else
      var st1 := if HasTag(node, "HyperMD-codeblock-begin")
                 then st.(lang := FenceLanguage(GetContent(env.doc, node.from, node.to))) else st;
      if HasTag(node, "HyperMD-codeblock-end") then ScanState(BlockEnd(env, st1.decos, st1.lang, st1.lines), "", [])
      else st1
  }

  /** The pass over the nodes in document order. */
  function Scan(env: Env, docChanged: bool, st: ScanState, nodes: seq<Node>): ScanState {
    if nodes == [] then st else Step(env, docChanged, Scan(env, docChanged, st, nodes[..|nodes| - 1]), nodes[|nodes| - 1])
  }

  /** Nodes tagged `formatting` are always skipped. */
  lemma FormattingSkipped(env: Env, docChanged: bool, st: ScanState, node: Node)
    requires HasTag(node, "formatting")
    ensures Step(env, docChanged, st, node) == st
  {
  }

  /** At a block end, the accumulator is reset whatever happens; with lines
      and a language, the decorations over `[first.from, last.to]` are then
      exactly the built marks, and all other decorations are kept. */
  lemma BlockEndResult(env: Env, st: ScanState, node: Node)
    requires HasTag(node, "HyperMD-codeblock-end")
    requires !HasTag(node, "formatting") && !HasTag(node, "inline-code")
    ensures Step(env, true, st, node).lang == "" && Step(env, true, st, node).lines == []
    ensures var lang := if HasTag(node, "HyperMD-codeblock-begin")
                        then FenceLanguage(GetContent(env.doc, node.from, node.to)) else st.lang;
            |st.lines| > 0 && lang != "" ==>
              var start := st.lines[0].from;
              var end := st.lines[|st.lines| - 1].to;
              var built := BuildSpec(env, start, end, lang, GetContent(env.doc, start, end));
              var r := Step(env, true, st, node).decos;
              && r == RemoveBetween(st.decos, start, end) + built
              && (forall d :: d in r && Touches(d, start, end) <==> d in built && Touches(d, start, end))
              && (forall d :: !Touches(d, start, end) ==> (d in r <==> d in st.decos || d in built))
  {
    var lang := if HasTag(node, "HyperMD-codeblock-begin")
                then FenceLanguage(GetContent(env.doc, node.from, node.to)) else st.lang;
    if |st.lines| > 0 && lang != "" {
      var start := st.lines[0].from;
      var end := st.lines[|st.lines| - 1].to;
      var built := BuildSpec(env, start, end, lang, GetContent(env.doc, start, end));
      RemoveThenAdd(st.decos, start, end, built);
    }
  }

  /** A selection-only update (`docChanged` false) changes nothing but what
      inline-code nodes touch: a pass over nodes without inline code leaves
      the store and the accumulator as they were. */
  lemma {:induction false} SelectionPassIgnoresBlocks(env: Env, st: ScanState, nodes: seq<Node>)
    requires forall i :: 0 <= i < |nodes| ==> !HasTag(nodes[i], "inline-code")
    ensures Scan(env, false, st, nodes) == st
  {
    if nodes != [] {
      SelectionPassIgnoresBlocks(env, st, nodes[..|nodes| - 1]);
    }
  }

  /** A pass over inline code only is the same whether or not the document
      changed. */
  lemma {:induction false} InlineOnlyPassIgnoresDocChanged(env: Env, st: ScanState, nodes: seq<Node>)
    requires forall i :: 0 <= i < |nodes| ==> HasTag(nodes[i], "inline-code")
    ensures Scan(env, false, st, nodes) == Scan(env, true, st, nodes)
  {
    if nodes != [] {
      InlineOnlyPassIgnoresDocChanged(env, st, nodes[..|nodes| - 1]);
    }
  }

  /** `buildDecorations` as written: `getHighlightTokens` is `async`, so
      without `await` it returns a promise, which is truthy and has no
      `tokens` field; `highlight.tokens.flat(1)` then throws a `TypeError`
      for every non-empty language. */
  function BuildDecorationsAsWritten(language: string): (r: Result<seq<Decoration>>)
    ensures language != "" ==> r.Err?
    ensures language == "" ==> r == Ok([])
  {
    if language == "" then Ok([]) else Err("TypeError: highlight.tokens is undefined")
  }

  /** The block-end branch as written: the error is caught and logged, so the
      store is left as it was. */
  function BlockEndAsWritten(decos: seq<Decoration>, lang: string, lines: seq<Node>): (r: seq<Decoration>)
    ensures r == decos
  {
    if |lines| > 0 && lang != "" then
      var start := lines[0].from;
      var end := lines[|lines| - 1].to;
      match BuildDecorationsAsWritten(lang)
      case Err(_) => decos
      case Ok(built) => AddSpec(RemoveBetween(decos, start, end), start, end, built)
    else decos
  }

  /** The inline branch as written: on a match with a language, the error
      thrown before the second removal leaves the store as it was after the
      optional first removal, so no mark is ever added. */
  function InlineStepAsWritten(env: Env, decos: seq<Decoration>, node: Node): (r: seq<Decoration>)
    ensures forall d :: d in r && d.kind.Mark? ==> d in decos
  {
    var content := GetContent(env.doc, node.from, node.to);
    if StartsWith(content, "{") && env.inlineHighlighting then
      match env.inlineMatch(content)
      case None => decos
      case Some(m) =>
        var overlap := SelectionOverlaps(env.selection, node.from - 1, node.to + 1);
        var d1 := if overlap then RemoveBetween(decos, node.from, node.to) else decos;
        var hideTo := node.from + |m.0| + 3;
        match BuildDecorationsAsWritten(m.0)
        case Err(_) => d1
        case Ok(built) =>
          var d2 := RemoveBetween(d1, node.from, node.to);
          var added := if env.livePreview && !overlap then [Decoration(node.from, hideTo, Replace)] + built else built;
          AddSpec(d2, node.from, node.to, added)
    else RemoveBetween(decos, node.from, node.to)
  }

  /** A Python block whose tokenizer yields one token: the awaited tokenizer
      highlights it, the code as written does not. */
  lemma AwaitFindingExample()
    ensures var tok := Token("x", 0, Some("#FFFFFF"), None);
            var env := Env("```python\nx\n```", [], true, true, (s: string) => None,
                           (c: string, l: string) => Some([[tok]]), ["python"]);
            var lines := [Node(Some("HyperMD-codeblock_HyperMD-codeblock-bg"), 10, 11)];
            && BlockEndAsWritten([], "python", lines) == []
            && BlockEnd(env, [], "python", lines) == [Decoration(10, 11, Mark("color: #FFFFFF", ""))]
  {
    var tok := Token("x", 0, Some("#FFFFFF"), None);
    var env := Env("```python\nx\n```", [], true, true, (s: string) => None,
                   (c: string, l: string) => Some([[tok]]), ["python"]);
    var content := GetContent(env.doc, 10, 11);
    assert GetHighlightTokens(env.safeLanguages, env.tokenize, content, "python") == Some([[tok]]);
    assert Flatten([[tok]]) == [tok] + Flatten([]);
    assert GetTokenStyle(tok).classes == [];
    assert ClassAttribute(tok) == [];
    assert GetTokenStyle(tok).style == "color: #FFFFFF";
    var marks := Marks([tok], 10, 11);
    assert marks[0] == Decoration(10, 11, Mark("color: #FFFFFF", ""));
    var built := BuildSpec(env, 10, 11, "python", content);
    assert built == marks;
    assert !AnyTouches([], 10, 11);
  }

  /** The plugin instance: its decoration store. */
  class Cm6ViewPlugin {
    var decorations: seq<Decoration>

    /** The constructor starts from an empty store and runs a full pass. */
    constructor(env: Env, nodes: seq<Node>)
      ensures decorations == Scan(env, true, ScanState([], "", []), nodes).decos
    {
      decorations := [];
      new;
      UpdateWidgets(env, true, nodes);
    }

    /** `update`: the store is first mapped through the changes (an abstract
        function here), then a pass runs if the document or the selection
        changed. */
    method Update(mapChanges: seq<Decoration> -> seq<Decoration>, docChanged: bool, selectionSet: bool,
                  env: Env, nodes: seq<Node>)
      modifies this
      ensures docChanged || selectionSet ==>
                decorations == Scan(env, docChanged, ScanState(mapChanges(old(decorations)), "", []), nodes).decos
      ensures !docChanged && !selectionSet ==> decorations == mapChanges(old(decorations))
    {
      decorations := mapChanges(decorations);
      if docChanged || selectionSet {
        UpdateWidgets(env, docChanged, nodes);
      }
    }

    /** `forceUpdate`: a full pass (the dispatch that follows is not modelled). */
    method ForceUpdate(env: Env, nodes: seq<Node>)
      modifies this
      ensures decorations == Scan(env, true, ScanState(old(decorations), "", []), nodes).decos
    {
      UpdateWidgets(env, true, nodes);
    }

    /** `destroy`. */
    method Destroy()
      modifies this
      ensures decorations == []
    {
      decorations := [];
    }

    /** `updateWidgets`: the pass over the nodes, with the accumulator `lang`
        and `state` in local variables. */
    method UpdateWidgets(env: Env, docChanged: bool, nodes: seq<Node>)
      modifies this
      ensures decorations == Scan(env, docChanged, ScanState(old(decorations), "", []), nodes).decos
    {
      var lang := "";
      var state: seq<Node> := [];
      for i := 0 to |nodes|
        invariant ScanState(decorations, lang, state) == Scan(env, docChanged, ScanState(old(decorations), "", []), nodes[..i])
      {
        assert nodes[..i + 1][..i] == nodes[..i];
        var node := nodes[i];
        if HasTag(node, "formatting") {
        } else if HasTag(node, "inline-code") {
          InlineCode(env, node);
        } else if !docChanged {
        } else if IsBlockLine(node) {
          state := state + [node];
        } else {
          if HasTag(node, "HyperMD-codeblock-begin") {
            var content := GetContent(env.doc, node.from, node.to);
            lang := FenceLanguage(content);
          }
          if HasTag(node, "HyperMD-codeblock-end") {
            if |state| > 0 && lang != "" {
              var start := state[0].from;
              var end := state[|state| - 1].to;
              var content := GetContent(env.doc, start, end);
              var built := BuildDecorations(env, start, end, lang, content);
              RemoveDecoration(start, end);
              AddDecoration(start, end, built);
            }
            lang := "";
            state := [];
          }
        }
      }
      assert nodes[..|nodes|] == nodes;
    }

    /** The inline-code branch of `updateWidgets`. */
    method InlineCode(env: Env, node: Node)
      modifies this
      ensures decorations == InlineStep(env, old(decorations), node)
    {
      var content := GetContent(env.doc, node.from, node.to);
      if StartsWith(content, "{") && env.inlineHighlighting {
        var m := env.inlineMatch(content);
        if m.Some? {
          var (lang, code) := m.value;
          var overlap := CheckSelectionAndRangeOverlap(env.selection, node.from - 1, node.to + 1);
          assert overlap == SelectedAround(env, node);
          if overlap {
            RemoveDecoration(node.from, node.to);
          }
          assert decorations == InlineFirstRemoval(env, old(decorations), node);
          var hideTo := node.from + |lang| + 3;
          var built := BuildDecorations(env, hideTo, node.to, lang, code);
          RemoveDecoration(node.from, node.to);
          if env.livePreview && !overlap {
            built := [Decoration(node.from, hideTo, Replace)] + built;
          }
          assert built == InlineAdded(env, node, lang, code);
          AddDecoration(node.from, node.to, built);
          InlineStepMatched(env, old(decorations), node, lang, code);
        }
      } else {
        RemoveDecoration(node.from, node.to);
      }
    }

    /** `removeDecoration`. */
    method RemoveDecoration(from: int, to: int)
      modifies this
      ensures decorations == RemoveBetween(old(decorations), from, to)
    {
      decorations := RemoveBetween(decorations, from, to);
    }

    /** `addDecoration`. */
    method AddDecoration(from: int, to: int, newDecorations: seq<Decoration>)
      modifies this
      ensures decorations == AddSpec(old(decorations), from, to, newDecorations)
    {
      var exists_ := ExistsDecorationBetween(decorations, from, to);
      if exists_ {
        return;
      }
      if |newDecorations| == 0 {
        return;
      }
      decorations := decorations + newDecorations;
    }

    /** `buildDecorations`: one mark per flattened token, filled in an index loop. */
    method BuildDecorations(env: Env, from: int, to: int, language: string, content: string)
      returns (decos: seq<Decoration>)
      ensures decos == BuildSpec(env, from, to, language, content)
    {
      if language == "" {
        return [];
      }
      var highlight := GetHighlightTokens(env.safeLanguages, env.tokenize, content, language);
      if highlight.None? {
        return [];
      }
      var tokens := Flatten(highlight.value);
      decos := [];
      for i := 0 to |tokens|
        invariant |decos| == i
        invariant forall j :: 0 <= j < i ==> decos[j] == TokenMark(tokens, j, from, to)
      {
        var token := tokens[i];
        var style := GetTokenStyle(token);
        var end := if i + 1 < |tokens| then from + tokens[i + 1].offset else to;
        var mark := Decoration(from + token.offset, end, Mark(style.style, Join(style.classes, ' ')));
        assert mark == TokenMark(tokens, i, from, to);
        decos := decos + [mark];
      }
      assert decos == Marks(tokens, from, to);
    }
  }
}
