/** The host-independent editable code block of
    src/general/EditableCodeblock.ts: its two records, the constructor, the
    textarea change handler `emit_change`, the language input, the Tab and
    Shift-Tab handler of the textarea, the source fix of `emit_render`, and
    the caret search of `renderEditablePre_restoreCursorPosition`. */
module GeneralCodeblock {
  import opened Wrappers
  import opened JsString
  import opened FenceParse
  import opened LineEdits

  /** What Obsidian handed over. */
  datatype InnerInfo = InnerInfo(languageOld: string, sourceOld: string)

  /** The block as the editor holds it; `source` is absent when the block
      could not be located. */
  datatype OuterInfo = OuterInfo(prefix: string, flag: string, languageMeta: string, languageType: string, source: Option<string>)

  datatype SaveMode = OnChange | OnInput

  /** What a handler asks for besides its state change: `emit_render`, and
      `emit_save` with its two flags. */
  datatype Effects = Effects(render: bool, saveLanguage: bool, saveSource: bool)

  const NoEffects := Effects(false, false, false)

  /** `init_outerInfo`. */
  function InitOuterInfo(languageOld: string): (r: OuterInfo)
    ensures r.prefix == r.flag == r.languageMeta == "" && r.source.None? && r.languageType == languageOld
  {
    OuterInfo("", "", "", languageOld, None)
  }

  class EditableCodeblock {
    var innerInfo: InnerInfo
    var outerInfo: OuterInfo
    var useTab: bool
    var tabSize: nat
    var saveMode: SaveMode
    /** The composition flag of the textarea's input-method handlers. */
    var isComposing: bool
    /** The `is-no-saved` class of the block's element. */
    var isNoSaved: bool
    /** The selection kept for the next render (`global_refresh_cache`). */
    var refreshCache: Option<(int, int)>

    constructor (languageOld: string, sourceOld: string)
      ensures innerInfo == InnerInfo(languageOld, sourceOld)
      ensures outerInfo == InitOuterInfo(languageOld).(source := Some(sourceOld))
      ensures useTab && tabSize == 4 && saveMode == OnChange
      ensures !isComposing && !isNoSaved && refreshCache.None?
    {
      innerInfo := InnerInfo(languageOld, sourceOld);
      var outer := InitOuterInfo(languageOld);
      outerInfo := outer.(source := Some(sourceOld));
      useTab := true;
      tabSize := 4;
      saveMode := OnChange;
      isComposing := false;
      isNoSaved := false;
      refreshCache := None;
    }

    /** `compositionstart` and `compositionend`. */
    method SetComposing(composing: bool)
      modifies this
      ensures isComposing == composing
      ensures innerInfo == old(innerInfo) && outerInfo == old(outerInfo) && useTab == old(useTab) && tabSize == old(tabSize)
      ensures saveMode == old(saveMode) && isNoSaved == old(isNoSaved) && refreshCache == old(refreshCache)
    {
      isComposing := composing;
    }

    /** `emit_change`: nothing while composing; otherwise the new value
        becomes the source, a render marks the block unsaved, a save marks it
        saved, and the selection is kept when asked. */
    method EmitChange(newValue: string, isRender: bool, isSave: bool, isSavePos: bool, area: Textarea) returns (effects: Effects)
      modifies this
      ensures old(isComposing) ==>
                effects == NoEffects && outerInfo == old(outerInfo) && isNoSaved == old(isNoSaved) && refreshCache == old(refreshCache)
      ensures !old(isComposing) ==>
                && outerInfo == old(outerInfo).(source := Some(newValue))
                && effects == Effects(isRender, false, isSave)
                && isNoSaved == (if isSave then false else if isRender then true else old(isNoSaved))
                && refreshCache == (if isSavePos then Some((area.selectionStart, area.selectionEnd)) else old(refreshCache))
      ensures innerInfo == old(innerInfo) && useTab == old(useTab) && tabSize == old(tabSize)
      ensures saveMode == old(saveMode) && isComposing == old(isComposing)
    {
      if isComposing {
        return NoEffects;
      }
      outerInfo := outerInfo.(source := Some(newValue));
      if isRender {
        isNoSaved := true;
      }
      if isSavePos {
        refreshCache := Some((area.selectionStart, area.selectionEnd));
      }
      if isSave {
        isNoSaved := false;
      }
      return Effects(isRender, false, isSave);
    }

    /** The textarea's `input` event: a render in the `onchange` save mode,
        a save keeping the selection in the `oninput` mode. */
    method OnTextareaInput(area: Textarea) returns (effects: Effects)
      modifies this
      ensures !old(isComposing) ==> outerInfo == old(outerInfo).(source := Some(area.value))
      ensures !old(isComposing) && saveMode == OnChange ==> effects == Effects(true, false, false) && isNoSaved
      ensures !old(isComposing) && saveMode == OnInput ==>
                effects == Effects(false, false, true) && !isNoSaved && refreshCache == Some((area.selectionStart, area.selectionEnd))
      ensures old(isComposing) ==> effects == NoEffects && outerInfo == old(outerInfo)
      ensures innerInfo == old(innerInfo) && saveMode == old(saveMode) && isComposing == old(isComposing)
    {
      if saveMode == OnChange {
        effects := EmitChange(area.value, true, false, false, area);
      } else {
        effects := EmitChange(area.value, false, true, true, area);
      }
    }

    /** The textarea's `change` event, handled only in the `onchange` mode. */
    method OnTextareaChange(area: Textarea) returns (effects: Effects)
      modifies this
      ensures saveMode == OnChange && !old(isComposing) ==>
                outerInfo == old(outerInfo).(source := Some(area.value)) && effects == Effects(false, false, true) && !isNoSaved
      ensures saveMode == OnInput || old(isComposing) ==> effects == NoEffects && outerInfo == old(outerInfo) && isNoSaved == old(isNoSaved)
      ensures innerInfo == old(innerInfo) && saveMode == old(saveMode) && isComposing == old(isComposing)
    {
      if saveMode == OnChange {
        effects := EmitChange(area.value, false, true, false, area);
      } else {
        effects := NoEffects;
      }
    }

    /** The language input's `input` event: ignored while composing; the
        value is split into language and meta, the block rendered and marked
        unsaved. The split cannot fail on what an `<input>` holds; when it
        does, the handler throws and nothing changes. */
    method OnLanguageInput(value: string) returns (r: Result<Effects>)
      modifies this
      ensures old(isComposing) ==> r == Ok(NoEffects) && outerInfo == old(outerInfo) && isNoSaved == old(isNoSaved)
      ensures !old(isComposing) ==> (r.Err? <==> LanguageInputSplit(value).Err?)
      ensures !old(isComposing) && r.Err? ==> outerInfo == old(outerInfo) && isNoSaved == old(isNoSaved)
      ensures !old(isComposing) && r.Ok? ==>
                var parts := LanguageInputSplit(value).value;
                && outerInfo == old(outerInfo).(languageType := parts.0, languageMeta := parts.1)
                && outerInfo.languageType + outerInfo.languageMeta == value
                && isNoSaved && r.value == Effects(true, false, false)
      ensures innerInfo == old(innerInfo) && isComposing == old(isComposing) && refreshCache == old(refreshCache)
    {
      if isComposing {
        return Ok(NoEffects);
      }
      match LanguageInputSplit(value)
      case Err(e) =>
        return Err(e);
      case Ok(parts) =>
        outerInfo := outerInfo.(languageType := parts.0, languageMeta := parts.1);
        isNoSaved := true;
        return Ok(Effects(true, false, false));
    }

    /** The language input's `change` event: the same split, then the block
        is marked saved and the language saved. There is no composing test. */
    method OnLanguageChange(value: string) returns (r: Result<Effects>)
      modifies this
      ensures r.Err? <==> LanguageInputSplit(value).Err?
      ensures r.Err? ==> outerInfo == old(outerInfo) && isNoSaved == old(isNoSaved)
      ensures r.Ok? ==>
                var parts := LanguageInputSplit(value).value;
                && outerInfo == old(outerInfo).(languageType := parts.0, languageMeta := parts.1)
                && outerInfo.languageType + outerInfo.languageMeta == value
                && !isNoSaved && r.value == Effects(false, true, false)
      ensures innerInfo == old(innerInfo) && isComposing == old(isComposing) && refreshCache == old(refreshCache)
    {
      match LanguageInputSplit(value)
      case Err(e) =>
        return Err(e);
      case Ok(parts) =>
        outerInfo := outerInfo.(languageType := parts.0, languageMeta := parts.1);
        isNoSaved := false;
        return Ok(Effects(false, true, false));
    }

    /** The source that `emit_render` highlights. */
    function EmitRenderSource(): (r: string)
      reads this
      ensures r == RenderSource(outerInfo.source.GetOr(innerInfo.sourceOld))
    {
      RenderSource(match outerInfo.source case Some(s) => s case None => innerInfo.sourceOld)
    }

    /** Tab and Shift-Tab in the textarea: with a selection or Shift held the
        block of the selected lines is indented or loses one leading indent
        per line, counted line by line; otherwise the indent is inserted. The
        line start of the selection is the start of its first line. */
    method Tab(area: Textarea, shift: bool)
      requires WellFormedSelection(area.value, area.selectionStart, area.selectionEnd)
      modifies area
      ensures var r := TabEdit(old(area.value), old(area.selectionStart), old(area.selectionEnd), shift,
                               ConfiguredIndent(useTab, tabSize), Repeat(' ', tabSize));
              && area.value == r.value
              && (area.selectionStart, area.selectionEnd) ==
                   TabSelection(old(area.value), old(area.selectionStart), old(area.selectionEnd), r,
                                old(area.selectionStart) != old(area.selectionEnd) || shift)
      ensures WellFormedSelection(area.value, area.selectionStart, area.selectionEnd)
    {
      var indentSpace := Repeat(' ', tabSize);
      var indent0 := ConfiguredIndent(useTab, tabSize);
      var text := area.value;
      var s := area.selectionStart;
      var e := area.selectionEnd;
      var ss := LineStart(text, s);
      var ee := LineEnd(text, e);
      var indent := AutoIndent(Substring(text, ss, ee), indent0, indentSpace);
      var outcome: TabOutcome;
      if s != e || shift {
        var before := Substring(text, 0, ss);
        var after := Substring(text, ee, |text|);
        var lines := Split(Substring(text, ss, ee), '\n');
        if shift {
          var subStart := if StartsWith(lines[0], indent) then 1 else 0;
          var mapped, subCount := DedentCounted(lines, indent);
          outcome := TabOutcome(before + Join(mapped, '\n') + after, s - |indent| * subStart, e - |indent| * subCount);
          assert outcome == TabBlock(before, lines, after, s, e, shift, indent);
        } else {
          outcome := TabOutcome(before + Join(IndentLines(lines, indent), '\n') + after, s + |indent|, e + |indent| * |lines|);
          assert outcome == TabBlock(before, lines, after, s, e, shift, indent);
        }
      } else {
        outcome := InsertIndent(text, s, e, indent);
      }
      assert outcome == TabEdit(old(area.value), old(area.selectionStart), old(area.selectionEnd), shift,
                                ConfiguredIndent(useTab, tabSize), Repeat(' ', tabSize));
      area.WriteTab(outcome, s != e || shift);
    }

    /** The Tab key as the textarea sees it: the indent edit, then the
        `input` event it dispatches, handled as any other input. */
    method TabKey(area: Textarea, shift: bool) returns (effects: Effects)
      requires WellFormedSelection(area.value, area.selectionStart, area.selectionEnd)
      modifies this, area
      ensures var r := TabEdit(old(area.value), old(area.selectionStart), old(area.selectionEnd), shift,
                               ConfiguredIndent(old(useTab), old(tabSize)), Repeat(' ', old(tabSize)));
              && area.value == r.value
              && (area.selectionStart, area.selectionEnd) ==
                   TabSelection(old(area.value), old(area.selectionStart), old(area.selectionEnd), r,
                                old(area.selectionStart) != old(area.selectionEnd) || shift)
      ensures WellFormedSelection(area.value, area.selectionStart, area.selectionEnd)
      ensures !old(isComposing) ==> outerInfo == old(outerInfo).(source := Some(area.value))
      ensures !old(isComposing) && saveMode == OnChange ==> effects == Effects(true, false, false) && isNoSaved
      ensures !old(isComposing) && saveMode == OnInput ==>
                effects == Effects(false, false, true) && !isNoSaved && refreshCache == Some((area.selectionStart, area.selectionEnd))
      ensures old(isComposing) ==> effects == NoEffects && outerInfo == old(outerInfo)
      ensures innerInfo == old(innerInfo) && saveMode == old(saveMode) && isComposing == old(isComposing)
    {
      Tab(area, shift);
      effects := OnTextareaInput(area);
    }
  }

  /** The Shift-Tab loop over the selected lines: each line loses one leading
      indent when it has one, and those lines are counted. */
  method DedentCounted(lines: seq<string>, indent: string) returns (mapped: seq<string>, subCount: nat)
    ensures mapped == DedentLines(lines, indent) && subCount == CountIndented(lines, indent)
  {
    subCount := 0;
    mapped := [];
    for i := 0 to |lines|
      invariant mapped == DedentLines(lines[..i], indent)
      invariant subCount == CountIndented(lines[..i], indent)
    {
      ghost var done := lines[..i];
      assert lines[..i + 1] == done + [lines[i]];
      DedentLinesAppend(done, lines[i], indent);
      CountIndentedAppend(done, lines[i], indent);
      if StartsWith(lines[i], indent) {
        subCount := subCount + 1;
        mapped := mapped + [lines[i][|indent|..]];
      } else {
        mapped := mapped + [lines[i]];
      }
    }
    assert lines[..|lines|] == lines;
  }

  // ----- restoring the caret over the rendered text nodes -----

  /** The offset at which text node `i` starts. */
  function NodeStart(lens: seq<nat>, i: nat): nat
    requires i <= |lens|
  {
    if i == 0 then 0 else NodeStart(lens, i - 1) + lens[i - 1]
  }

  /** Offset `x` falls in text node `i`, ends included. */
  predicate Covers(lens: seq<nat>, i: nat, x: int)
    requires i < |lens|
  {
    NodeStart(lens, i) <= x <= NodeStart(lens, i + 1)
  }

  /** The first node at or after `from` that covers `x`. */
  function FirstCovering(lens: seq<nat>, from: nat, x: int): (r: Option<nat>)
    requires from <= |lens|
    ensures r.Some? ==> from <= r.value < |lens| && Covers(lens, r.value, x)
    ensures r.Some? ==> forall j :: from <= j < r.value ==> !Covers(lens, j, x)
    ensures r.None? ==> forall j :: from <= j < |lens| ==> !Covers(lens, j, x)
    decreases |lens| - from
  {
    if from == |lens| then None
    else if Covers(lens, from, x) then Some(from)
    else FirstCovering(lens, from + 1, x)
  }

  /** A caret position: a text node and an offset inside it. */
  datatype Boundary = Boundary(node: nat, offset: int)

  /** Where the selection is set: the start in the first node covering it,
      the end in the first node from there on covering it. */
  function CaretSpec(lens: seq<nat>, start: int, end: int): (Option<Boundary>, Option<Boundary>) {
    match FirstCovering(lens, 0, start)
    case None => (None, None)
    case Some(i) =>
      (Some(Boundary(i, start - NodeStart(lens, i))),
       match FirstCovering(lens, i, end)
       case None => None
       case Some(j) => Some(Boundary(j, end - NodeStart(lens, j))))
  }

  /** `renderEditablePre_restoreCursorPosition` over the lengths of the
      text nodes in document order: a running offset, two found flags, and a
      stop once the end is set. */
  method RestoreCursorPosition(lens: seq<nat>, start: int, end: int) returns (startAt: Option<Boundary>, endAt: Option<Boundary>)
    ensures (startAt, endAt) == CaretSpec(lens, start, end)
  {
    var charIndex: nat := 0;
    startAt := None;
    endAt := None;
    var i := 0;
    while i < |lens| && endAt.None?
      invariant 0 <= i <= |lens|
      invariant charIndex == NodeStart(lens, i)
      invariant startAt.None? ==> endAt.None? && FirstCovering(lens, 0, start) == FirstCovering(lens, i, start)
      invariant startAt.Some? ==>
                  && FirstCovering(lens, 0, start) == Some(startAt.value.node)
                  && startAt.value.node < i
                  && startAt.value == Boundary(startAt.value.node, start - NodeStart(lens, startAt.value.node))
                  && (endAt.None? ==> FirstCovering(lens, startAt.value.node, end) == FirstCovering(lens, i, end))
                  && (endAt.Some? ==> CaretSpec(lens, start, end).1 == endAt)
      decreases |lens| - i
    {
      var nextIndex := charIndex + lens[i];
      var foundHere := false;
      if startAt.None? && start >= charIndex && start <= nextIndex {
        startAt := Some(Boundary(i, start - charIndex));
        foundHere := true;
      }
      if startAt.Some? && endAt.None? && end >= charIndex && end <= nextIndex {
        endAt := Some(Boundary(i, end - charIndex));
      }
      charIndex := nextIndex;
      i := i + 1;
    }
  }

  /** A position inside the text is always found, in a node that holds it. */
  lemma {:induction false} CoveringExists(lens: seq<nat>, from: nat, x: int)
    requires from <= |lens| && NodeStart(lens, from) <= x <= NodeStart(lens, |lens|) && from < |lens|
    ensures FirstCovering(lens, from, x).Some?
    decreases |lens| - from
  {
    if !Covers(lens, from, x) && from + 1 < |lens| {
      CoveringExists(lens, from + 1, x);
    }
  }

  /** With `0 <= start <= end <= total length` both ends are set, the end no
      earlier than the start, each at an offset inside its node. */
  lemma CaretFound(lens: seq<nat>, start: int, end: int)
    requires |lens| > 0 && 0 <= start <= end <= NodeStart(lens, |lens|)
    ensures var (s, e) := CaretSpec(lens, start, end);
            && s.Some? && e.Some? && s.value.node <= e.value.node
            && 0 <= s.value.offset <= lens[s.value.node] && 0 <= e.value.offset <= lens[e.value.node]
            && NodeStart(lens, s.value.node) + s.value.offset == start
            && NodeStart(lens, e.value.node) + e.value.offset == end
  {
    CoveringExists(lens, 0, start);
    var i := FirstCovering(lens, 0, start).value;
    CoveringExists(lens, i, end);
  }
}
