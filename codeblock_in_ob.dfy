/** The Obsidian subclass of the general code block,
    src/general/EditableCodeblockInOb.ts: the outer information read from
    the section (`init_outerInfo2`), the constructor's override, the focus
    handler that refreshes the cached editor, the arrow keys and
    `emit_save_unsafe`. Messages sent to the log are kept in a field. */
module CodeblockInOb {
  import opened Wrappers
  import opened JsString
  import opened FenceParse
  import opened HostEditor
  import opened LineEdits
  import opened GeneralCodeblock
  import ObsidianCodeblock

  const ElCtxError := "Warning: el ctx error!"
  const NoSectionError := "Warning: without el section!"
  const NoEditorError := "Warning: without editor!"

  /** `init_outerInfo2`: the outer information, and the message it logs
      when the section's line indices run past its text. Unlike
      `createCodeBlockInfo` it does not stop there: a missing opening line
      reads as `undefined`, which is no fence opener, and the body slice is
      clamped to the lines there are. */
  function InitOuterInfo2(languageOld: string, section: Option<SectionInfo>): (r: (OuterInfo, Option<string>))
    ensures section.None? ==> r == (InitOuterInfo(languageOld), None)
    ensures section.Some? ==>
              var lines := Split(section.value.text, '\n');
              (r.1.Some? <==> |lines| < section.value.lineStart + 1 || |lines| < section.value.lineEnd + 1)
    ensures r.1.Some? ==> r.1 == Some(ElCtxError)
    ensures r.0.source.None? ==> r.0 == InitOuterInfo(languageOld)
  {
    match section
    case None => (InitOuterInfo(languageOld), None)
    case Some(info) =>
      var lines := Split(info.text, '\n');
      var logged := if |lines| < info.lineStart + 1 || |lines| < info.lineEnd + 1 then Some(ElCtxError) else None;
      (OuterFromLines(languageOld, lines, info.lineStart, info.lineEnd), logged)
  }

  /** The outer information read from the lines of a section. */
  function OuterFromLines(languageOld: string, lines: seq<string>, lineStart: nat, lineEnd: nat): (r: OuterInfo)
    ensures r.source.None? ==> r == InitOuterInfo(languageOld)
  {
    match LineAt(lines, lineStart)
    case None => InitOuterInfo(languageOld)
    case Some(first) =>
      match ParseFenceLine(first)
      case None => InitOuterInfo(languageOld)
      case Some(f) => OuterInfo(f.prefix, f.flag, f.languageMeta, f.languageType, Some(BodyOf(lines, lineStart, lineEnd)))
  }

  /** Where `createCodeBlockInfo` succeeds, `init_outerInfo2` logs nothing
      and reads the same five parts. */
  lemma InitOuterInfo2AgreesWithCreate(languageOld: string, sourceOld: string, section: Option<SectionInfo>, c: ObsidianCodeblock.CodeblockInfo)
    requires ObsidianCodeblock.CreateCodeBlockInfo(languageOld, sourceOld, section) == Ok(c)
    ensures InitOuterInfo2(languageOld, section) ==
            (OuterInfo(c.prefix, c.flag, c.languageMeta, c.languageType, c.source), None)
  {
  }

  /** Where `createCodeBlockInfo` throws, `init_outerInfo2` logs; with the
      opening line present and a fence opener, the body is every line after
      it, the closing fence line being past the text. */
  lemma InitOuterInfo2PastEnd(languageOld: string, info: SectionInfo, lines: seq<string>, f: Fence)
    requires lines == Split(info.text, '\n') && info.lineStart < |lines| <= info.lineEnd
    requires ParseFenceLine(lines[info.lineStart]) == Some(f)
    ensures InitOuterInfo2(languageOld, Some(info)) ==
            (OuterInfo(f.prefix, f.flag, f.languageMeta, f.languageType, Some(Join(lines[info.lineStart + 1..], '\n'))), Some(ElCtxError))
  {
    OuterFromLinesPastEnd(languageOld, lines, info.lineStart, info.lineEnd, f);
  }

  lemma OuterFromLinesPastEnd(languageOld: string, lines: seq<string>, lineStart: nat, lineEnd: nat, f: Fence)
    requires lineStart < |lines| <= lineEnd && ParseFenceLine(lines[lineStart]) == Some(f)
    ensures OuterFromLines(languageOld, lines, lineStart, lineEnd) ==
            OuterInfo(f.prefix, f.flag, f.languageMeta, f.languageType, Some(Join(lines[lineStart + 1..], '\n')))
  {
    assert LineAt(lines, lineStart) == Some(lines[lineStart]);
    var body := Slice(lines, lineStart + 1, lineEnd);
    assert BodyOf(lines, lineStart, lineEnd) == Join(body, '\n');
    assert body == lines[lineStart + 1..] by {
      if lineStart + 1 < |lines| {
        assert body == lines[lineStart + 1..|lines|];
      } else {
        assert body == [];
      }
    }
  }

  /** With the opening line itself past the text, the defaults are used. */
  lemma InitOuterInfo2NoOpeningLine(languageOld: string, info: SectionInfo)
    requires |Split(info.text, '\n')| <= info.lineStart
    ensures InitOuterInfo2(languageOld, Some(info)) == (InitOuterInfo(languageOld), Some(ElCtxError))
  {
  }

  /** A language save of an unprefixed opening line writes back that line. */
  lemma LanguageSaveOfParsedKeeps(lines: seq<string>, lineStart: nat, lineEnd: nat, f: Fence, source: string)
    requires NoSep(lines, '\n') && lineStart + 1 < |lines|
    requires NoLineTerm(lines[lineStart]) && ParseFenceLine(lines[lineStart]) == Some(f) && f.prefix == ""
    ensures SavedLines(lines, lineStart, lineEnd, LanguageLine(f.flag, f.languageType, f.languageMeta), source, true, false) == lines
  {
    var ll := LanguageLine(f.flag, f.languageType, f.languageMeta);
    assert ll == lines[lineStart] by {
      LanguageLineDropsPrefix(lines[lineStart], f);
      assert "" + ll == ll;
    }
    assert '\n' !in ll by {
      assert forall c :: c in ll ==> !IsLineTerm(c);
    }
    LanguageSaveOfSameLine(lines, lineStart, lineEnd, ll, source);
  }

  /** A language save that writes the opening line as it already is. */
  lemma LanguageSaveOfSameLine(lines: seq<string>, lineStart: nat, lineEnd: nat, ll: string, source: string)
    requires NoSep(lines, '\n') && lineStart + 1 < |lines| && ll == lines[lineStart] && '\n' !in ll
    ensures SavedLines(lines, lineStart, lineEnd, ll, source, true, false) == lines
  {
    LanguageSaveRewritesLine(lines, lineStart, lineEnd, ll, source);
    assert lines[lineStart := ll] == lines;
  }

  /** Saving a block that was read from the document and not edited leaves
      the document as it was, as long as the opening line has no prefix
      when the language is saved too. */
  lemma UneditedSaveKeepsDocument(languageOld: string, info: SectionInfo, isUpdateLanguage: bool)
    requires var lines := Split(info.text, '\n');
             && info.lineStart + 1 < info.lineEnd < |lines|
             && ParseFenceLine(lines[info.lineStart]).Some?
             && (isUpdateLanguage ==> NoLineTerm(lines[info.lineStart]) && ParseFenceLine(lines[info.lineStart]).value.prefix == "")
    ensures var lines := Split(info.text, '\n');
            var o := InitOuterInfo2(languageOld, Some(info)).0;
            SavedLines(lines, info.lineStart, info.lineEnd, LanguageLine(o.flag, o.languageType, o.languageMeta),
                       o.source.GetOr(""), isUpdateLanguage, true) == lines
  {
    var lines := Split(info.text, '\n');
    SplitNoSep(info.text, '\n');
    var f := ParseFenceLine(lines[info.lineStart]).value;
    var body := BodyOf(lines, info.lineStart, info.lineEnd);
    var ll := LanguageLine(f.flag, f.languageType, f.languageMeta);
    assert InitOuterInfo2(languageOld, Some(info)).0 == OuterInfo(f.prefix, f.flag, f.languageMeta, f.languageType, Some(body));
    if isUpdateLanguage {
      LanguageSaveOfParsedKeeps(lines, info.lineStart, info.lineEnd, f, body);
    }
    SourceSaveOfBodyKeeps(lines, info.lineStart, info.lineEnd, ll);
  }

  /** The outer information and the log that `init_outerInfo2` leaves. */
  predicate InitialisedFrom(languageOld: string, section: Option<SectionInfo>, outer: OuterInfo, logged: seq<string>) {
    var init := InitOuterInfo2(languageOld, section);
    outer == init.0 && logged == (if init.1.Some? then [init.1.value] else [])
  }

  /** The outer information `init_outerInfo2` returns, with what it logs. */
  function InitialState(languageOld: string, section: Option<SectionInfo>): (r: (OuterInfo, seq<string>))
    ensures InitialisedFrom(languageOld, section, r.0, r.1)
  {
    var init := InitOuterInfo2(languageOld, section);
    (init.0, if init.1.Some? then [init.1.value] else [])
  }

  class EditableCodeblockInOb {
    /** The general block this one extends. */
    var base: EditableCodeblock
    /** The cached active editor. */
    var editor: Editor?
    /** What was sent to the log, oldest first. */
    var logged: seq<string>

    /** The constructor: the general block, the active editor, and the outer
        information replaced by the one read from the section, which leaves
        the source absent when the block cannot be located. */
    constructor (languageOld: string, sourceOld: string, section: Option<SectionInfo>, activeEditor: Editor?)
      ensures fresh(base) && editor == activeEditor
      ensures base.innerInfo == InnerInfo(languageOld, sourceOld)
      ensures InitialisedFrom(languageOld, section, base.outerInfo, logged)
      ensures !base.isComposing && !base.isNoSaved && base.saveMode == OnChange
    {
      var init := InitialState(languageOld, section);
      var b := new EditableCodeblock(languageOld, sourceOld);
      b.outerInfo := init.0;
      base := b;
      editor := activeEditor;
      logged := init.1;
    }

    /** The focus handler of the edit areas: the active editor is cached again. */
    method OnFocus(activeEditor: Editor?)
      modifies this
      ensures editor == activeEditor && base == old(base) && logged == old(logged)
    {
      editor := activeEditor;
    }

    /** The ArrowDown handler of the override, with the wiring of the base
        class: the textarea's `cb_down` takes the key first. */
    method ArrowDown(area: EditArea, section: Option<SectionInfo>) returns (outcome: ArrowOutcome)
      requires editor != null ==> editor.Valid()
      modifies editor
      ensures area.TextArea? ==> outcome == DownCallback(area)
      ensures area.InputArea? ==> outcome == EditorMoved || outcome == Ignored
      ensures outcome == EditorMoved <==> area.InputArea? && editor != null && section.Some?
      ensures editor != null ==> editor.Valid()
      ensures outcome != EditorMoved && editor != null ==>
                editor.lines == old(editor.lines) && editor.cursorLine == old(editor.cursorLine) && editor.cursorCh == old(editor.cursorCh)
      ensures outcome == EditorMoved ==>
                var toLine := section.value.lineEnd + 1;
                && editor.lines == (if toLine > |old(editor.lines)| - 1 then old(editor.lines) + [""] else old(editor.lines))
                && editor.cursorLine == toLine && editor.cursorCh == 0
    {
      outcome := LineEdits.ArrowDown(editor, area, section, HasDownCallback(area));
    }

    /** The ArrowUp handler of the override; the language input's `cb_up`
        takes the key first. */
    method ArrowUp(area: EditArea, section: Option<SectionInfo>) returns (outcome: ArrowOutcome)
      requires editor != null ==> editor.Valid()
      modifies editor
      ensures area.InputArea? ==> outcome == UpCallback(area)
      ensures area.TextArea? ==> outcome == EditorMoved || outcome == Ignored
      ensures outcome == EditorMoved <==> area.TextArea? && editor != null && OnFirstLine(area) && section.Some?
      ensures editor != null ==> editor.Valid()
      ensures outcome != EditorMoved && editor != null ==>
                editor.lines == old(editor.lines) && editor.cursorLine == old(editor.cursorLine) && editor.cursorCh == old(editor.cursorCh)
      ensures outcome == EditorMoved ==>
                var toLine := section.value.lineStart - 1;
                && editor.lines == (if toLine < 0 then [""] + old(editor.lines) else old(editor.lines))
                && editor.cursorLine == (if toLine < 0 then 0 else toLine) && editor.cursorCh == 0
    {
      outcome := LineEdits.ArrowUp(editor, area, section, HasUpCallback(area));
    }

    /** `emit_save_unsafe`: without a section or an editor it logs and stops;
        otherwise the language line replaces the opening line and the source
        (the original one while it is absent) replaces the body lines. */
    method EmitSaveUnsafe(section: Option<SectionInfo>, isUpdateLanguage: bool, isUpdateSource: bool)
      requires editor != null ==> editor.Valid()
      modifies this, editor
      ensures editor == old(editor) && base == old(base)
      ensures editor != null ==> editor.Valid()
      ensures section.None? ==> logged == old(logged) + [NoSectionError]
      ensures section.Some? && editor == null ==> logged == old(logged) + [NoEditorError]
      ensures (section.None? || editor == null) && editor != null ==> editor.lines == old(editor.lines)
      ensures section.Some? && editor != null ==>
                && logged == old(logged)
                && editor.lines == SavedLines(old(editor.lines), section.value.lineStart, section.value.lineEnd,
                                              LanguageLine(base.outerInfo.flag, base.outerInfo.languageType, base.outerInfo.languageMeta),
                                              base.outerInfo.source.GetOr(base.innerInfo.sourceOld),
                                              isUpdateLanguage, isUpdateSource)
      ensures editor != null ==> editor.cursorLine == old(editor.cursorLine) && editor.cursorCh == old(editor.cursorCh)
    {
      if section.None? {
        logged := logged + [NoSectionError];
        return;
      }
      if editor == null {
        logged := logged + [NoEditorError];
        return;
      }
      var info := section.value;
      var outer := base.outerInfo;
      if isUpdateLanguage {
        var text := outer.flag + outer.languageType + outer.languageMeta + "\n";
        assert text == LanguageLine(outer.flag, outer.languageType, outer.languageMeta) + "\n";
        editor.ReplaceRange(text, info.lineStart, 0, info.lineStart + 1, 0);
      }
      if isUpdateSource {
        var source := match outer.source case Some(s) => s case None => base.innerInfo.sourceOld;
        editor.ReplaceRange(source + "\n", info.lineStart + 1, 0, info.lineEnd, 0);
      }
    }
  }
}
