/** The Obsidian-bound editable code block of src/EditableCodeblock.ts: the
    block information read from the section (`createCodeBlockInfo`), the
    constructor, the Tab insertion of `enableTabEmitIndent`, the arrow keys,
    `saveContent` and the source fix of `renderPre`. The section
    information, the active editor and the vault's indent settings are the
    host's and come in as parameters. */
module ObsidianCodeblock {
  import opened Wrappers
  import opened JsString
  import opened FenceParse
  import opened HostEditor
  import opened LineEdits

  /** `CodeblockInfo`: the parsed opening line, the body (absent when the
      block could not be located) and what Obsidian handed over. */
  datatype CodeblockInfo = CodeblockInfo(
    prefix: string,
    flag: string,
    languageMeta: string,
    languageType: string,
    source: Option<string>,
    languageOld: string,
    sourceOld: string)

  /** The information used when the block cannot be located in its section. */
  function DefaultInfo(languageOld: string, sourceOld: string): (r: CodeblockInfo)
    ensures r.prefix == r.flag == r.languageMeta == "" && r.source.None?
    ensures r.languageType == r.languageOld == languageOld && r.sourceOld == sourceOld
  {
    CodeblockInfo("", "", "", languageOld, None, languageOld, sourceOld)
  }

  /** `createCodeBlockInfo`. Line indices beyond the section text raise an
      error; a section whose first line is not a fence opener gives the
      defaults. */
  function CreateCodeBlockInfo(languageOld: string, sourceOld: string, section: Option<SectionInfo>): (r: Result<CodeblockInfo>)
    ensures section.None? ==> r == Ok(DefaultInfo(languageOld, sourceOld))
    ensures section.Some? ==>
              var lines := Split(section.value.text, '\n');
              (r.Err? <==> |lines| < section.value.lineStart + 1 || |lines| < section.value.lineEnd + 1)
    ensures r.Ok? ==> r.value.languageOld == languageOld && r.value.sourceOld == sourceOld
    ensures r.Err? ==> r.error == "Warning: el ctx error!"
  {
    match section
    case None => Ok(DefaultInfo(languageOld, sourceOld))
    case Some(info) =>
      var lines := Split(info.text, '\n');
      if |lines| < info.lineStart + 1 || |lines| < info.lineEnd + 1 then Err("Warning: el ctx error!")
      else
        match ParseFenceLine(lines[info.lineStart])
        case None => Ok(DefaultInfo(languageOld, sourceOld))
        case Some(f) =>
          Ok(CodeblockInfo(f.prefix, f.flag, f.languageMeta, f.languageType,
                           Some(BodyOf(lines, info.lineStart, info.lineEnd)), languageOld, sourceOld))
  }

  /** A located block: its four parts glue back to the opening line, its
      flag is a fence, its language has no white space, and its source splits
      into exactly the lines strictly between the two fence lines. */
  lemma CreateInfoLocated(languageOld: string, sourceOld: string, info: SectionInfo, r: CodeblockInfo)
    requires CreateCodeBlockInfo(languageOld, sourceOld, Some(info)) == Ok(r) && r.source.Some?
    ensures var lines := Split(info.text, '\n');
            && ParseFenceLine(lines[info.lineStart]) == Some(Fence(r.prefix, r.flag, r.languageType, r.languageMeta))
            && IsFlag(r.flag) && NoWs(r.languageType)
            && (NoLineTerm(lines[info.lineStart]) ==>
                  r.prefix + LanguageLine(r.flag, r.languageType, r.languageMeta) == lines[info.lineStart])
            && (info.lineStart + 1 < info.lineEnd ==> Split(r.source.value, '\n') == lines[info.lineStart + 1..info.lineEnd])
            && (info.lineEnd <= info.lineStart + 1 ==> r.source.value == "")
  {
    var lines := Split(info.text, '\n');
    var f := ParseFenceLine(lines[info.lineStart]).value;
    assert f == Fence(r.prefix, r.flag, r.languageType, r.languageMeta);
    if NoLineTerm(lines[info.lineStart]) {
      LanguageLineDropsPrefix(lines[info.lineStart], f);
    }
    assert info.lineEnd < |lines| && r.source.value == BodyOf(lines, info.lineStart, info.lineEnd);
    SplitNoSep(info.text, '\n');
    BodyLines(lines, info.lineStart, info.lineEnd);
  }

  /** The defaults come exactly from a missing section or a first line that
      is not a fence opener. */
  lemma CreateInfoDefaults(languageOld: string, sourceOld: string, info: SectionInfo)
    requires CreateCodeBlockInfo(languageOld, sourceOld, Some(info)).Ok?
    ensures var r := CreateCodeBlockInfo(languageOld, sourceOld, Some(info)).value;
            var lines := Split(info.text, '\n');
            r.source.None? <==> ParseFenceLine(lines[info.lineStart]).None?
    ensures var r := CreateCodeBlockInfo(languageOld, sourceOld, Some(info)).value;
            r.source.None? ==> r == DefaultInfo(languageOld, sourceOld)
  {
  }

  class EditableCodeblock {
    var editor: Editor?
    var codeblockInfo: CodeblockInfo

    /** The constructor; `createCodeBlockInfo` throwing is modelled by
        `Create`, so the constructor itself needs a section it can read. The
        info's source is always overwritten with `source_old`. */
    constructor (languageOld: string, sourceOld: string, section: Option<SectionInfo>, editor: Editor?)
      requires CreateCodeBlockInfo(languageOld, sourceOld, section).Ok?
      ensures this.editor == editor
      ensures codeblockInfo == CreateCodeBlockInfo(languageOld, sourceOld, section).value.(source := Some(sourceOld))
    {
      this.editor := editor;
      var info := CreateCodeBlockInfo(languageOld, sourceOld, section).value;
      codeblockInfo := info.(source := Some(info.sourceOld));
    }

    /** The source that `renderPre` highlights. */
    function RenderPreSource(): (r: string)
      reads this
      ensures r == RenderSource(codeblockInfo.source.GetOr(codeblockInfo.sourceOld))
    {
      RenderSource(match codeblockInfo.source case Some(s) => s case None => codeblockInfo.sourceOld)
    }

    /** Tab in a textarea or input: the indent replaces the selection and the
        caret follows it. The indent is the vault's (a tab, or `tabSize`
        spaces), unless the caret's line starts with a tab or a space. */
    method Tab(area: Textarea, useTab: bool, tabSize: nat)
      requires WellFormedSelection(area.value, area.selectionStart, area.selectionEnd)
      modifies area
      ensures var indent := TabIndent(old(area.value), old(area.selectionStart), useTab, tabSize);
              var r := InsertIndent(old(area.value), old(area.selectionStart), old(area.selectionEnd), indent);
              && area.value == r.value
              && (area.selectionStart, area.selectionEnd) ==
                   TabSelection(old(area.value), old(area.selectionStart), old(area.selectionEnd), r, false)
      ensures WellFormedSelection(area.value, area.selectionStart, area.selectionEnd)
    {
      var value := area.value;
      var selectionStart := area.selectionStart;
      var selectionEnd := area.selectionEnd;
      var indentSpace := Repeat(' ', tabSize);
      var indent := ConfiguredIndent(useTab, tabSize);
      var lineStart := LastIndexOf(value, '\n', selectionStart - 1) + 1;
      var lineEnd := IndexOf(value, '\n', selectionStart);
      var lineCurrent := Substring(value, lineStart, if lineEnd == -1 then |value| else lineEnd);
      indent := AutoIndent(lineCurrent, indent, indentSpace);
      TabIndentOfLine(value, selectionStart, useTab, tabSize, lineCurrent);
      var newValue := Substring(value, 0, selectionStart) + indent + Substring(value, selectionEnd, |value|);
      var caret := selectionStart + |indent|;
      var outcome := TabOutcome(newValue, caret, caret);
      assert outcome == InsertIndent(old(area.value), old(area.selectionStart), old(area.selectionEnd),
                                     TabIndent(old(area.value), old(area.selectionStart), useTab, tabSize));
      area.WriteTab(outcome, false);
    }

    /** ArrowDown: from the textarea the key goes to its `cb_down`, which
        focuses the language input; from the language input it leaves the
        block for the line after it. */
    method ArrowDown(area: EditArea, section: Option<SectionInfo>) returns (outcome: ArrowOutcome)
      requires editor != null ==> editor.Valid()
      modifies editor
      ensures editor == old(editor)
      ensures area.TextArea? ==> outcome == DownCallback(area)
      ensures area.InputArea? ==> outcome == EditorMoved || outcome == Ignored
      ensures outcome == EditorMoved <==> area.InputArea? && editor != null && section.Some?
      ensures editor != null ==> editor.Valid()
      ensures outcome != EditorMoved && editor != null ==>
                editor.lines == old(editor.lines) && editor.cursorLine == old(editor.cursorLine) && editor.cursorCh == old(editor.cursorCh)
      ensures outcome == EditorMoved ==>
                var toLine := section.value.lineEnd + 1;
                && editor.lines == (if toLine > |old(editor.lines)| - 1 then old(editor.lines) + [""] else old(editor.lines))
                && editor.cursorLine == toLine && editor.cursorCh == 0
    {
      outcome := LineEdits.ArrowDown(editor, area, section, HasDownCallback(area));
    }

    /** ArrowUp: from the language input the key goes to its `cb_up`, which
        focuses the end of the textarea; from the textarea's first line it
        leaves the block for the line before it. */
    method ArrowUp(area: EditArea, section: Option<SectionInfo>) returns (outcome: ArrowOutcome)
      requires editor != null ==> editor.Valid()
      modifies editor
      ensures editor == old(editor)
      ensures area.InputArea? ==> outcome == UpCallback(area)
      ensures area.TextArea? ==> outcome == EditorMoved || outcome == Ignored
      ensures outcome == EditorMoved <==> area.TextArea? && editor != null && OnFirstLine(area) && section.Some?
      ensures editor != null ==> editor.Valid()
      ensures outcome != EditorMoved && editor != null ==>
                editor.lines == old(editor.lines) && editor.cursorLine == old(editor.cursorLine) && editor.cursorCh == old(editor.cursorCh)
      ensures outcome == EditorMoved ==>
                var toLine := section.value.lineStart - 1;
                && editor.lines == (if toLine < 0 then [""] + old(editor.lines) else old(editor.lines))
                && editor.cursorLine == (if toLine < 0 then 0 else toLine) && editor.cursorCh == 0
    {
      outcome := LineEdits.ArrowUp(editor, area, section, HasUpCallback(area));
    }

    /** `saveContent`: without a section or an editor it only shows a notice;
        otherwise it writes the language line over the opening line and the
        source over the body lines. */
    method SaveContent(section: Option<SectionInfo>, isUpdateLanguage: bool, isUpdateSource: bool) returns (notice: Option<string>)
      requires editor != null ==> editor.Valid()
      modifies editor
      ensures editor == old(editor)
      ensures editor != null ==> editor.Valid()
      ensures section.None? ==> notice == Some("Warning: without el section!")
      ensures section.Some? && editor == null ==> notice == Some("Warning: without editor!")
      ensures notice.Some? && editor != null ==> editor.lines == old(editor.lines)
      ensures section.Some? && editor != null ==>
                && notice.None?
                && editor.lines == SavedLines(old(editor.lines), section.value.lineStart, section.value.lineEnd,
                                              LanguageLine(codeblockInfo.flag, codeblockInfo.languageType, codeblockInfo.languageMeta),
                                              codeblockInfo.source.GetOr(codeblockInfo.sourceOld),
                                              isUpdateLanguage, isUpdateSource)
      ensures editor != null ==> editor.cursorLine == old(editor.cursorLine) && editor.cursorCh == old(editor.cursorCh)
    {
      if section.None? {
        return Some("Warning: without el section!");
      }
      if editor == null {
        return Some("Warning: without editor!");
      }
      var info := section.value;
      if isUpdateLanguage {
        var text := codeblockInfo.flag + codeblockInfo.languageType + codeblockInfo.languageMeta + "\n";
        assert text == LanguageLine(codeblockInfo.flag, codeblockInfo.languageType, codeblockInfo.languageMeta) + "\n";
        editor.ReplaceRange(text, info.lineStart, 0, info.lineStart + 1, 0);
      }
      if isUpdateSource {
        var source := match codeblockInfo.source case Some(s) => s case None => codeblockInfo.sourceOld;
        editor.ReplaceRange(source + "\n", info.lineStart + 1, 0, info.lineEnd, 0);
      }
      return None;
    }
  }

  /** The indent the Tab handler inserts. */
  function TabIndent(value: string, selectionStart: int, useTab: bool, tabSize: nat): (r: string)
    ensures r == "\t" || r == Repeat(' ', tabSize)
  {
    var lineStart := LastIndexOf(value, '\n', selectionStart - 1) + 1;
    var lineEnd := IndexOf(value, '\n', selectionStart);
    var lineCurrent := Substring(value, lineStart, if lineEnd == -1 then |value| else lineEnd);
    AutoIndent(lineCurrent, ConfiguredIndent(useTab, tabSize), Repeat(' ', tabSize))
  }

  /** `TabIndent` from the line of the caret. */
  lemma TabIndentOfLine(value: string, selectionStart: int, useTab: bool, tabSize: nat, lineCurrent: string)
    requires var lineEnd := IndexOf(value, '\n', selectionStart);
             lineCurrent == Substring(value, LastIndexOf(value, '\n', selectionStart - 1) + 1, if lineEnd == -1 then |value| else lineEnd)
    ensures TabIndent(value, selectionStart, useTab, tabSize) == AutoIndent(lineCurrent, ConfiguredIndent(useTab, tabSize), Repeat(' ', tabSize))
  {
  }

  /** Construction through `createCodeBlockInfo`, which throws on line
      indices past the section text. */
  method Create(languageOld: string, sourceOld: string, section: Option<SectionInfo>, editor: Editor?)
    returns (r: Result<EditableCodeblock>)
    ensures r.Err? <==> CreateCodeBlockInfo(languageOld, sourceOld, section).Err?
    ensures r.Ok? ==> fresh(r.value) && r.value.editor == editor &&
                      r.value.codeblockInfo == CreateCodeBlockInfo(languageOld, sourceOld, section).value.(source := Some(sourceOld))
  {
    match CreateCodeBlockInfo(languageOld, sourceOld, section)
    case Err(e) => return Err(e);
    case Ok(_) =>
      var block := new EditableCodeblock(languageOld, sourceOld, section, editor);
      return Ok(block);
  }
}
