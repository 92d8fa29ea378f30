/** The line-level editing logic shared by the editable code blocks of
    src/EditableCodeblock.ts, src/general/EditableCodeblock.ts and
    src/general/EditableCodeblockInOb.ts: the line bounds of a textarea
    selection, Tab and Shift-Tab indentation, the caret tests and cursor
    targets of the arrow keys, and the trailing-newline fix of the render
    source. */
module LineEdits {
  import opened Wrappers
  import opened JsString
  import opened FenceParse
  import opened HostEditor

  /** A selection the browser can report: ordered and inside the value. */
  predicate WellFormedSelection(text: string, s: int, e: int) {
    0 <= s <= e <= |text|
  }

  /** WebIDL's conversion of a number written to an `unsigned long`
      property such as `selectionStart`: the value modulo 2^32. */
  function ToUint32(v: int): (r: nat)
    ensures r < 0x1_0000_0000
    ensures 0 <= v < 0x1_0000_0000 ==> r == v
    ensures -0x1_0000_0000 <= v < 0 ==> r == v + 0x1_0000_0000
  {
    v % 0x1_0000_0000
  }

  /** Setting the selection range of a text control, by the text control
      selection rules of the HTML standard: positions past the value point at its end, and a start
      past the end is placed at the end. */
  function ClampRange(len: nat, start: nat, end: nat): (r: (nat, nat))
    ensures r.0 <= r.1 <= len
    ensures r.1 == (if end <= len then end else len)
    ensures start <= end <= len ==> r == (start, end)
    ensures r.0 < r.1 ==> r.0 == start
  {
    var e := if end <= len then end else len;
    var s := if start <= len then start else len;
    if e <= s then (e, e) else (s, e)
  }

  /** The selection after `value` is set: a different value moves the caret
      to its end. */
  function ValueSet(oldValue: string, sel: (nat, nat), v: string): (nat, nat) {
    if v != oldValue then (|v|, |v|) else sel
  }

  /** The selection after `selectionStart = v`: the end is raised to the new
      start, then the range is set. */
  function StartSet(len: nat, sel: (nat, nat), v: int): (r: (nat, nat))
    ensures r.0 <= r.1 <= len
    ensures len < 0x1_0000_0000 && 0 <= v <= len && sel.1 <= len ==> r == (v, if sel.1 < v then v else sel.1)
    ensures len < 0x1_0000_0000 && v < 0 && -0x1_0000_0000 + len <= v ==> r == (len, len)
  {
    var u := ToUint32(v);
    ClampRange(len, u, if sel.1 < u then u else sel.1)
  }

  /** The selection after `selectionEnd = v`: the range from the current start. */
  function EndSet(len: nat, sel: (nat, nat), v: int): (r: (nat, nat))
    ensures r.0 <= r.1 <= len
    ensures len < 0x1_0000_0000 && sel.0 <= v <= len ==> r == (sel.0, v)
    ensures len < 0x1_0000_0000 && 0 <= v < sel.0 <= len ==> r == (v, v)
    ensures len < 0x1_0000_0000 && v < 0 && -0x1_0000_0000 + len <= v && sel.0 <= len ==> r == (sel.0, len)
  {
    ClampRange(len, sel.0, ToUint32(v))
  }

  /** A `<textarea>`: its value and its selection, which the browser keeps
      well formed whatever a script writes to them. */
  class Textarea {
    var value: string
    var selectionStart: int
    var selectionEnd: int

    constructor (value: string, selectionStart: int, selectionEnd: int)
      requires WellFormedSelection(value, selectionStart, selectionEnd)
      ensures this.value == value && this.selectionStart == selectionStart && this.selectionEnd == selectionEnd
    {
      this.value := value;
      this.selectionStart := selectionStart;
      this.selectionEnd := selectionEnd;
    }

    /** `textarea.value = v`. */
    method SetValue(v: string)
      requires WellFormedSelection(value, selectionStart, selectionEnd)
      modifies this
      ensures value == v
      ensures (selectionStart, selectionEnd) == ValueSet(old(value), (old(selectionStart), old(selectionEnd)), v)
      ensures WellFormedSelection(value, selectionStart, selectionEnd)
    {
      if v != value {
        selectionStart, selectionEnd := |v|, |v|;
      }
      value := v;
    }

    /** `textarea.selectionStart = v`. */
    method SetSelectionStart(v: int)
      requires WellFormedSelection(value, selectionStart, selectionEnd)
      modifies this
      ensures value == old(value)
      ensures (selectionStart, selectionEnd) == StartSet(|value|, (old(selectionStart), old(selectionEnd)), v)
      ensures WellFormedSelection(value, selectionStart, selectionEnd)
    {
      var r := StartSet(|value|, (selectionStart, selectionEnd), v);
      selectionStart, selectionEnd := r.0, r.1;
    }

    /** `textarea.selectionEnd = v`. */
    method SetSelectionEnd(v: int)
      requires WellFormedSelection(value, selectionStart, selectionEnd)
      modifies this
      ensures value == old(value)
      ensures (selectionStart, selectionEnd) == EndSet(|value|, (old(selectionStart), old(selectionEnd)), v)
      ensures WellFormedSelection(value, selectionStart, selectionEnd)
    {
      var r := EndSet(|value|, (selectionStart, selectionEnd), v);
      selectionStart, selectionEnd := r.0, r.1;
    }

    /** The writes of a Tab handler: the value, then the start and the end
        (the block form), or the end and then the start
        (`selectionStart = selectionEnd = ...`, the insertion). */
    method WriteTab(r: TabOutcome, block: bool)
      requires WellFormedSelection(value, selectionStart, selectionEnd)
      modifies this
      ensures value == r.value
      ensures (selectionStart, selectionEnd) == TabSelection(old(value), old(selectionStart), old(selectionEnd), r, block)
      ensures WellFormedSelection(value, selectionStart, selectionEnd)
    {
      SetValue(r.value);
      if block {
        SetSelectionStart(r.selectionStart);
        SetSelectionEnd(r.selectionEnd);
      } else {
        SetSelectionEnd(r.selectionStart);
        SetSelectionStart(r.selectionStart);
      }
    }
  }

  // ----- line bounds of a selection -----

  /** `text.lastIndexOf('\n', s - 1) + 1`, as the general Tab handler writes it. */
  function LineStartAsWritten(text: string, s: int): int {
    LastIndexOf(text, '\n', s - 1) + 1
  }

  /** The start of the line holding position `s`: 0 on the first line, else
      just after the last newline before `s`. */
  function LineStart(text: string, s: int): (r: nat)
    requires 0 <= s <= |text|
    ensures r <= s && (r == 0 || text[r - 1] == '\n')
    ensures forall k :: r <= k < s ==> text[k] != '\n'
  {
    if s == 0 then 0 else LastIndexBelow(text, '\n', s) + 1
  }

  /** `text.indexOf('\n', e)`, or the text length when there is none. */
  function LineEnd(text: string, e: int): (r: nat)
    ensures r <= |text|
  {
    var k := IndexOf(text, '\n', e);
    if k == -1 then |text| else k
  }

  /** The line end is the first newline at or after `e`, or the end of the text. */
  lemma LineEndBounds(text: string, e: int)
    requires 0 <= e <= |text|
    ensures var r := LineEnd(text, e);
            e <= r && (r == |text| || text[r] == '\n') && forall k :: e <= k < r ==> text[k] != '\n'
  {
  }

  /** The written start agrees with the line start everywhere but at
      position 0 of a text that begins with a newline. */
  lemma LineStartAsWrittenAgrees(text: string, s: int)
    requires 0 <= s <= |text|
    requires s > 0 || text == [] || text[0] != '\n'
    ensures LineStartAsWritten(text, s) == LineStart(text, s)
  {
    if s > 0 {
      assert Clamp(s - 1, 0, |text|) == s - 1;
    }
  }

  /** With the caret at 0 of "\nabc" the written start is 1, past the line
      end 0: the line bounds are reversed. */
  lemma LineStartAsWrittenOvershoots()
    ensures LineStartAsWritten("\nabc", 0) == 1
    ensures LineEnd("\nabc", 0) == 0
    ensures LineStart("\nabc", 0) == 0
  {
    assert "\nabc"[0] == '\n';
  }

  // ----- indentation -----

  /** The configured indent: a tab, or `tabSize` spaces. */
  function ConfiguredIndent(useTab: bool, tabSize: nat): (r: string)
    ensures useTab ==> r == "\t"
    ensures !useTab ==> r == Repeat(' ', tabSize)
  {
    if useTab then "\t" else Repeat(' ', tabSize)
  }

  /** The automatic indent: a line that starts with a tab is indented by a
      tab, one that starts with a space by `tabSize` spaces, any other by
      the configured indent. */
  function AutoIndent(line: string, indent: string, indentSpace: string): (r: string)
    ensures line != [] && line[0] == '\t' ==> r == "\t"
    ensures line != [] && line[0] == ' ' ==> r == indentSpace
    ensures (line == [] || (line[0] != '\t' && line[0] != ' ')) ==> r == indent
  {
    if StartsWith(line, "\t") then "\t"
    else if StartsWith(line, " ") then indentSpace
    else indent
  }

  /** `lines.map(line => indent + line)`. */
  function IndentLines(lines: seq<string>, indent: string): (r: seq<string>)
    ensures |r| == |lines|
    ensures forall i :: 0 <= i < |lines| ==> r[i] == indent + lines[i]
    decreases |lines|
  {
    if lines == [] then [] else [indent + lines[0]] + IndentLines(lines[1..], indent)
  }

  /** One line with one leading indent removed, when it has one. */
  function DedentLine(line: string, indent: string): (r: string)
    ensures StartsWith(line, indent) ==> indent + r == line
    ensures !StartsWith(line, indent) ==> r == line
  {
    if StartsWith(line, indent) then line[|indent|..] else line
  }

  function DedentLines(lines: seq<string>, indent: string): (r: seq<string>)
    ensures |r| == |lines|
    ensures forall i :: 0 <= i < |lines| ==> r[i] == DedentLine(lines[i], indent)
    decreases |lines|
  {
    if lines == [] then [] else [DedentLine(lines[0], indent)] + DedentLines(lines[1..], indent)
  }

  lemma {:induction false} DedentLinesAppend(lines: seq<string>, line: string, indent: string)
    ensures DedentLines(lines + [line], indent) == DedentLines(lines, indent) + [DedentLine(line, indent)]
    decreases |lines|
  {
    if lines == [] {
      assert [] + [line] == [line];
    } else {
      assert (lines + [line])[1..] == lines[1..] + [line];
      DedentLinesAppend(lines[1..], line, indent);
    }
  }

  /** The number of lines that start with the indent. */
  function CountIndented(lines: seq<string>, indent: string): (r: nat)
    ensures r <= |lines|
    decreases |lines|
  {
    if lines == [] then 0
    else (if StartsWith(lines[0], indent) then 1 else 0) + CountIndented(lines[1..], indent)
  }

  lemma {:induction false} CountIndentedAppend(lines: seq<string>, line: string, indent: string)
    ensures CountIndented(lines + [line], indent) ==
            CountIndented(lines, indent) + (if StartsWith(line, indent) then 1 else 0)
    decreases |lines|
  {
    if lines == [] {
      assert [] + [line] == [line];
    } else {
      assert (lines + [line])[1..] == lines[1..] + [line];
      CountIndentedAppend(lines[1..], line, indent);
    }
  }

  /** No line starts with the indent exactly when none is counted, and then
      nothing is removed. */
  lemma {:induction false} CountIndentedZero(lines: seq<string>, indent: string)
    ensures CountIndented(lines, indent) == 0 <==> forall i :: 0 <= i < |lines| ==> !StartsWith(lines[i], indent)
    ensures CountIndented(lines, indent) == 0 ==> DedentLines(lines, indent) == lines
    decreases |lines|
  {
    if lines != [] {
      CountIndentedZero(lines[1..], indent);
      if CountIndented(lines, indent) == 0 {
        assert DedentLines(lines, indent) == [lines[0]] + lines[1..];
      }
    }
  }

  /** Shift-Tab undoes Tab: every indented line starts with the indent and
      loses exactly that indent again. */
  lemma {:induction false} DedentIndentLines(lines: seq<string>, indent: string)
    ensures DedentLines(IndentLines(lines, indent), indent) == lines
    ensures CountIndented(IndentLines(lines, indent), indent) == |lines|
    decreases |lines|
  {
    if lines != [] {
      DedentIndentLines(lines[1..], indent);
      var line := indent + lines[0];
      assert StartsWith(line, indent) by {
        assert line[..|indent|] == indent;
      }
      assert line[|indent|..] == lines[0];
      assert IndentLines(lines, indent)[1..] == IndentLines(lines[1..], indent);
    }
  }

  /** An indent without newlines adds no line: the indented block splits
      back into the indented lines. */
  lemma IndentedBlockLines(center: string, indent: string)
    requires '\n' !in indent
    ensures Split(Join(IndentLines(Split(center, '\n'), indent), '\n'), '\n') == IndentLines(Split(center, '\n'), indent)
  {
    var lines := Split(center, '\n');
    var out := IndentLines(lines, indent);
    SplitNoSep(center, '\n');
    forall i | 0 <= i < |out|
      ensures '\n' !in out[i]
    {
      assert out[i] == indent + lines[i];
      assert '\n' !in lines[i];
    }
    SplitJoin(out, '\n');
  }

  // ----- Tab and Shift-Tab on a textarea -----

  /** What the Tab handler writes to the textarea: the new value and the two
      selection numbers, before the browser clamps them (`TabSelection`). */
  datatype TabOutcome = TabOutcome(value: string, selectionStart: int, selectionEnd: int)

  /** Tab with the caret collapsed: the indent replaces the selection and the
      caret lands right after it. */
  function InsertIndent(text: string, s: int, e: int, indent: string): (r: TabOutcome)
    ensures r.selectionStart == r.selectionEnd == s + |indent|
    ensures WellFormedSelection(text, s, e) ==>
              && r.value == text[..s] + indent + text[e..]
              && r.value[..s + |indent|] == text[..s] + indent
              && r.value[s + |indent|..] == text[e..]
  {
    var v := Substring(text, 0, s) + indent + Substring(text, e, |text|);
    TabOutcome(v, s + |indent|, s + |indent|)
  }

  /** The general Tab handler's change once the line start `ss` is known:
      with a selection or Shift held, the block of lines from `ss` to the end
      of the selection's last line is indented, or loses one leading indent
      per line; otherwise the indent is inserted. The indent is the
      configured one unless the block's first character chooses another. */
  function TabChange(text: string, s: int, e: int, ss: int, shift: bool, indent0: string, indentSpace: string): TabOutcome {
    var ee := LineEnd(text, e);
    var indent := AutoIndent(Substring(text, ss, ee), indent0, indentSpace);
    if s != e || shift then
      TabBlock(Substring(text, 0, ss), Split(Substring(text, ss, ee), '\n'), Substring(text, ee, |text|), s, e, shift, indent)
    else InsertIndent(text, s, e, indent)
  }

  /** The block form of Tab and Shift-Tab, between the text before the first
      selected line and the text after the last. */
  function TabBlock(before: string, lines: seq<string>, after: string, s: int, e: int, shift: bool, indent: string): TabOutcome
    requires lines != []
  {
    if shift then
      var subStart := if StartsWith(lines[0], indent) then 1 else 0;
      TabOutcome(before + Join(DedentLines(lines, indent), '\n') + after,
                 s - |indent| * subStart,
                 e - |indent| * CountIndented(lines, indent))
    else
      TabOutcome(before + Join(IndentLines(lines, indent), '\n') + after,
                 s + |indent|,
                 e + |indent| * |lines|)
  }

  /** The change with the written line start. */
  function TabChangeAsWritten(text: string, s: int, e: int, shift: bool, indent0: string, indentSpace: string): TabOutcome {
    TabChange(text, s, e, LineStartAsWritten(text, s), shift, indent0, indentSpace)
  }

  /** The change with the line start of the selection's first line. */
  function TabEdit(text: string, s: int, e: int, shift: bool, indent0: string, indentSpace: string): TabOutcome
    requires WellFormedSelection(text, s, e)
  {
    TabChange(text, s, e, LineStart(text, s), shift, indent0, indentSpace)
  }

  /** The selection the browser keeps after the writes of `Textarea.WriteTab`. */
  function TabSelection(text: string, s: nat, e: nat, r: TabOutcome, block: bool): (sel: (nat, nat))
    ensures sel.0 <= sel.1 <= |r.value|
  {
    var len := |r.value|;
    var afterValue := ValueSet(text, (s, e), r.value);
    if block then EndSet(len, StartSet(len, afterValue, r.selectionStart), r.selectionEnd)
    else StartSet(len, EndSet(len, afterValue, r.selectionStart), r.selectionStart)
  }

  /** Positions written in order and inside the new value are kept as written. */
  lemma TabSelectionExact(text: string, s: nat, e: nat, r: TabOutcome, block: bool)
    requires 0 <= r.selectionStart <= r.selectionEnd <= |r.value| < 0x1_0000_0000
    requires !block ==> r.selectionStart == r.selectionEnd
    ensures TabSelection(text, s, e, r, block) == (r.selectionStart, r.selectionEnd)
  {
    var len := |r.value|;
    var afterValue := ValueSet(text, (s, e), r.value);
    if block {
      var mid := StartSet(len, afterValue, r.selectionStart);
      assert mid.0 == r.selectionStart;
    } else {
      var mid := EndSet(len, afterValue, r.selectionStart);
      assert mid.1 == r.selectionStart;
    }
  }

  /** A reversed pair written in the block form collapses to the end written
      last: Shift-Tab can move the end before the start. */
  lemma TabSelectionReversed(text: string, s: nat, e: nat, r: TabOutcome)
    requires 0 <= r.selectionEnd < r.selectionStart <= |r.value| < 0x1_0000_0000
    ensures TabSelection(text, s, e, r, true) == (r.selectionEnd, r.selectionEnd)
  {
  }

  /** Negative positions wrap round to huge ones and so point at the end of
      the value: Shift-Tab before the first indent of the first line puts the
      caret at the end of the text. */
  lemma TabSelectionNegative(text: string, s: nat, e: nat, r: TabOutcome, block: bool)
    requires -0x1_0000 <= r.selectionStart < 0 && -0x1_0000 <= r.selectionEnd < 0
    requires |r.value| < 0xFFFF_0000
    ensures TabSelection(text, s, e, r, block) == (|r.value|, |r.value|)
  {
  }

  /** The reversed bounds make Shift-Tab with the caret at 0 of "\nabc" copy
      the first newline twice, although no line starts with the indent. */
  lemma ShiftTabAsWrittenDuplicates()
    ensures TabChangeAsWritten("\nabc", 0, 0, true, "\t", "    ").value == "\n\n\nabc"
  {
    var text := "\nabc";
    var lines: seq<string> := [[], []];
    ExampleBounds();
    ExampleSubstrings();
    ExampleLines();
    ShiftTabValue(text, 0, 0, 1, "\t", "    ", "\n", "\t", lines, "\n", text);
    assert "\n" + Join(DedentLines(lines, "\t"), '\n') + text == "\n\n\nabc";
  }

  lemma ExampleBounds()
    ensures LineStartAsWritten("\nabc", 0) == 1 && LineEnd("\nabc", 0) == 0
  {
    LineStartAsWrittenOvershoots();
  }

  lemma ExampleSubstrings()
    ensures Substring("\nabc", 1, 0) == "\n" && Substring("\nabc", 0, 1) == "\n"
    ensures Substring("\nabc", 0, 4) == "\nabc"
  {
  }

  lemma ExampleLines()
    ensures AutoIndent("\n", "\t", "    ") == "\t"
    ensures Split("\n", '\n') == [[], []]
    ensures Join(DedentLines([[], []], "\t"), '\n') == "\n"
  {
    SplitConcat([], [], '\n');
    assert [] + ['\n'] + [] == "\n";
    assert DedentLines([[], []], "\t") == [[], []];
  }

  /** The Shift-Tab value from its pieces. */
  lemma ShiftTabValue(text: string, s: int, e: int, ss: int, indent0: string, indentSpace: string,
                      center: string, indent: string, lines: seq<string>, before: string, after: string)
    requires center == Substring(text, ss, LineEnd(text, e))
    requires indent == AutoIndent(center, indent0, indentSpace) && lines == Split(center, '\n')
    requires before == Substring(text, 0, ss) && after == Substring(text, LineEnd(text, e), |text|)
    ensures TabChange(text, s, e, ss, true, indent0, indentSpace).value ==
            before + Join(DedentLines(lines, indent), '\n') + after
  {
  }

  /** With the corrected line start the same key press changes nothing. */
  lemma ShiftTabCorrectedKeeps()
    ensures TabEdit("\nabc", 0, 0, true, "\t", "    ").value == "\nabc"
  {
    var text := "\nabc";
    LineStartAsWrittenOvershoots();
    var center := Substring(text, 0, 0);
    assert center == [];
    var lines := Split(center, '\n');
    assert lines == [[]];
    assert DedentLines(lines, "\t") == [[]];
    assert Substring(text, 0, |text|) == text;
  }

  /** The selected block: the text is `before + block + after`, split at the
      line bounds of the selection. */
  lemma BlockSplit(text: string, s: int, e: int)
    requires WellFormedSelection(text, s, e)
    ensures var ss := LineStart(text, s); var ee := LineEnd(text, e);
            && ss <= ee
            && Substring(text, 0, ss) == text[..ss]
            && Substring(text, ss, ee) == text[ss..ee]
            && Substring(text, ee, |text|) == text[ee..]
            && text[..ss] + text[ss..ee] + text[ee..] == text
  {
    LineEndBounds(text, e);
  }

  /** A Tab with a selection, or a Shift-Tab, rewrites the block between
      the text before its first line and the text after its last. */
  lemma TabEditIsBlock(text: string, s: int, e: int, shift: bool, indent0: string, indentSpace: string)
    requires WellFormedSelection(text, s, e) && (s != e || shift)
    ensures var ss := LineStart(text, s); var ee := LineEnd(text, e);
            ss <= ee &&
            TabEdit(text, s, e, shift, indent0, indentSpace) ==
              TabBlock(text[..ss], Split(text[ss..ee], '\n'), text[ee..], s, e, shift, AutoIndent(text[ss..ee], indent0, indentSpace))
  {
    BlockSplit(text, s, e);
  }

  /** Tab with a selection indents each line of the block once and keeps
      the text around the block. */
  lemma TabIndentsBlock(text: string, s: int, e: int, indent0: string, indentSpace: string)
    requires WellFormedSelection(text, s, e) && s != e
    ensures var ss := LineStart(text, s); var ee := LineEnd(text, e);
            var indent := AutoIndent(text[ss..ee], indent0, indentSpace);
            TabEdit(text, s, e, false, indent0, indentSpace) ==
              TabOutcome(text[..ss] + Join(IndentLines(Split(text[ss..ee], '\n'), indent), '\n') + text[ee..],
                         s + |indent|,
                         e + |indent| * |Split(text[ss..ee], '\n')|)
  {
    TabEditIsBlock(text, s, e, false, indent0, indentSpace);
  }

  /** Shift-Tab removes one leading indent from each line that has one; the
      selection start moves back only when the first line had it, the end by
      one indent per changed line. */
  lemma ShiftTabDedentsBlock(text: string, s: int, e: int, indent0: string, indentSpace: string)
    requires WellFormedSelection(text, s, e)
    ensures var ss := LineStart(text, s); var ee := LineEnd(text, e);
            var indent := AutoIndent(text[ss..ee], indent0, indentSpace);
            var lines := Split(text[ss..ee], '\n');
            TabEdit(text, s, e, true, indent0, indentSpace) ==
              TabOutcome(text[..ss] + Join(DedentLines(lines, indent), '\n') + text[ee..],
                         if StartsWith(lines[0], indent) then s - |indent| else s,
                         e - |indent| * CountIndented(lines, indent))
  {
    TabEditIsBlock(text, s, e, true, indent0, indentSpace);
  }

  /** Shift-Tab on a block where no line starts with the indent leaves the
      text as it was. */
  lemma ShiftTabNoIndentUnchanged(text: string, s: int, e: int, indent: string, indentSpace: string)
    requires WellFormedSelection(text, s, e)
    requires NoLineIndented(text, s, e, AutoIndent(BlockOf(text, s, e), indent, indentSpace))
    ensures TabEdit(text, s, e, true, indent, indentSpace).value == text
  {
    var ss := LineStart(text, s);
    var ee := LineEnd(text, e);
    var block := text[ss..ee];
    var chosen := AutoIndent(block, indent, indentSpace);
    var lines := Split(block, '\n');
    ShiftTabDedentsBlock(text, s, e, indent, indentSpace);
    CountIndentedZero(lines, chosen);
    assert DedentLines(lines, chosen) == lines;
    JoinSplit(block, '\n');
    BlockSplit(text, s, e);
  }

  /** The lines of the selection's block. */
  function BlockOf(text: string, s: int, e: int): string
    requires WellFormedSelection(text, s, e)
  {
    LineEndBounds(text, e);
    text[LineStart(text, s)..LineEnd(text, e)]
  }

  predicate NoLineIndented(text: string, s: int, e: int, indent: string)
    requires WellFormedSelection(text, s, e)
  {
    var lines := Split(BlockOf(text, s, e), '\n');
    forall i :: 0 <= i < |lines| ==> !StartsWith(lines[i], indent)
  }

  // ----- arrow keys -----

  /** The element an arrow key is pressed in: a textarea, or an `<input>`
      (which has a single line, so the caret is always on its first and last
      line). */
  datatype EditArea = TextArea(value: string, selectionStart: int, selectionEnd: int) | InputArea

  /** The ArrowDown test: as many lines before the selection end as in the
      whole value. */
  predicate OnLastLine(area: EditArea) {
    match area
    case InputArea => true
    case TextArea(value, _, selectionEnd) =>
      |Split(Substring(value, 0, selectionEnd), '\n')| == |Split(value, '\n')|
  }

  /** The ArrowUp test: one line before the selection start. */
  predicate OnFirstLine(area: EditArea) {
    match area
    case InputArea => true
    case TextArea(value, selectionStart, _) =>
      |Split(Substring(value, 0, selectionStart), '\n')| == 1
  }

  /** The caret is on the last line exactly when no newline follows it. */
  lemma OnLastLineIff(value: string, s: int, e: int)
    requires 0 <= e <= |value|
    ensures OnLastLine(TextArea(value, s, e)) <==> '\n' !in value[e..]
  {
    SplitCount(value[..e], '\n');
    SplitCount(value, '\n');
    assert value[..e] + value[e..] == value;
    CountCharAppend(value[..e], value[e..], '\n');
  }

  /** The caret is on the first line exactly when no newline precedes it. */
  lemma OnFirstLineIff(value: string, s: int, e: int)
    requires 0 <= s <= |value|
    ensures OnFirstLine(TextArea(value, s, e)) <==> '\n' !in value[..s]
  {
    SplitCount(value[..s], '\n');
  }

  /** How an arrow key in an edit area ends: ignored, the host editor's
      cursor moved past the block, or focus handed to the other edit area. */
  datatype ArrowOutcome = Ignored | EditorMoved | FocusLanguageInput | FocusSourceEnd

  /** The wiring of the two edit areas: the textarea is given a `cb_down`
      and the language input a `cb_up`; the other two slots are empty. */
  predicate HasDownCallback(area: EditArea) {
    area.TextArea?
  }

  predicate HasUpCallback(area: EditArea) {
    area.InputArea?
  }

  /** The textarea's `cb_down`: on its last line, focus goes to the start of
      the language input. */
  function DownCallback(area: EditArea): ArrowOutcome {
    if OnLastLine(area) then FocusLanguageInput else Ignored
  }

  /** The language input's `cb_up`: focus goes to the end of the textarea. */
  function UpCallback(area: EditArea): ArrowOutcome {
    FocusSourceEnd
  }

  /** ArrowDown. An area with a `cb_down` hands the key to it and the editor
      is left alone. Otherwise, when the caret is on the last line, the
      cursor goes to the line after the block, and when that is past the last
      line a newline is first appended to the document. Nothing happens
      without an editor, off the last line, or without section information. */
  method ArrowDown(editor: Editor?, area: EditArea, section: Option<SectionInfo>, hasCallback: bool) returns (outcome: ArrowOutcome)
    requires editor != null ==> editor.Valid()
    modifies editor
    ensures hasCallback ==> outcome == DownCallback(area)
    ensures !hasCallback ==> outcome == EditorMoved || outcome == Ignored
    ensures outcome == EditorMoved <==> !hasCallback && editor != null && OnLastLine(area) && section.Some?
    ensures editor != null ==> editor.Valid()
    ensures outcome != EditorMoved && editor != null ==>
              editor.lines == old(editor.lines) && editor.cursorLine == old(editor.cursorLine) && editor.cursorCh == old(editor.cursorCh)
    ensures outcome == EditorMoved ==>
              var toLine := section.value.lineEnd + 1;
              && editor.lines == (if toLine > |old(editor.lines)| - 1 then old(editor.lines) + [""] else old(editor.lines))
              && editor.cursorLine == toLine && editor.cursorCh == 0
  {
    if hasCallback {
      return DownCallback(area);
    }
    if editor == null || !OnLastLine(area) || section.None? {
      return Ignored;
    }
    var toLine := section.value.lineEnd + 1;
    if toLine > |editor.lines| - 1 {
      var lastLineIndex := |editor.lines| - 1;
      var lastLineContent := editor.lines[lastLineIndex];
      AppendBlankLine(editor.lines);
      editor.ReplaceRange("\n", lastLineIndex, |lastLineContent|, lastLineIndex, |lastLineContent|);
    }
    editor.SetCursor(toLine, 0);
    return EditorMoved;
  }

  /** ArrowUp. An area with a `cb_up` hands the key to it. Otherwise, when
      the caret is on the first line, the cursor goes to the line before the
      block, or, for a block on the first line, a newline is inserted at the
      top and the cursor goes to line 0. */
  method ArrowUp(editor: Editor?, area: EditArea, section: Option<SectionInfo>, hasCallback: bool) returns (outcome: ArrowOutcome)
    requires editor != null ==> editor.Valid()
    modifies editor
    ensures hasCallback ==> outcome == UpCallback(area)
    ensures !hasCallback ==> outcome == EditorMoved || outcome == Ignored
    ensures outcome == EditorMoved <==> !hasCallback && editor != null && OnFirstLine(area) && section.Some?
    ensures editor != null ==> editor.Valid()
    ensures outcome != EditorMoved && editor != null ==>
              editor.lines == old(editor.lines) && editor.cursorLine == old(editor.cursorLine) && editor.cursorCh == old(editor.cursorCh)
    ensures outcome == EditorMoved ==>
              var toLine := section.value.lineStart - 1;
              && editor.lines == (if toLine < 0 then [""] + old(editor.lines) else old(editor.lines))
              && editor.cursorLine == (if toLine < 0 then 0 else toLine) && editor.cursorCh == 0
  {
    if hasCallback {
      return UpCallback(area);
    }
    if editor == null || !OnFirstLine(area) || section.None? {
      return Ignored;
    }
    var toLine := section.value.lineStart - 1;
    if toLine < 0 {
      toLine := 0;
      PrependBlankLine(editor.lines);
      editor.ReplaceRange("\n", 0, 0, 0, 0);
    }
    editor.SetCursor(toLine, 0);
    return EditorMoved;
  }

  // ----- saving back into the document -----

  /** A `transaction` from the start of line `a` to the start of line `b`,
      as the editor applies it. */
  function ApplyEdit(lines: seq<string>, a: nat, b: nat, text: string): seq<string> {
    if ValidRange(lines, a, 0, b, 0) then EditRange(lines, a, 0, b, 0, text) else lines
  }

  /** The line a language save writes over the opening fence line. */
  function LanguageLine(flag: string, languageType: string, languageMeta: string): string {
    flag + (languageType + languageMeta)
  }

  /** The document after a save: the language change over line `lineStart`,
      then the source change over lines `lineStart+1 .. lineEnd-1`, both with
      the line numbers read before either change. */
  function SavedLines(lines: seq<string>, lineStart: nat, lineEnd: nat, languageLine: string, source: string,
                      isUpdateLanguage: bool, isUpdateSource: bool): seq<string> {
    var afterLanguage := if isUpdateLanguage then ApplyEdit(lines, lineStart, lineStart + 1, languageLine + "\n") else lines;
    if isUpdateSource then ApplyEdit(afterLanguage, lineStart + 1, lineEnd, source + "\n") else afterLanguage
  }

  /** A language save of a single line rewrites line `lineStart` and no other. */
  lemma LanguageSaveRewritesLine(lines: seq<string>, lineStart: nat, lineEnd: nat, languageLine: string, source: string)
    requires NoSep(lines, '\n') && lineStart + 1 < |lines| && '\n' !in languageLine
    ensures SavedLines(lines, lineStart, lineEnd, languageLine, source, true, false) == lines[lineStart := languageLine]
  {
    ReplaceWholeLines(lines, lineStart, lineStart + 1, languageLine);
    SplitNoSepString(languageLine, '\n');
    assert lines[lineStart := languageLine] == lines[..lineStart] + [languageLine] + lines[lineStart + 1..];
  }

  /** A source save puts the lines of the source in place of the body lines
      and keeps every line up to the opening fence and from the closing fence on. */
  lemma SourceSaveReplacesBody(lines: seq<string>, lineStart: nat, lineEnd: nat, languageLine: string, source: string)
    requires NoSep(lines, '\n') && lineStart + 1 <= lineEnd < |lines|
    ensures var r := SavedLines(lines, lineStart, lineEnd, languageLine, source, false, true);
            r == lines[..lineStart + 1] + Split(source, '\n') + lines[lineEnd..]
  {
    assert ValidRange(lines, lineStart + 1, 0, lineEnd, 0);
    ReplaceWholeLines(lines, lineStart + 1, lineEnd, source);
    assert SavedLines(lines, lineStart, lineEnd, languageLine, source, false, true)
        == EditRange(lines, lineStart + 1, 0, lineEnd, 0, source + "\n");
  }

  /** Saving back the body the section holds leaves the document as it was. */
  lemma SourceSaveOfBodyKeeps(lines: seq<string>, lineStart: nat, lineEnd: nat, languageLine: string)
    requires NoSep(lines, '\n') && lineStart + 1 < lineEnd < |lines|
    ensures SavedLines(lines, lineStart, lineEnd, languageLine, BodyOf(lines, lineStart, lineEnd), false, true) == lines
  {
    var body := BodyOf(lines, lineStart, lineEnd);
    calc {
      SavedLines(lines, lineStart, lineEnd, languageLine, body, false, true);
    == { SourceSaveReplacesBody(lines, lineStart, lineEnd, languageLine, body); }
      lines[..lineStart + 1] + Split(body, '\n') + lines[lineEnd..];
    == { BodyLines(lines, lineStart, lineEnd); }
      lines[..lineStart + 1] + lines[lineStart + 1..lineEnd] + lines[lineEnd..];
    == { assert lines[..lineStart + 1] + lines[lineStart + 1..lineEnd] == lines[..lineEnd]; }
      lines;
    }
  }

  /** The language line is the parsed opening line without its prefix: on a
      line inside a quote or a list item, a save drops the `> ` or `- `. */
  lemma LanguageLineDropsPrefix(line: string, f: Fence)
    requires NoLineTerm(line) && ParseFenceLine(line) == Some(f)
    ensures f.prefix + LanguageLine(f.flag, f.languageType, f.languageMeta) == line
  {
    FenceReconstructs(line);
  }

  // ----- render source -----

  /** The source handed to the highlighter: a source ending in a newline
      gets one more, so that its blank last line is drawn. */
  function RenderSource(source: string): (r: string)
    ensures EndsWith(source, "\n") ==> r == source + "\n"
    ensures !EndsWith(source, "\n") ==> r == source
  {
    if EndsWith(source, "\n") then source + "\n" else source
  }

  /** One newline is appended exactly when the source ends with one, and the
      result never ends with a single newline after other text. */
  lemma RenderSourceIff(source: string)
    ensures |RenderSource(source)| == |source| + 1 <==> EndsWith(source, "\n")
    ensures StartsWith(RenderSource(source), source)
    ensures var r := RenderSource(source);
            EndsWith(r, "\n") ==> |r| >= 2 && r[|r| - 2] == '\n'
  {
    var r := RenderSource(source);
    assert r[..|source|] == source;
  }
}
