/** The host's Markdown editor, as far as the editable code blocks use it:
    `lineCount`, `getLine`, `replaceRange`, `transaction` with one change,
    and `setCursor` (positions are a line index and a character offset).
    The document is held as its list of lines, the pieces of
    `text.split('\n')`. */
module HostEditor {
  import opened JsString

  /** A position `{line, ch}` that names a character boundary of the document. */
  predicate ValidPos(lines: seq<string>, line: int, ch: int) {
    0 <= line < |lines| && 0 <= ch <= |lines[line]|
  }

  /** `from` is not after `to`. */
  predicate Ordered(fromLine: int, fromCh: int, toLine: int, toCh: int) {
    fromLine < toLine || (fromLine == toLine && fromCh <= toCh)
  }

  predicate ValidRange(lines: seq<string>, fromLine: int, fromCh: int, toLine: int, toCh: int) {
    ValidPos(lines, fromLine, fromCh) && ValidPos(lines, toLine, toCh) && Ordered(fromLine, fromCh, toLine, toCh)
  }

  /** The lines after the text between the two positions is replaced by `text`. */
  function EditRange(lines: seq<string>, fromLine: nat, fromCh: nat, toLine: nat, toCh: nat, text: string): (r: seq<string>)
    requires ValidRange(lines, fromLine, fromCh, toLine, toCh)
    ensures |r| >= 1
  {
    lines[..fromLine] + Split(lines[fromLine][..fromCh] + text + lines[toLine][toCh..], '\n') + lines[toLine + 1..]
  }

  class Editor {
    var lines: seq<string>
    var cursorLine: int
    var cursorCh: int

    /** Every line is a piece of a split, so none holds a newline. */
    ghost predicate Valid()
      reads this
    {
      |lines| >= 1 && NoSep(lines, '\n')
    }

    constructor (doc: string)
      ensures lines == Split(doc, '\n') && cursorLine == 0 && cursorCh == 0
      ensures Valid()
    {
      lines := Split(doc, '\n');
      cursorLine := 0;
      cursorCh := 0;
      SplitNoSep(doc, '\n');
    }

    /** `getValue()`. */
    function Text(): string
      reads this
    {
      Join(lines, '\n')
    }

    /** `replaceRange(text, from, to)` and a `transaction` with that one
        change. A change whose positions are not both in the document, or are
        reversed, is not applied. */
    method ReplaceRange(text: string, fromLine: int, fromCh: int, toLine: int, toCh: int)
      requires Valid()
      modifies this
      ensures Valid()
      ensures ValidRange(old(lines), fromLine, fromCh, toLine, toCh) ==>
                lines == EditRange(old(lines), fromLine, fromCh, toLine, toCh, text)
      ensures !ValidRange(old(lines), fromLine, fromCh, toLine, toCh) ==> lines == old(lines)
      ensures cursorLine == old(cursorLine) && cursorCh == old(cursorCh)
    {
      if ValidRange(lines, fromLine, fromCh, toLine, toCh) {
        var pieces := lines[fromLine][..fromCh] + text + lines[toLine][toCh..];
        SplitNoSep(pieces, '\n');
        NoSepConcat3(lines[..fromLine], Split(pieces, '\n'), lines[toLine + 1..]);
        lines := EditRange(lines, fromLine, fromCh, toLine, toCh, text);
      }
    }

    /** `setCursor(line, ch)`. */
    method SetCursor(line: int, ch: int)
      modifies this
      ensures cursorLine == line && cursorCh == ch && lines == old(lines)
    {
      cursorLine := line;
      cursorCh := ch;
    }
  }

  lemma NoSepConcat3(a: seq<string>, b: seq<string>, c: seq<string>)
    requires NoSep(a, '\n') && NoSep(b, '\n') && NoSep(c, '\n')
    ensures NoSep(a + b + c, '\n')
  {
    var abc := a + b + c;
    forall i | 0 <= i < |abc|
      ensures '\n' !in abc[i]
    {
      if i < |a| {
        assert abc[i] == a[i];
      } else if i < |a| + |b| {
        assert abc[i] == b[i - |a|];
      } else {
        assert abc[i] == c[i - |a| - |b|];
      }
    }
  }

  /** A change from the start of line `a` to the start of line `b` with a
      newline-terminated `body + "\n"` puts the lines of `body` in place of
      lines `a .. b-1`. */
  lemma ReplaceWholeLines(lines: seq<string>, a: nat, b: nat, body: string)
    requires NoSep(lines, '\n')
    requires a <= b < |lines|
    ensures EditRange(lines, a, 0, b, 0, body + "\n") == lines[..a] + Split(body, '\n') + lines[b..]
  {
    var joined := lines[a][..0] + (body + "\n") + lines[b][0..];
    assert lines[a][..0] == [] && lines[b][0..] == lines[b];
    assert joined == body + ['\n'] + lines[b];
    SplitConcat(body, lines[b], '\n');
    SplitNoSepString(lines[b], '\n');
    var middle := Split(body, '\n');
    assert Split(joined, '\n') == middle + [lines[b]];
    calc {
      EditRange(lines, a, 0, b, 0, body + "\n");
      lines[..a] + (middle + [lines[b]]) + lines[b + 1..];
      { Splice(lines[..a], middle, lines[b], lines[b + 1..]); }
      lines[..a] + middle + ([lines[b]] + lines[b + 1..]);
      { SliceCons(lines, b); }
      lines[..a] + middle + lines[b..];
    }
  }

  lemma Splice<T>(p: seq<T>, m: seq<T>, x: T, t: seq<T>)
    ensures p + (m + [x]) + t == p + m + ([x] + t)
  {
  }

  lemma SliceCons<T>(s: seq<T>, i: nat)
    requires i < |s|
    ensures [s[i]] + s[i + 1..] == s[i..]
  {
  }

  /** A newline inserted at the end of the last line appends one empty line. */
  lemma AppendBlankLine(lines: seq<string>)
    requires NoSep(lines, '\n') && |lines| >= 1
    ensures var last := |lines| - 1;
            EditRange(lines, last, |lines[last]|, last, |lines[last]|, "\n") == lines + [""]
  {
    var last := |lines| - 1;
    assert lines[last][..|lines[last]|] + "\n" + lines[last][|lines[last]|..] == lines[last] + ['\n'] + [];
    SplitConcat(lines[last], [], '\n');
    SplitNoSepString(lines[last], '\n');
    assert lines[..last] + [lines[last]] == lines;
  }

  /** A newline inserted at the very start prepends one empty line. */
  lemma PrependBlankLine(lines: seq<string>)
    requires NoSep(lines, '\n') && |lines| >= 1
    ensures EditRange(lines, 0, 0, 0, 0, "\n") == [""] + lines
  {
    assert lines[0][..0] + "\n" + lines[0][0..] == [] + ['\n'] + lines[0];
    SplitConcat([], lines[0], '\n');
    SplitNoSepString(lines[0], '\n');
    assert [lines[0]] + lines[1..] == lines;
  }

  /** Splitting at one separator splits both sides independently. */
  lemma SplitConcat(x: string, y: string, sep: char)
    ensures Split(x + [sep] + y, sep) == Split(x, sep) + Split(y, sep)
  {
    var xs := Split(x, sep);
    var ys := Split(y, sep);
    JoinSplit(x, sep);
    JoinSplit(y, sep);
    SplitNoSep(x, sep);
    SplitNoSep(y, sep);
    JoinAppend(xs, ys, sep);
    assert NoSep(xs + ys, sep) by {
      forall i | 0 <= i < |xs + ys|
        ensures sep !in (xs + ys)[i]
      {
        if i >= |xs| {
          assert (xs + ys)[i] == ys[i - |xs|];
        }
      }
    }
    SplitJoin(xs + ys, sep);
  }
}
