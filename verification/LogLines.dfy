/** What collapsing does to a page, told in lines. */
module LogLines {
  import opened Bytes
  import opened Lines
  import opened LogPresentation
  import opened LogPresentationLaws

  /** A line with its terminator, which is its only newline, and at most 64 KiB before it. */
  predicate IsLine(line: seq<byte>) {
    1 <= |line| <= 65537 && line[|line| - 1] == 0x0a && forall i :: 0 <= i < |line| - 1 ==> line[i] != 0x0a
  }

  /** These lines, and an unterminated rest, make up the text. */
  ghost predicate CutsInto(text: seq<byte>, lines: seq<seq<byte>>, tail: seq<byte>) {
    && text == Flatten(lines) + tail && 0x0a !in tail && |tail| <= 65536
    && forall i :: 0 <= i < |lines| ==> IsLine(lines[i])
  }

  /** The lines without each that equals the one before it. */
  function Unrepeated(lines: seq<seq<byte>>): seq<seq<byte>> {
    var last := |lines| - 1;
    if |lines| <= 1 then lines
    else Unrepeated(lines[..last]) + (if lines[last] == lines[last - 1] then [] else [lines[last]])
  }

  /** 64 KiB and a byte never go by without a newline. */
  predicate LinesWithinBound(text: seq<byte>) {
    forall i: nat :: i + 65537 <= |text| ==> HasNewline(text, i)
  }

  predicate HasNewline(text: seq<byte>, i: nat)
    requires i + 65537 <= |text|
  {
    0x0a in text[i..i + 65537]
  }

  lemma {:induction false} Cut(text: seq<byte>) returns (lines: seq<seq<byte>>, tail: seq<byte>)
    requires LinesWithinBound(text)
    ensures CutsInto(text, lines, tail)
    decreases |text|
  {
    hide LinesWithinBound, LineLength;
    var n := LineLength(text);
    BoundedLine(text);
    if n == |text| {
      lines, tail := [], text;
      assert [] + text == text;
    } else {
      var line, rest := text[..n + 1], text[n + 1..];
      assert line[n] == 0x0a;
      RestWithinBound(text, n + 1);
      var more;
      more, tail := Cut(rest);
      lines := [line] + more;
      assert lines[1..] == more;
      assert text == line + rest;
      Assoc(line, Flatten(more), tail);
    }
  }

  lemma BoundedLine(text: seq<byte>)
    requires LinesWithinBound(text)
    ensures LineLength(text) <= 65536
  {
    if |text| >= 65537 {
      assert HasNewline(text, 0);
    }
  }

  lemma RestWithinBound(text: seq<byte>, k: nat)
    requires LinesWithinBound(text) && k <= |text|
    ensures LinesWithinBound(text[k..])
  {
    var rest := text[k..];
    forall i: nat | i + 65537 <= |rest|
      ensures HasNewline(rest, i)
    {
      assert HasNewline(text, k + i);
      assert rest[i..i + 65537] == text[k + i..k + i + 65537];
    }
  }

  lemma PrefixWithinBound(text: seq<byte>, k: nat)
    requires LinesWithinBound(text) && k <= |text|
    ensures LinesWithinBound(text[..k])
  {
    var lead := text[..k];
    forall i: nat | i + 65537 <= |lead|
      ensures HasNewline(lead, i)
    {
      assert HasNewline(text, i);
      assert lead[i..i + 65537] == text[i..i + 65537];
    }
  }

  /** Collapsing, line by line. */
  lemma {:induction false} CollapseOneMore(lead: seq<byte>, line: seq<byte>)
    requires IsLine(line) && Collapse(lead, None).dedupLine && Collapse(lead, None).line == []
    ensures var before, after := Collapse(lead, None), Collapse(lead + line, None);
            && after.dedupLine && after.line == [] && after.previousLine == Some(line)
            && after.output == before.output + (if before.previousLine == Some(line) then [] else line)
  {
    var before := Collapse(lead, None);
    CollapseAppend(lead, line, None);
    assert [] + line == line;
    OneLine(line, before.previousLine);
  }

  lemma OneLine(line: seq<byte>, previous: Option<seq<byte>>)
    requires IsLine(line)
    ensures Collapse(line, previous) == Emitter(if previous == Some(line) then [] else line, [], Some(line), true)
  {
    var n := |line| - 1;
    assert LineLength(line) == n;
    assert line[..n + 1] == line && line[n + 1..] == [];
    assert Collapse([], Some(line)) == Emitter([], [], Some(line), true);
    assert line + [] == line;
  }

  lemma {:induction false} CollapseIsUnrepeated(lines: seq<seq<byte>>)
    requires forall i :: 0 <= i < |lines| ==> IsLine(lines[i])
    ensures var v := Collapse(Flatten(lines), None);
            && v.output == Flatten(Unrepeated(lines)) && v.line == [] && v.dedupLine
            && v.previousLine == if lines == [] then None else Some(lines[|lines| - 1])
    decreases |lines|
  {
    hide Collapse, Flatten, IsLine;
    if lines == [] {
      NoLines();
    } else {
      var last := |lines| - 1;
      var lead := lines[..last];
      CollapseIsUnrepeated(lead);
      assert lines == lead + [lines[last]];
      FlattenSnoc(lead, lines[last]);
      CollapseOneMore(Flatten(lead), lines[last]);
      var kept := if |lines| > 1 && lines[last] == lines[last - 1] then [] else [lines[last]];
      UnrepeatedSnoc(lines);
      if kept == [] {
        assert Unrepeated(lead) + [] == Unrepeated(lead);
        assert Flatten(Unrepeated(lead)) + [] == Flatten(Unrepeated(lead));
      } else {
        FlattenSnoc(Unrepeated(lead), lines[last]);
      }
    }
  }

  lemma UnrepeatedSnoc(lines: seq<seq<byte>>)
    requires lines != []
    ensures var last := |lines| - 1;
            Unrepeated(lines) == Unrepeated(lines[..last]) + (if last > 0 && lines[last] == lines[last - 1] then [] else [lines[last]])
  {
    if |lines| == 1 {
      assert lines[..0] == [] && [] + [lines[0]] == lines;
    }
  }

  lemma NoLines()
    ensures Flatten<byte>([]) == [] && Unrepeated([]) == [] && Collapse([], None) == Emitter([], [], None, true)
  {
  }

  lemma CollapseOfCut(text: seq<byte>, lines: seq<seq<byte>>, tail: seq<byte>)
    requires CutsInto(text, lines, tail)
    ensures var v := Collapse(text, None);
            v.output == Flatten(Unrepeated(lines)) && v.line == tail && v.dedupLine
  {
    hide Flatten, IsLine;
    CollapseIsUnrepeated(lines);
    var before := Collapse(Flatten(lines), None);
    CollapseAppend(Flatten(lines), tail, None);
    assert [] + tail == tail;
    LineLengthNone(tail);
    assert Collapse(tail, before.previousLine) == Emitter([], tail, before.previousLine, true);
    assert before.output + [] == before.output;
  }

  /**
   * With collapsing on, and no line of the stripped text over 64 KiB: the text the page uses up is some lines and an
   * unterminated rest, the page is that text without each line that equals the one before it, and a page that was
   * cut short ends with a whole line.
   */
  lemma CollapsedPageDropsRepeats(chunks: seq<seq<byte>>, state: Option<Parser>, o: Options)
    returns (text: seq<byte>, lines: seq<seq<byte>>, tail: seq<byte>)
    requires 4 <= o.maxBytes <= 0x1f_ffff_ffff_ffff && 1 <= o.rawScanCap <= 0x1f_ffff_ffff_ffff
    requires Safe(chunks) && o.collapse && LinesWithinBound(Strip(o.stripAnsi, CopyState(state), Flatten(chunks)).text)
    ensures Present(chunks, state, o).Presented?
    ensures var page := Present(chunks, state, o).page;
            var raw := Flatten(chunks);
            && page.consumedRawBytes <= |raw|
            && Strip(o.stripAnsi, CopyState(state), raw)
               == After(text, page.consumedRawBytes, Strip(o.stripAnsi, page.state, raw[page.consumedRawBytes..]))
            && CutsInto(text, lines, tail) && page.data == Flatten(Unrepeated(lines)) + tail && (page.truncated ==> tail == [])
  {
    hide Strip, FirstRun, CopyState, Safe, Collapse, Present;
    Refuses(chunks, state, o);
    var raw := Flatten(chunks);
    var all := Strip(o.stripAnsi, CopyState(state), raw).text;
    var allLines, allTail := Cut(all);
    CollapseOfCut(all, allLines, allTail);
    CollapseIsExact(chunks, state, o);
    var page := Present(chunks, state, o).page;
    text :| && page.consumedRawBytes <= |raw|
            && Strip(o.stripAnsi, CopyState(state), raw)
               == After(text, page.consumedRawBytes, Strip(o.stripAnsi, page.state, raw[page.consumedRawBytes..]))
            && page.data == Collapse(text, None).output + Collapse(text, None).line
            && (page.truncated ==> Collapse(text, None).line == []);
    assert all[..|text|] == text;
    PrefixWithinBound(all, |text|);
    lines, tail := Cut(text);
    CollapseOfCut(text, lines, tail);
  }
}
