/** One page of a log: over clean text it holds whole scalars. */
module LogPaging {
  import opened Bytes
  import opened Lines
  import opened LogPresentation
  import opened LogPresentationLaws

  /** One chunk is always stepped over right. */
  lemma OneChunkIsSafe(raw: seq<byte>)
    ensures Safe([raw])
  {
    hide Rest, Move;
    forall pos, width | InChunk([raw], pos) && 2 <= width <= 4 && width <= |Rest([raw], pos)|
      ensures LandsRight([raw], pos, width)
    {
      OneChunkRest(raw, pos.offset);
      OneChunkRest(raw, pos.offset + width);
      OneChunkAdvance(raw, pos.offset, width);
      SliceTwice(raw, pos.offset, width);
    }
  }

  lemma OneChunkRest(raw: seq<byte>, offset: nat)
    ensures Rest([raw], Pos(0, offset)) == if offset < |raw| then raw[offset..] else []
  {
    assert [raw][1..] == [];
  }

  lemma OneChunkAdvance(raw: seq<byte>, offset: nat, width: nat)
    requires 2 <= width && offset + width <= |raw|
    ensures Move([raw], Pos(0, offset), width) == Advance(Pos(0, offset + width), width)
  {
    assert AdvanceScalar(1, |raw|, Pos(0, offset + width), 0, width) == Advance(Pos(0, offset + width), width);
  }

  lemma FlattenOne(raw: seq<byte>)
    ensures Flatten([raw]) == raw
  {
    assert [raw][1..] == [];
    assert raw + [] == raw;
  }

  // ----- whole scalars -----

  /**
   * From clean UTF-8, every page is clean UTF-8 within the budgets, whether or not lines are
   * collapsed, and what is left is again clean for the page after it.
   */
  lemma PagesHoldWholeScalars(chunks: seq<seq<byte>>, state: Option<Parser>, o: Options)
    requires Accepted(o) && Safe(chunks)
    requires InSync(o.stripAnsi, CopyState(state), Flatten(chunks))
    ensures var page := Present(chunks, state, o).page;
            && Clean(page.data) && |page.data| <= o.maxBytes && page.scannedRawBytes <= o.rawScanCap
            && page.consumedRawBytes <= |Flatten(chunks)|
            && InSync(o.stripAnsi, page.state, Flatten(chunks)[page.consumedRawBytes..])
  {
    FirstRunStays(o, chunks, state);
    var run := FirstRun(chunks, state, o);
    EndAccounts(o, CopyState(state), Flatten(chunks), run);
    DataIsClean(o, CopyState(state), Flatten(chunks), run);
    hide Strip, Run, CopyState, Flatten, Safe, InSync, Clean, View, PageOf, End;
  }

  lemma DataIsClean(o: Options, p: Parser, raw: seq<byte>, run: Outcome)
    requires OnTrack(o, p, raw, run.cursor, run.lineStart) && InSync(o.stripAnsi, p, raw)
    ensures Clean(PageOf(o, run).data)
  {
    CollapseKeepsScalars(run.cursor.text, None);
    var v := View(o, run.cursor.text);
    CleanAppend(v.output, v.line);
    hide Strip, Collapse, Clean, InSync;
  }

  /** Cutting a clean text before a byte that starts a scalar leaves both halves clean. */
  lemma {:induction false} CleanCut(text: seq<byte>, k: nat)
    requires Clean(text) && k <= |text| && (k < |text| ==> !Continuation(text[k]))
    ensures Clean(text[..k]) && Clean(text[k..])
    decreases |text|
  {
    hide Clean, Continuation;
    if k == 0 {
      assert text[..0] == [] && text[0..] == text;
      EmptyIsClean();
    } else {
      var w := CleanHead(text);
      assert w <= k;
      CleanCut(text[w..], k - w);
      SliceTwice(text, w, k - w);
      assert text[..k] == text[..w] + text[w..][..k - w];
      CleanAppend(text[..w], text[w..][..k - w]);
    }
  }

  lemma EmptyIsClean()
    ensures Clean([])
  {
  }

  /** A clean text starts with one scalar. */
  lemma CleanHead(text: seq<byte>) returns (w: nat)
    requires text != [] && Clean(text)
    ensures 1 <= w <= |text| && Clean(text[..w]) && Clean(text[w..])
    ensures forall i :: 1 <= i < w ==> Continuation(text[i])
  {
    w := Utf8Width(text[0]);
    ScalarTail(text, w);
    CleanScalar(text[..w]);
  }

  lemma ScalarTail(text: seq<byte>, w: nat)
    requires w <= |text| && Scalar(text[..w])
    ensures forall i :: 1 <= i < w ==> Continuation(text[i])
  {
    assert forall i :: 1 <= i < w ==> Continuation(text[..w][i]) && text[i] == text[..w][i];
  }

  lemma {:induction false} CollapseKeepsScalars(text: seq<byte>, previous: Option<seq<byte>>)
    requires Clean(text)
    ensures Clean(Collapse(text, previous).output) && Clean(Collapse(text, previous).line)
    decreases |text|
  {
    var n := LineLength(text);
    if n <= MAX_DEDUP_LINE_BYTES && n < |text| {
      var line, rest := text[..n + 1], text[n + 1..];
      CutAfterNewline(text, n);
      CollapseKeepsScalars(rest, Some(line));
      CleanAppend(if previous == Some(line) then [] else line, Collapse(rest, Some(line)).output);
    }
  }

  lemma CutAfterNewline(text: seq<byte>, n: nat)
    requires Clean(text) && n < |text| && text[n] == NEWLINE
    ensures Clean(text[..n + 1]) && Clean(text[n + 1..])
  {
    CleanCut(text, n);
    assert text[n..][0] == NEWLINE && text[n..][1..] == text[n + 1..];
    assert [NEWLINE][..1] == [NEWLINE] && [NEWLINE][1..] == [];
    CleanAppend(text[..n], [NEWLINE]);
    assert text[..n + 1] == text[..n] + [NEWLINE];
  }

  /** A literal U+FFFD is emitted byte by byte, so a page may end inside it: why clean text excludes it. */
  lemma ReplacementCharacterSplits()
    ensures var raw: seq<byte> := [0x61, 0x61, 0x61] + REPLACEMENT;
            var o := Options(4, true, false, DEFAULT_RAW_SCAN_CAP);
            Present([raw], None, o) == Presented(Page([0x61, 0x61, 0x61, 0xef], INITIAL, 4, 5, true))
  {
    var raw: seq<byte> := [0x61, 0x61, 0x61, 0xef, 0xbf, 0xbd];
    assert [0x61, 0x61, 0x61] + REPLACEMENT == raw;
    var o := Options(4, true, false, DEFAULT_RAW_SCAN_CAP);
    var c0 := Cursor(INITIAL, 0, 0, []);
    var end := Cursor(INITIAL, 4, 5, [0x61, 0x61, 0x61, 0xef]);
    ReplacementRun(o, raw, c0);
    EndOfBudget(o, [raw], c0, end);
  }

  lemma EndOfBudget(o: Options, chunks: seq<seq<byte>>, c0: Cursor, end: Cursor)
    requires Accepted(o) && !o.collapse && c0 == Cursor(INITIAL, 0, 0, [])
    requires Run(o, chunks, Pos(0, 0), c0, c0) == Outcome(BudgetStop(false), end, c0)
    ensures Present(chunks, None, o) == Presented(Page(end.text, end.parser, end.consumed, end.scanned, true))
  {
    assert CopyState(None) == INITIAL;
    hide Run;
  }

  lemma ReplacementRun(o: Options, raw: seq<byte>, c0: Cursor)
    requires o == Options(4, true, false, DEFAULT_RAW_SCAN_CAP) && raw == [0x61, 0x61, 0x61, 0xef, 0xbf, 0xbd]
    requires c0 == Cursor(INITIAL, 0, 0, [])
    ensures Run(o, [raw], Pos(0, 0), c0, c0) == Outcome(BudgetStop(false), Cursor(INITIAL, 4, 5, [0x61, 0x61, 0x61, 0xef]), c0)
  {
    hide Run;
    var c1 := Cursor(INITIAL, 1, 1, [0x61]);
    var c2 := Cursor(INITIAL, 2, 2, [0x61, 0x61]);
    var c3 := Cursor(INITIAL, 3, 3, [0x61, 0x61, 0x61]);
    var c4 := Cursor(INITIAL, 4, 4, [0x61, 0x61, 0x61, 0xef]);
    assert c0.text + [raw[0]] == c1.text && c1.text + [raw[1]] == c2.text && c2.text + [raw[2]] == c3.text && c3.text + [raw[3]] == c4.text;
    assert raw[3..] == REPLACEMENT;
    RunAscii(o, raw, c0, c0);
    RunAscii(o, raw, c1, c0);
    RunAscii(o, raw, c2, c0);
    LiteralReplacementIsRefused(raw[3..]);
    RunByte(o, raw, c3, c0, 0xef, 3);
    RunAscii(o, raw, c4, c0);
  }

  lemma LiteralReplacementIsRefused(rest: seq<byte>)
    requires rest == REPLACEMENT
    ensures NextStep(true, INITIAL, rest) == Text([0xef], 3)
  {
    assert rest[..3] == REPLACEMENT;
  }

  /** One byte of text from a single chunk, uncollapsed. */
  lemma RunByte(o: Options, raw: seq<byte>, c: Cursor, lineStart: Cursor, b: byte, need: nat)
    requires !o.collapse && c.consumed < |raw| && c.scanned + need <= o.rawScanCap && need >= 1
    requires NextStep(o.stripAnsi, c.parser, raw[c.consumed..]) == Text([b], need)
    ensures Run(o, [raw], Pos(0, c.consumed), c, lineStart) ==
            if |c.text| + 1 > o.maxBytes then Outcome(BudgetStop(false), c.(scanned := c.scanned + 1), lineStart)
            else Run(o, [raw], Pos(0, c.consumed + 1), Cursor(c.parser, c.consumed + 1, c.scanned + 1, c.text + [b]), lineStart)
  {
    assert [raw][1..] == [];
    assert Rest([raw], Pos(0, c.consumed)) == raw[c.consumed..];
    RunText(o, [raw], Pos(0, c.consumed), c, lineStart);
  }

  lemma RunAscii(o: Options, raw: seq<byte>, c: Cursor, lineStart: Cursor)
    requires !o.collapse && c.consumed < |raw| && c.scanned < o.rawScanCap
    requires c.parser.mode == Ground && raw[c.consumed] != ESC && Utf8Width(raw[c.consumed]) == 1
    ensures Run(o, [raw], Pos(0, c.consumed), c, lineStart) ==
            if |c.text| + 1 > o.maxBytes then Outcome(BudgetStop(false), c.(scanned := c.scanned + 1), lineStart)
            else Run(o, [raw], Pos(0, c.consumed + 1), Cursor(c.parser, c.consumed + 1, c.scanned + 1, c.text + [raw[c.consumed]]), lineStart)
  {
    assert raw[c.consumed..][..1] == [raw[c.consumed]];
    RunByte(o, raw, c, lineStart, raw[c.consumed], 1);
  }
}
