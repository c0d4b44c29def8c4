/** Reading the newest records of the chunk index backwards, block by block from the end of the file. */
module IndexTail {
  import opened Bytes
  import opened Lines
  import opened ChunkIndex
  import IndexSeek

  /** The accepted records of some lines, in order. */
  function AcceptAll(json: Json, files: LogFiles, lines: seq<seq<byte>>): seq<Entry> {
    if lines == [] then []
    else
      var e := Accept(json, files, lines[0]);
      (if e.Some? then [e.value] else []) + AcceptAll(json, files, lines[1..])
  }

  function LastN<T>(s: seq<T>, n: nat): seq<T> {
    if |s| <= n then s else s[|s| - n..]
  }

  function Reverse<T>(s: seq<T>): seq<T> {
    seq(|s|, i requires 0 <= i < |s| => s[|s| - 1 - i])
  }

  lemma {:induction false} AcceptAppend(json: Json, files: LogFiles, a: seq<seq<byte>>, b: seq<seq<byte>>)
    ensures AcceptAll(json, files, a + b) == AcceptAll(json, files, a) + AcceptAll(json, files, b)
    decreases |a|
  {
    hide Accept;
    if a == [] {
      assert a + b == b;
    } else {
      AppendTail(a, b);
      AcceptAppend(json, files, a[1..], b);
      var e := Accept(json, files, a[0]);
      Assoc(if e.Some? then [e.value] else [], AcceptAll(json, files, a[1..]), AcceptAll(json, files, b));
    }
  }

  /** One record in front of what has been kept so far. */
  lemma KeepOneMore(e: Entry, kept: seq<Entry>, n: nat)
    ensures |LastN(kept, n)| < n ==> LastN([e] + kept, n) == [e] + LastN(kept, n) && LastN(kept, n) == kept
    ensures |LastN(kept, n)| >= n ==> LastN([e] + kept, n) == LastN(kept, n)
    ensures Reverse([e] + LastN(kept, n)) == Reverse(LastN(kept, n)) + [e]
  {
    if |kept| >= n {
      Enough([e], kept, n);
    }
    LastNBounds(kept, n);
    ReverseCons(e, LastN(kept, n));
  }

  lemma LastNBounds<T>(s: seq<T>, n: nat)
    ensures |LastN(s, n)| == if |s| <= n then |s| else n
  {
  }

  lemma ReverseCons<T>(x: T, s: seq<T>)
    ensures Reverse([x] + s) == Reverse(s) + [x]
  {
  }

  lemma Enough<T>(more: seq<T>, kept: seq<T>, n: nat)
    requires |kept| >= n
    ensures LastN(more + kept, n) == LastN(kept, n)
  {
    assert (more + kept)[|more| + |kept| - n..] == kept[|kept| - n..];
  }

  /** Push the records of some lines, newest first, until there are enough. */
  method TakeBackwards(json: Json, files: LogFiles, lines: seq<seq<byte>>, maxEntries: nat, before: seq<Entry>, ghost kept: seq<Entry>)
    returns (entries: seq<Entry>)
    requires before == Reverse(LastN(kept, maxEntries))
    ensures entries == Reverse(LastN(AcceptAll(json, files, lines) + kept, maxEntries))
  {
    hide Accept, AcceptAll, LastN, Reverse;
    entries := before;
    var index := |lines|;
    LinesFrom(json, files, lines, index);
    assert [] + kept == kept;
    while index > 0 && |entries| < maxEntries
      invariant 0 <= index <= |lines|
      invariant entries == Reverse(LastN(AcceptAll(json, files, lines[index..]) + kept, maxEntries))
    {
      index := index - 1;
      ghost var later := AcceptAll(json, files, lines[index + 1..]);
      LinesFrom(json, files, lines, index);
      var e := Accept(json, files, lines[index]);
      ReverseLength(LastN(later + kept, maxEntries));
      if e.Some? {
        Assoc([e.value], later, kept);
        KeepOneMore(e.value, later + kept, maxEntries);
        entries := entries + [e.value];
      }
    }
    RestIsEnough(json, files, lines, index, kept, maxEntries);
    ReverseLength(LastN(AcceptAll(json, files, lines[index..]) + kept, maxEntries));
  }

  lemma ReverseLength<T>(s: seq<T>)
    ensures |Reverse(s)| == |s|
  {
  }

  lemma LinesFrom(json: Json, files: LogFiles, lines: seq<seq<byte>>, index: nat)
    requires index <= |lines|
    ensures index == |lines| ==> AcceptAll(json, files, lines[index..]) == []
    ensures index < |lines| ==>
              AcceptAll(json, files, lines[index..])
              == (if Accept(json, files, lines[index]).Some? then [Accept(json, files, lines[index]).value] else [])
                 + AcceptAll(json, files, lines[index + 1..])
    ensures index < |lines| && Accept(json, files, lines[index]).None? ==>
              AcceptAll(json, files, lines[index..]) == AcceptAll(json, files, lines[index + 1..])
  {
    hide Accept;
    if index < |lines| {
      assert lines[index..][1..] == lines[index + 1..];
    }
  }

  lemma RestIsEnough(json: Json, files: LogFiles, lines: seq<seq<byte>>, index: nat, kept: seq<Entry>, maxEntries: nat)
    requires index <= |lines|
    ensures index == 0 || |LastN(AcceptAll(json, files, lines[index..]) + kept, maxEntries)| >= maxEntries ==>
              LastN(AcceptAll(json, files, lines) + kept, maxEntries) == LastN(AcceptAll(json, files, lines[index..]) + kept, maxEntries)
  {
    hide Accept, AcceptAll;
    var later := AcceptAll(json, files, lines[index..]);
    assert lines == lines[..index] + lines[index..];
    AcceptAppend(json, files, lines[..index], lines[index..]);
    if index == 0 {
      assert lines[0..] == lines;
    } else if |later + kept| >= maxEntries {
      Assoc(AcceptAll(json, files, lines[..index]), later, kept);
      Enough(AcceptAll(json, files, lines[..index]), later + kept, maxEntries);
    }
  }

  /** Cutting a text anywhere before one of its newlines: the pieces from there on are the same. */
  lemma SplitHead(a: seq<byte>, b: seq<byte>)
    ensures SplitLines(a + b) == SplitLines(a + SplitLines(b)[0]) + SplitLines(b)[1..]
  {
    var n := LineLength(b);
    var head := b[..n];
    IndexSeek.FirstPiece(b);
    if n == |b| {
      assert head == b && SplitLines(b)[1..] == [];
      assert SplitLines(a + b) + [] == SplitLines(a + b);
    } else {
      var rest := b[n + 1..];
      assert b == head + ([NEWLINE] + rest);
      Assoc(a, head, [NEWLINE] + rest);
      SplitAppend(a + head, [NEWLINE] + rest);
      SplitPieces(a + head);
      var last := Last(SplitLines(a + head));
      Assoc(last, [NEWLINE], rest);
      SplitTerminated(last, rest);
      ConsTail(head, SplitLines(rest));
      LastOnItsOwn(SplitLines(a + head), SplitLines(rest));
      hide SplitLines, LineLength;
    }
  }

  lemma LastOnItsOwn<T>(s: seq<T>, t: seq<T>)
    requires s != []
    ensures ButLast(s) + ([Last(s)] + t) == s + t
  {
    assert ButLast(s) + [Last(s)] == s;
    Assoc(ButLast(s), [Last(s)], t);
  }

  /** What a tail read returns: the last records of the file's lines, the unterminated last piece included. */
  function Tail(json: Json, files: LogFiles, maxEntries: int): seq<Entry> {
    if !SafeInteger(maxEntries) || maxEntries < 1 then []
    else LastN(AcceptAll(json, files, SplitLines(files.index)), maxEntries)
  }

  method ReadChunkIndexTail(json: Json, files: LogFiles, maxEntries: int) returns (entries: seq<Entry>)
    ensures entries == Tail(json, files, maxEntries)
  {
    hide *;
    TailIs(json, files, maxEntries);
    if maxEntries > MAX_SAFE_INTEGER || maxEntries < 1 {
      return [];
    }
    var newestFirst: seq<Entry> := [];
    var position := |files.index|;
    var pending: seq<byte> := [];
    ghost var done: seq<seq<byte>> := [];
    TailStart(json, files, maxEntries);
    while position > 0 && |newestFirst| < maxEntries
      invariant 0 <= position <= |files.index|
      invariant newestFirst == Reverse(LastN(AcceptAll(json, files, done), maxEntries))
      invariant position > 0 ==> SplitLines(files.index[..position] + pending) + done == SplitLines(files.index)
      invariant position == 0 ==> AcceptAll(json, files, done) == AcceptAll(json, files, SplitLines(files.index))
      decreases position
    {
      BlockBytes();
      var start := if position - TAIL_BLOCK_BYTES > 0 then position - TAIL_BLOCK_BYTES else 0;
      var block := files.index[start..position];
      BlockJoins(files.index, start, position, pending);
      pending := block + pending;
      SplitHead(files.index[..start], pending);
      SplitNonEmpty(pending);
      var lines := SplitLines(pending);
      ghost var whole := pending;
      if start == 0 {
        FromStart(files.index[..start], whole);
        pending := [];
      } else {
        pending := lines[0];
        lines := lines[1..];
      }
      AcceptAppend(json, files, lines, done);
      newestFirst := TakeBackwards(json, files, lines, maxEntries, newestFirst, AcceptAll(json, files, done));
      Assoc(SplitLines(files.index[..start] + pending), lines, done);
      done := lines + done;
      position := start;
      assert (if start == 0 then [] else SplitLines(files.index[..start] + pending)) + done == SplitLines(files.index);
    }
    ReverseLength(LastN(AcceptAll(json, files, done), maxEntries));
    TailEnough(json, files, done, maxEntries);
    ReverseTwice(LastN(AcceptAll(json, files, done), maxEntries));
    entries := Reverse(newestFirst);
  }

  lemma TailIs(json: Json, files: LogFiles, maxEntries: int)
    ensures Tail(json, files, maxEntries) ==
            if maxEntries > MAX_SAFE_INTEGER || maxEntries < 1 then []
            else LastN(AcceptAll(json, files, SplitLines(files.index)), maxEntries)
  {
    hide SplitLines, AcceptAll, LastN;
  }

  lemma BlockBytes()
    ensures TAIL_BLOCK_BYTES > 0
  {
  }

  lemma TailStart(json: Json, files: LogFiles, maxEntries: nat)
    ensures [] == Reverse(LastN(AcceptAll(json, files, []), maxEntries))
    ensures SplitLines(files.index[..|files.index|] + []) + [] == SplitLines(files.index)
    ensures files.index == [] ==> AcceptAll(json, files, []) == AcceptAll(json, files, SplitLines(files.index))
  {
    assert files.index[..|files.index|] + [] == files.index;
    if files.index == [] {
      assert SplitLines([]) == [[]];
      assert Accept(json, files, []) == None;
    }
  }

  lemma BlockJoins(index: seq<byte>, start: nat, position: nat, pending: seq<byte>)
    requires start <= position <= |index|
    ensures index[..position] + pending == index[..start] + (index[start..position] + pending)
  {
    assert index[..position] == index[..start] + index[start..position];
  }

  lemma FromStart(nothing: seq<byte>, text: seq<byte>)
    requires nothing == []
    ensures SplitLines(nothing + text) == SplitLines(text)
  {
    assert nothing + text == text;
  }

  lemma TailEnough(json: Json, files: LogFiles, done: seq<seq<byte>>, maxEntries: nat)
    requires AcceptAll(json, files, done) == AcceptAll(json, files, SplitLines(files.index))
             || ((exists before :: before + done == SplitLines(files.index)) && |LastN(AcceptAll(json, files, done), maxEntries)| >= maxEntries)
    ensures LastN(AcceptAll(json, files, done), maxEntries) == LastN(AcceptAll(json, files, SplitLines(files.index)), maxEntries)
  {
    hide AcceptAll, SplitLines, Accept;
    if AcceptAll(json, files, done) != AcceptAll(json, files, SplitLines(files.index)) {
      var before :| before + done == SplitLines(files.index);
      AcceptAppend(json, files, before, done);
      Enough(AcceptAll(json, files, before), AcceptAll(json, files, done), maxEntries);
    }
  }

  lemma ReverseTwice<T>(s: seq<T>)
    ensures Reverse(Reverse(s)) == s && |Reverse(s)| == |s|
  {
  }

  // ----- against the full scan -----

  lemma {:induction false} AcceptPrinted(json: Json, files: LogFiles, es: seq<Entry>)
    requires Faithful(json) && forall i :: 0 <= i < |es| ==> Acceptable(es[i], files)
    ensures AcceptAll(json, files, SplitLines(IndexSeek.PrintAll(json, es))) == es
    decreases |es|
  {
    hide SplitLines;
    if es == [] {
      SplitOne([]);
      OneLine(json, files, []);
    } else {
      var line, rest := json.printEntry(es[0]), IndexSeek.PrintAll(json, es[1..]);
      AcceptPrinted(json, files, es[1..]);
      SplitTerminated(line, rest);
      PrintedIsAccepted(json, files, es[0]);
      hide Faithful, Accept;
      ConsTail(line, SplitLines(rest));
      assert [es[0]] + es[1..] == es;
    }
  }

  lemma PrintedIsAccepted(json: Json, files: LogFiles, e: Entry)
    requires Faithful(json) && Acceptable(e, files)
    ensures Accept(json, files, json.printEntry(e)) == Some(e)
  {
    hide Acceptable;
  }

  /** Whatever record straddles a block edge, the tail is exactly the last records of the full scan. */
  lemma TailRefinesScan(json: Json, files: LogFiles, es: seq<Entry>, maxEntries: int)
    requires Faithful(json) && IndexSeek.WellFormed(json, files, es) && 1 <= maxEntries <= MAX_SAFE_INTEGER
    ensures Tail(json, files, maxEntries) == LastN(FullScan(json, files), maxEntries) == LastN(es, maxEntries)
  {
    AcceptPrinted(json, files, es);
    IndexSeek.ScanPrinted(json, files, es, 0);
    hide Faithful, Scan, AcceptAll, SplitLines;
  }

  // ----- an index cut short by a crash -----

  lemma {:induction false} PrintedEndsOnALine(json: Json, es: seq<Entry>)
    requires Faithful(json)
    ensures Last(SplitLines(IndexSeek.PrintAll(json, es))) == []
    decreases |es|
  {
    hide SplitLines;
    if es == [] {
      SplitOne([]);
    } else {
      var line, rest := json.printEntry(es[0]), IndexSeek.PrintAll(json, es[1..]);
      PrintedEndsOnALine(json, es[1..]);
      SplitTerminated(line, rest);
      SplitConsLast(line, SplitLines(rest));
    }
  }

  /** Behind whole records, an unterminated piece is one more line to split, and no whole line. */
  lemma CutIndexLines(json: Json, es: seq<Entry>, piece: seq<byte>)
    requires Faithful(json) && NEWLINE !in piece
    ensures var printed := IndexSeek.PrintAll(json, es);
            SplitLines(printed + piece) == WholeLines(printed) + [piece] && WholeLines(printed + piece) == WholeLines(printed)
  {
    hide SplitLines;
    var printed := IndexSeek.PrintAll(json, es);
    PrintedEndsOnALine(json, es);
    SplitAppend(printed, piece);
    assert [] + piece == piece;
    SplitOne(piece);
  }

  lemma CutIndexRecords(json: Json, files: LogFiles, es: seq<Entry>, piece: seq<byte>)
    requires Faithful(json) && IndexSeek.Increasing(es, 0) && forall i :: 0 <= i < |es| ==> Acceptable(es[i], files)
    requires files.index == IndexSeek.PrintAll(json, es) + piece && NEWLINE !in piece
    ensures FullScan(json, files) == es
    ensures AcceptAll(json, files, SplitLines(files.index))
            == es + (if Accept(json, files, piece).Some? then [Accept(json, files, piece).value] else [])
  {
    hide SplitLines, Scan, AcceptAll, Faithful, Accept, WholeLines, IndexSeek.PrintAll, IndexSeek.Increasing;
    var printed := IndexSeek.PrintAll(json, es);
    IndexSeek.ScanPrinted(json, files, es, 0);
    AcceptPrinted(json, files, es);
    PrintedEndsOnALine(json, es);
    CutIndexLines(json, es, piece);
    var lines := WholeLines(printed);
    LastApart(printed);
    AcceptAppend(json, files, lines, [[]]);
    AcceptAppend(json, files, lines, [piece]);
    OneLine(json, files, piece);
    assert AcceptAll(json, files, lines) + [] == AcceptAll(json, files, lines);
  }

  lemma LastApart(text: seq<byte>)
    ensures SplitLines(text) == WholeLines(text) + [Last(SplitLines(text))]
  {
    hide SplitLines;
  }

  lemma OneLine(json: Json, files: LogFiles, line: seq<byte>)
    ensures AcceptAll(json, files, [line]) == if Accept(json, files, line).Some? then [Accept(json, files, line).value] else []
    ensures AcceptAll(json, files, [[]]) == []
  {
    assert [line][1..] == [] && AcceptAll(json, files, []) == [];
    var blank: seq<byte> := [];
    assert [blank][1..] == [] && Accept(json, files, blank).None?;
  }

  lemma {:induction false} LastIsLargest(es: seq<Entry>, previous: int, i: nat)
    requires IndexSeek.Increasing(es, previous) && i < |es|
    ensures i < |es| - 1 ==> es[i].sequence < es[|es| - 1].sequence
    ensures es[i].sequence > previous
    decreases |es|
  {
    if i > 0 {
      LastIsLargest(es[1..], es[0].sequence, i - 1);
    } else if |es| > 1 {
      LastIsLargest(es[1..], es[0].sequence, |es| - 2);
    }
  }

  lemma OneMoreShows(es: seq<Entry>, e: Entry, n: nat)
    requires n >= 1 && IndexSeek.Increasing(es, 0)
    ensures LastN(es + [e], n) == LastN(es, n) <==> n == 1 && es != [] && e == es[|es| - 1]
  {
    hide LastN, IndexSeek.Increasing;
    if |es| > 1 {
      LastIsLargest(es, 0, |es| - 2);
    }
    OneMoreShifts(es, e, n);
  }

  lemma OneMoreShifts<T>(s: seq<T>, x: T, n: nat)
    requires n >= 1 && (|s| > 1 ==> s[|s| - 2] != s[|s| - 1])
    ensures LastN(s + [x], n) == LastN(s, n) <==> n == 1 && s != [] && x == s[|s| - 1]
  {
    var a, b := LastN(s + [x], n), LastN(s, n);
    if |s| >= n {
      assert a[n - 1] == x && b[n - 1] == s[|s| - 1];
      if n > 1 {
        assert a[n - 2] == s[|s| - 1] && b[n - 2] == s[|s| - 2];
      } else {
        assert |a| == 1 && |b| == 1;
      }
    } else {
      assert |a| == |s| + 1 && |b| == |s|;
    }
  }

  /**
   * With an unterminated piece behind the whole records, which is what a crash leaves, the tail is still the
   * last records of the full scan exactly when the piece is no acceptable record, or just repeats the last one
   * to a caller who asked for one. The tail reads that piece; the scan does not.
   */
  lemma TailAgreesExactly(json: Json, files: LogFiles, es: seq<Entry>, piece: seq<byte>, maxEntries: int)
    requires Faithful(json) && IndexSeek.Increasing(es, 0) && forall i :: 0 <= i < |es| ==> Acceptable(es[i], files)
    requires files.index == IndexSeek.PrintAll(json, es) + piece && NEWLINE !in piece && 1 <= maxEntries <= MAX_SAFE_INTEGER
    ensures var last := Accept(json, files, piece);
            Tail(json, files, maxEntries) == LastN(FullScan(json, files), maxEntries)
            <==> last.None? || (maxEntries == 1 && es != [] && last.value == es[|es| - 1])
  {
    hide Faithful, Scan, AcceptAll, SplitLines, FullScan, LastN, Accept, IndexSeek.Increasing;
    CutIndexRecords(json, files, es, piece);
    var last := Accept(json, files, piece);
    if last.Some? {
      OneMoreShows(es, last.value, maxEntries);
    } else {
      assert es + [] == es;
    }
  }

  /** An index that is one record without its newline: the tail reads it, the scan does not. */
  lemma TailReadsTheCutRecord(json: Json)
    requires Faithful(json)
    ensures var e := Entry(1, Stdout, 0, 0);
            var files := LogFiles([], [], json.printEntry(e), []);
            Tail(json, files, 1) == [e] && FullScan(json, files) == []
  {
    hide Scan, AcceptAll, SplitLines;
    var e := Entry(1, Stdout, 0, 0);
    var files := LogFiles([], [], json.printEntry(e), []);
    var piece := json.printEntry(e);
    assert IndexSeek.PrintAll(json, []) + piece == piece;
    CutIndexRecords(json, files, [], piece);
    assert Accept(json, files, piece) == Some(e);
    assert [] + [e] == [e];
  }
}
