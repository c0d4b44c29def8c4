/**
 * Newline-separated text as raw bytes: its pieces, its whole lines, and what happens to them when text
 * is cut or appended, which is all that block-wise readers of the chunk index have to reckon with.
 */
module Lines {
  import opened Bytes

  /** `indexOf(0x0a)`, or the length when there is none. */
  function LineLength(s: seq<byte>): (n: nat)
    ensures n <= |s|
    ensures n < |s| ==> s[n] == NEWLINE
    ensures forall i :: 0 <= i < n ==> s[i] != NEWLINE
  {
    if s == [] || s[0] == NEWLINE then 0 else 1 + LineLength(s[1..])
  }

  lemma CutAppend(text: seq<byte>, more: seq<byte>, k: nat)
    requires k <= |text|
    ensures (text + more)[..k] == text[..k] && (text + more)[k..] == text[k..] + more
  {
  }

  lemma {:induction false} LineLengthAppend(text: seq<byte>, more: seq<byte>)
    ensures LineLength(text + more) == if LineLength(text) < |text| then LineLength(text) else |text| + LineLength(more)
  {
    if text == [] {
      assert text + more == more;
    } else {
      AppendTail(text, more);
      if text[0] != NEWLINE {
        LineLengthAppend(text[1..], more);
      }
    }
  }

  lemma LineLengthNone(s: seq<byte>)
    requires NEWLINE !in s
    ensures LineLength(s) == |s|
  {
  }

  /** `split('\n')`: always at least one piece, the last one unterminated. */
  function SplitLines(s: seq<byte>): (pieces: seq<seq<byte>>)
    ensures pieces != []
    decreases |s|
  {
    var n := LineLength(s);
    if n == |s| then [s] else [s[..n]] + SplitLines(s[n + 1..])
  }

  function Last<T>(s: seq<T>): T
    requires s != []
  {
    s[|s| - 1]
  }

  function ButLast<T>(s: seq<T>): seq<T>
    requires s != []
  {
    s[..|s| - 1]
  }

  /** The newline-terminated lines of a text. */
  function WholeLines(s: seq<byte>): seq<seq<byte>> {
    ButLast(SplitLines(s))
  }

  /** The pieces of a text cut anywhere are the pieces of its parts, with the two at the cut joined. */
  lemma {:induction false} SplitAppend(a: seq<byte>, b: seq<byte>)
    ensures SplitLines(a + b) == ButLast(SplitLines(a)) + SplitLines(Last(SplitLines(a)) + b)
    decreases |a|
  {
    var n := LineLength(a);
    LineLengthAppend(a, b);
    if n == |a| {
      assert ButLast(SplitLines(a)) == [];
    } else {
      SplitAppend(a[n + 1..], b);
      CutAppend(a, b, n);
      CutAppend(a, b, n + 1);
      SplitConsLast(a[..n], SplitLines(a[n + 1..]));
      Assoc([a[..n]], ButLast(SplitLines(a[n + 1..])), SplitLines(Last(SplitLines(a[n + 1..])) + b));
    }
  }

  lemma SplitConsLast<T>(x: T, s: seq<T>)
    requires s != []
    ensures Last([x] + s) == Last(s) && ButLast([x] + s) == [x] + ButLast(s)
  {
  }

  lemma {:induction false} SplitPieces(s: seq<byte>)
    ensures forall i :: 0 <= i < |SplitLines(s)| ==> NEWLINE !in SplitLines(s)[i]
    decreases |s|
  {
    if LineLength(s) < |s| {
      SplitPieces(s[LineLength(s) + 1..]);
    }
  }

  lemma SplitOne(s: seq<byte>)
    requires NEWLINE !in s
    ensures SplitLines(s) == [s]
  {
    LineLengthNone(s);
  }

  /** A terminated line in front is a piece of its own. */
  lemma SplitTerminated(line: seq<byte>, rest: seq<byte>)
    requires NEWLINE !in line
    ensures SplitLines(line + [NEWLINE] + rest) == [line] + SplitLines(rest)
  {
    Assoc(line, [NEWLINE], rest);
    LineLengthNone(line);
    LineLengthAppend(line, [NEWLINE] + rest);
    CutTerminated(line, rest);
  }

  lemma CutTerminated(line: seq<byte>, rest: seq<byte>)
    ensures var s := line + [NEWLINE] + rest;
            |s| == |line| + 1 + |rest| && s[..|line|] == line && s[|line| + 1..] == rest && ([NEWLINE] + rest)[0] == NEWLINE
  {
  }
}
