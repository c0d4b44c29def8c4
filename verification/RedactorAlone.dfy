/** One secret: exactly when a stream is redacted like the whole text. */
module RedactorAlone {
  import opened Bytes
  import opened Redactor
  import opened RedactorLaws

  /** `s` holds the marker with something of its own behind it. */
  ghost predicate HoldsMarkerInside(s: string) {
    exists i :: OccursAt(s, MARKER, i) && i + |MARKER| < |s|
  }

  /** What was left of a marker in the tail buffer can be taken for the beginning of `s`. */
  ghost predicate TakenForBeginning(s: string) {
    |s| > 1 && (BeginsInMarker(s) || HoldsMarkerInside(s))
  }

  // ----- what a tail keeps is enough -----

  lemma StartedInMarkerEnd(m: nat, rest: string, s: string, i: nat)
    requires i < |MARKER| - m < |s| && OccursAt(MARKER[m..] + rest, s, i)
    ensures BeginsInMarker(s) || HoldsMarkerInside(s)
  {
    var k := |MARKER| - m - i;
    OccursChars(MARKER[m..] + rest, s, i);
    var text := MARKER[m..] + rest;
    forall n | m + i <= n < m + i + k
      ensures s[n - (m + i)] == MARKER[n]
    {
      assert text[i + (n - m - i)] == s[n - m - i];
    }
    SamePart(s, MARKER, 0, m + i, k);
    assert s[..k] == MARKER[|MARKER| - k..];
    if k == |MARKER| {
      assert OccursAt(s, MARKER, 0);
    }
  }

  /** Behind an end of the marker shorter than `s`, replacement goes on as if it were not there. */
  lemma MarkerEndPasses(m: nat, rest: string, s: string)
    requires m <= |MARKER| && |MARKER| - m < |s| && !TakenForBeginning(s)
    ensures ReplaceAll(MARKER[m..] + rest, s) == MARKER[m..] + ReplaceAll(rest, s)
  {
    hide ReplaceAll, OccursAt;
    var lead := MARKER[m..];
    forall i | i < |lead|
      ensures !OccursAt(lead + rest, s, i)
    {
      if OccursAt(lead + rest, s, i) {
        StartsInside(lead + rest, s, i);
        StartedInMarkerEnd(m, rest, s, i);
      }
    }
    ReplacePassesOver(lead, rest, s);
  }

  lemma {:induction false} ReplacedHoldsMarker(x: string, s: string)
    requires s != [] && ReplaceAll(x, s) != x
    ensures !Absent(ReplaceAll(x, s), MARKER)
    decreases |x|
  {
    if s <= x {
      assert OccursAt(ReplaceAll(x, s), MARKER, 0);
    } else {
      var rest := ReplaceAll(x[1..], s);
      assert x == [x[0]] + x[1..];
      ReplacedHoldsMarker(x[1..], s);
      var i :| OccursAt(rest, MARKER, i);
      OccursChars(rest, MARKER, i);
      OccursFromChars([x[0]] + rest, MARKER, i + 1);
    }
  }

  /** The first `|r| - keep` characters, or none when there are fewer. */
  function Cut(r: string, keep: nat): nat {
    if |r| < keep then 0 else |r| - keep
  }

  /** A short text that changes when `s` is replaced in it does not begin `s`. */
  lemma NotBegun(first: char, x: string, c: string, s: string)
    requires s != [] && !HoldsMarkerInside(s) && |ReplaceAll(x, s)| + 1 < |s| && !(s <= [first] + x + c)
    ensures !(s <= [first] + ReplaceAll(x, s) + c)
  {
    var r := ReplaceAll(x, s);
    if r != x && s <= [first] + r + c {
      ReplacedHoldsMarker(x, s);
      var i :| OccursAt(r, MARKER, i);
      OccursChars(r, MARKER, i);
      assert forall j :: 0 <= j < |s| ==> s[j] == ([first] + r + c)[j];
      OccursFromChars(s, MARKER, i + 1);
    }
  }

  lemma BegunIsShort(t: string, c: string, s: string)
    requires s <= t + c && !(s <= t)
    ensures |t| < |s|
  {
  }

  /** Redacting what is kept, and what comes, gives what redacting everything at once gives. */
  lemma {:induction false} KeptIsEnough(t: string, c: string, s: string)
    requires s != [] && !TakenForBeginning(s)
    ensures var r := ReplaceAll(t, s);
            var cut := Cut(r, |s| - 1);
            r[..cut] + ReplaceAll(r[cut..] + c, s) == ReplaceAll(t + c, s)
    decreases |t|
  {
    hide TakenForBeginning, OccursAt;
    if t == [] {
      assert t + c == c && t[0..] + c == c;
    } else if s <= t {
      var rest := t[|s|..];
      KeptIsEnough(rest, c, s);
      CutPrefix(t, s, c);
      CutOff(s, rest + c);
      BehindMarker(ReplaceAll(rest, s), c, s, ReplaceAll(rest + c, s));
    } else if s <= t + c {
      BegunIsShort(t, c, s);
      ReplaceShort(t, s);
      assert t[..0] == [] && t[0..] == t;
    } else {
      KeptIsEnough(t[1..], c, s);
      AppendTail(t, c);
      assert [t[0]] + t[1..] == t;
      BehindLetter(t[0], t[1..], c, s, ReplaceAll(t[1..] + c, s));
    }
  }

  lemma CutOff(s: string, rest: string)
    ensures s <= s + rest && (s + rest)[|s|..] == rest
  {
  }

  /** The step over a replaced secret: `r` is the rest redacted, `all` the rest and what comes. */
  lemma BehindMarker(r: string, c: string, s: string, all: string)
    requires s != [] && !TakenForBeginning(s)
    requires var cut := Cut(r, |s| - 1); r[..cut] + ReplaceAll(r[cut..] + c, s) == all
    ensures var q := MARKER + r;
            var cut := Cut(q, |s| - 1);
            q[..cut] + ReplaceAll(q[cut..] + c, s) == MARKER + all
  {
    hide ReplaceAll, TakenForBeginning;
    var q, keep := MARKER + r, |s| - 1;
    var cut := Cut(q, keep);
    if |r| >= keep {
      assert q[..cut] == MARKER + r[..Cut(r, keep)] && q[cut..] == r[Cut(r, keep)..];
      Assoc(MARKER, r[..Cut(r, keep)], ReplaceAll(q[cut..] + c, s));
    } else {
      assert r[..0] == [] && r[0..] == r && [] + ReplaceAll(r + c, s) == ReplaceAll(r + c, s);
      assert q[..cut] == MARKER[..cut] && q[cut..] == MARKER[cut..] + r;
      Assoc(MARKER[cut..], r, c);
      MarkerEndPasses(cut, r + c, s);
      CutJoins([], MARKER, cut);
      Assoc(MARKER[..cut], MARKER[cut..], all);
      assert [] + MARKER[..cut] == MARKER[..cut] && [] + MARKER == MARKER;
    }
  }

  /** The step over a character where no secret starts. */
  lemma BehindLetter(first: char, x: string, c: string, s: string, all: string)
    requires s != [] && !TakenForBeginning(s) && !(s <= [first] + x + c)
    requires var r := ReplaceAll(x, s); var cut := Cut(r, |s| - 1); r[..cut] + ReplaceAll(r[cut..] + c, s) == all
    ensures var q := [first] + ReplaceAll(x, s);
            var cut := Cut(q, |s| - 1);
            q[..cut] + ReplaceAll(q[cut..] + c, s) == [first] + all
  {
    hide TakenForBeginning, ReplaceAll;
    var r, keep := ReplaceAll(x, s), |s| - 1;
    var q := [first] + r;
    if |r| >= keep {
      CutOneLater(first, r, keep);
      Assoc([first], r[..Cut(r, keep)], ReplaceAll(r[Cut(r, keep)..] + c, s));
    } else {
      NoneInside(s);
      NotBegun(first, x, c, s);
      Assoc([first], r, c);
      ReplaceLetter(first, r + c, s);
      NoCut(r, keep, ReplaceAll(r + c, s));
      NoCut(q, keep, ReplaceAll(q + c, s));
    }
  }

  lemma CutOneLater(first: char, r: string, keep: nat)
    requires |r| >= keep
    ensures var q := [first] + r;
            q[..Cut(q, keep)] == [first] + r[..Cut(r, keep)] && q[Cut(q, keep)..] == r[Cut(r, keep)..]
  {
  }

  lemma NoCut(r: string, keep: nat, more: string)
    requires |r| <= keep
    ensures Cut(r, keep) == 0 && r[0..] == r && r[..0] + more == more
  {
  }

  lemma ReplaceLetter(first: char, rest: string, s: string)
    requires s != [] && !(s <= [first] + rest)
    ensures ReplaceAll([first] + rest, s) == [first] + ReplaceAll(rest, s)
  {
    ConsTail(first, rest);
  }

  lemma NoneInside(s: string)
    requires !TakenForBeginning(s)
    ensures |s| > 1 ==> !HoldsMarkerInside(s)
  {
  }

  // ----- the stream -----

  lemma StepIsCut(s: string, tail: string, c: string)
    requires s != []
    ensures var r := ReplaceAll(tail + c, s);
            var cut := Cut(r, |s| - 1);
            RedactStep([s], tail, c) == Step(r[..cut], r[cut..])
  {
    hide Scrub, ReplaceAll;
    ScrubOne(tail + c, s);
    assert [s][1..] == [];
    assert MaxLength([s][1..]) == 0;
    assert MaxLength([s]) == |s|;
  }

  lemma {:induction false} StreamIsReplacement(s: string, tail: string, chunks: seq<string>)
    requires s != [] && !TakenForBeginning(s)
    ensures Stream([s], tail, chunks) == ReplaceAll(tail + Flatten(chunks), s)
    decreases |chunks|
  {
    hide TakenForBeginning, Scrub, RedactStep, ReplaceAll;
    if chunks == [] {
      ScrubOne(tail, s);
      assert tail + [] == tail;
    } else {
      var c, later := chunks[0], Flatten(chunks[1..]);
      StepIsCut(s, tail, c);
      StreamIsReplacement(s, RedactStep([s], tail, c).tail, chunks[1..]);
      KeptIsEnough(tail + c, later, s);
      Assoc(tail, c, later);
    }
  }

  // ----- the runs that fail -----

  lemma TwoChunks(s: string, x: string, y: string)
    requires s != []
    ensures var step := RedactStep([s], [], x);
            Stream([s], [], [x, y]) == step.output + ReplaceAll(step.tail + y, s)
    ensures Flatten([x, y]) == x + y
  {
    hide RedactStep, Scrub, ReplaceAll;
    assert [x, y][1..] == [y] && [y][1..] == [];
    assert Flatten([x, y][1..]) == y + Flatten([]);
    var step := RedactStep([s], [], x);
    var r := ReplaceAll(step.tail + y, s);
    var cut := Cut(r, |s| - 1);
    StepIsCut(s, step.tail, y);
    ScrubOne(r[cut..], s);
    ReplaceShort(r[cut..], s);
    CutJoins([], r, cut);
    assert Stream([s], r[cut..], []) == Scrub(r[cut..], [s]);
    assert [] + r[..cut] == r[..cut] && [] + r == r && y + [] == y;
  }

  lemma FirstCut(s: string, x: string)
    requires s != []
    ensures var r := ReplaceAll(x, s);
            RedactStep([s], [], x) == Step(r[..Cut(r, |s| - 1)], r[Cut(r, |s| - 1)..])
  {
    StepIsCut(s, [], x);
    assert [] + x == x;
  }

  /** A short text with `s` in it changes, unless `s` is the marker. */
  lemma ShortTextChanges(x: string, s: string, i: int)
    requires s != [] && s != MARKER && OccursAt(x, s, i) && |x| < 2 * |s|
    ensures ReplaceAll(x, s) != x
  {
    hide ReplaceAll, NoneBefore;
    var at := FirstOf(x, s, i);
    var lead, rest := x[..at], x[at + |s|..];
    hide OccursAt;
    assert x == lead + (s + rest);
    ReplacePassesOver(lead, s + rest, s);
    ReplaceFront(s, rest);
    if lead + (MARKER + rest) == lead + (s + rest) {
      SameMiddle(lead, MARKER, s, rest);
    }
  }

  lemma FirstOf(x: string, s: string, i: int) returns (at: nat)
    requires OccursAt(x, s, i)
    ensures at + |s| <= |x| && NoneBefore(at, x, s) && x == x[..at] + (s + x[at + |s|..])
  {
    assert NoneBefore(0, x, s);
    at := FirstOccurrence(x, s, 0);
    assert x == x[..at] + (x[at..at + |s|] + x[at + |s|..]);
  }

  lemma ReplaceFront(s: string, rest: string)
    requires s != [] && |rest| < |s|
    ensures ReplaceAll(s + rest, s) == MARKER + rest
  {
    CutOff(s, rest);
    ReplaceShort(rest, s);
  }

  lemma SameMiddle(lead: string, a: string, b: string, rest: string)
    requires lead + (a + rest) == lead + (b + rest)
    ensures a == b
  {
    assert (lead + (a + rest))[|lead|..|lead| + |a|] == a;
    assert (lead + (b + rest))[|lead|..|lead| + |b|] == b;
  }

  lemma MarkerDoesNotBeginSo()
    ensures !BeginsInMarker(MARKER)
  {
    forall k | 1 <= k < |MARKER|
      ensures MARKER[..k] != MARKER[|MARKER| - k..]
    {
      MarkerStartsOnce(|MARKER| - k);
      assert MARKER[..k][0] == MARKER[0] && MARKER[|MARKER| - k..][0] == MARKER[|MARKER| - k];
    }
  }

  /** `s`, then its own continuation of a marker end: the kept end of the marker makes it whole again. */
  lemma BeginsDiffers(s: string, k: nat)
    requires 1 <= k < |MARKER| && k < |s| && s[..k] == MARKER[|MARKER| - k..]
    ensures Stream([s], [], [s, s[k..]]) != ReplaceAll(Flatten([s, s[k..]]), s)
  {
    hide ReplaceAll, Stream, RedactStep, OccursAt, BeginsInMarker;
    var y := s[k..];
    TwoChunks(s, s, y);
    FirstCut(s, s);
    ReplaceFront(s, []);
    assert s + [] == s && MARKER + [] == MARKER;
    ReplaceFront(s, y);
    var cut := Cut(MARKER, |s| - 1);
    KeptEndChanges(s, k, cut);
    FrontStays(MARKER, cut, y, ReplaceAll(MARKER[cut..] + y, s));
  }

  lemma KeptEndChanges(s: string, k: nat, cut: nat)
    requires 1 <= k < |MARKER| && k < |s| && s[..k] == MARKER[|MARKER| - k..] && cut == Cut(MARKER, |s| - 1)
    ensures ReplaceAll(MARKER[cut..] + s[k..], s) != MARKER[cut..] + s[k..]
  {
    hide ReplaceAll, OccursAt;
    assert BeginsInMarker(s);
    MadeWhole(s, k, cut);
    MarkerDoesNotBeginSo();
    hide BeginsInMarker;
    ShortTextChanges(MARKER[cut..] + s[k..], s, |MARKER| - k - cut);
  }

  lemma FrontStays(text: string, cut: nat, y: string, r: string)
    requires cut <= |text| && r != text[cut..] + y
    ensures text[..cut] + r != text + y
  {
    assert text[..cut] + (text[cut..] + y) == text + y;
    if text[..cut] + r == text[..cut] + (text[cut..] + y) {
      SameEnd(text[..cut], r, text[cut..] + y);
    }
  }

  lemma SameEnd(lead: string, a: string, b: string)
    requires lead + a == lead + b
    ensures a == b
  {
    assert (lead + a)[|lead|..] == a && (lead + b)[|lead|..] == b;
  }

  lemma MadeWhole(s: string, k: nat, cut: nat)
    requires 1 <= k < |MARKER| && k < |s| && s[..k] == MARKER[|MARKER| - k..] && cut <= |MARKER| - k
    ensures OccursAt(MARKER[cut..] + s[k..], s, |MARKER| - k - cut)
  {
    var text, i := MARKER[cut..] + s[k..], |MARKER| - k - cut;
    forall j | 0 <= j < |s|
      ensures text[i + j] == s[j]
    {
      if j < k {
        assert s[..k][j] == MARKER[|MARKER| - k..][j];
      }
    }
    OccursFromChars(text, s, i);
  }

  /** What stands before the marker in `s`, and `s`, then what stands behind it: the marker put in makes `s` whole again. */
  lemma HoldsDiffers(s: string) returns (chunks: seq<string>)
    requires HoldsMarkerInside(s)
    ensures Stream([s], [], chunks) != ReplaceAll(Flatten(chunks), s)
  {
    hide ReplaceAll, Stream, RedactStep;
    var i :| OccursAt(s, MARKER, i) && i + |MARKER| < |s|;
    assert NoneBefore(0, s, MARKER);
    var at := FirstOccurrence(s, MARKER, 0);
    assert at <= i;
    var a, b := s[..at], s[at + |MARKER|..];
    chunks := [a + s, b];
    assert s == a + (MARKER + b) by {
      assert s == s[..at] + s[at..at + |MARKER|] + s[at + |MARKER|..];
    }
    TwoChunks(s, a + s, b);
    FirstCut(s, a + s);
    FirstMarkerIsClean(s, at);
    Assoc(a, s, b);
    FewerBehind(a, s, b);
    ReplacePassesOver(a, s, s);
    ReplaceFront(s, []);
    assert s + [] == s && MARKER + [] == MARKER;
    assert (a + MARKER)[..0] == [] && (a + MARKER)[0..] == a + MARKER;
    Assoc(a, MARKER, b);
    ReplacePassesOver(a, s + b, s);
    ReplaceFront(s, b);
  }

  lemma FewerBehind(a: string, s: string, b: string)
    requires NoneBefore(|a|, a + (s + b), s)
    ensures NoneBefore(|a|, a + s, s)
  {
    forall i | i < |a|
      ensures !OccursAt(a + s, s, i)
    {
      if OccursAt(a + s, s, i) {
        OccursChars(a + s, s, i);
        OccursFromChars(a + (s + b), s, i);
      }
    }
  }

  /**
   * One secret is redacted in every stream as it is in the whole text, by leftmost replacement, exactly when no
   * kept piece of a marker can be taken for its beginning: it has one character, or neither begins with a proper
   * end of the marker nor holds the marker before its last character.
   */
  lemma StreamingEqualsReplacementExactly(s: string)
    requires s != []
    ensures Usable([s])
    ensures (forall chunks :: Stream([s], [], chunks) == ReplaceAll(Flatten(chunks), s)) <==> !TakenForBeginning(s)
  {
    hide ReplaceAll, Stream;
    if TakenForBeginning(s) {
      var chunks;
      if BeginsInMarker(s) {
        var k :| 1 <= k < |MARKER| && k < |s| && s[..k] == MARKER[|MARKER| - k..];
        BeginsDiffers(s, k);
        chunks := [s, s[k..]];
      } else {
        chunks := HoldsDiffers(s);
      }
      assert Stream([s], [], chunks) != ReplaceAll(Flatten(chunks), s);
    } else {
      forall chunks
        ensures Stream([s], [], chunks) == ReplaceAll(Flatten(chunks), s)
      {
        StreamIsReplacement(s, [], chunks);
        assert [] + Flatten(chunks) == Flatten(chunks);
      }
    }
  }

  /** A secret that begins as the marker ends, and two chunks that stream otherwise than the whole text. */
  lemma KeptEndMatters()
    ensures Stream(["]x"], [], ["]x", "x"]) != ReplaceAll(Flatten(["]x", "x"]), "]x")
  {
    hide Stream, ReplaceAll;
    var s := "]x";
    assert s[..1] == MARKER[|MARKER| - 1..] && s[1..] == "x";
    BeginsDiffers(s, 1);
  }

  /** A secret inside the marker survives its own replacement, and still streams like the whole text. */
  lemma MeetingIsNotMattering()
    ensures Meets("ED") && !TakenForBeginning("ED")
  {
    var s := "ED";
    OccursFromChars(MARKER, s, 7);
    forall i
      ensures !OccursAt(s, MARKER, i)
    {
    }
    forall k | 1 <= k < |MARKER| && k < |s|
      ensures s[..k] != MARKER[|MARKER| - k..]
    {
      assert s[..k][0] == 'E' && MARKER[|MARKER| - k..][0] == ']';
    }
  }
}
