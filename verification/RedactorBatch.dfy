/** When redacting a stream equals redacting the whole text, and why several secrets need to keep apart. */
module RedactorBatch {
  import opened Bytes
  import opened Redactor
  import opened RedactorLaws
  import Sorting

  /** `q` neither occurs in `p` nor begins with a proper end of it. */
  ghost predicate Clear(p: string, q: string) {
    Absent(p, q) && !exists k :: 1 <= k < |p| && k < |q| && p[|p| - k..] == q[..k]
  }

  /** `q` occurs in `p` at most as its end, and no proper end of `q` is a proper beginning of `p`. */
  ghost predicate GivesWay(p: string, q: string) {
    (forall i :: OccursAt(p, q, i) ==> i + |q| == |p|) && !exists k :: 1 <= k < |q| && k < |p| && q[|q| - k..] == p[..k]
  }

  function FirstIndex(secrets: seq<string>, p: string): (i: nat)
    requires p in secrets
    ensures i < |secrets| && secrets[i] == p && p !in secrets[..i]
  {
    if secrets[0] == p then 0
    else
      var i := FirstIndex(secrets[1..], p);
      assert secrets[..i + 1] == [secrets[0]] + secrets[1..][..i];
      i + 1
  }

  /** `p` is replaced before `q`. */
  predicate ComesFirst(secrets: seq<string>, p: string, q: string) {
    p in secrets && q in secrets && FirstIndex(secrets, p) < FirstIndex(secrets, q)
  }

  /** Every secret gives way to those replaced before it, which are no shorter. */
  ghost predicate InOrder(secrets: seq<string>) {
    forall p, q :: ComesFirst(secrets, p, q) ==> |p| >= |q| && GivesWay(p, q)
  }

  /** The secrets are in order, and none collides with another through the marker. */
  ghost predicate Apart(secrets: seq<string>) {
    && (forall p :: p in secrets ==> p != [])
    && (forall p, q :: p in secrets && q in secrets ==> !Collides(p, q))
    && InOrder(secrets)
  }

  lemma OneComesFirst(secrets: seq<string>, p: string, q: string)
    requires p in secrets && q in secrets && p != q
    ensures ComesFirst(secrets, p, q) || ComesFirst(secrets, q, p)
  {
  }

  lemma {:induction false} FirstIndexAppend(a: seq<string>, b: seq<string>, p: string)
    requires p in a + b
    ensures FirstIndex(a + b, p) == if p in a then FirstIndex(a, p) else |a| + FirstIndex(b, p)
  {
    if a == [] {
      assert a + b == b;
    } else {
      AppendTail(a, b);
      if a[0] != p {
        FirstIndexAppend(a[1..], b, p);
      }
    }
  }

  lemma ApartPrefix(a: seq<string>, b: seq<string>)
    requires Apart(a + b)
    ensures Apart(a) && Usable(a)
  {
    hide Collides, GivesWay, FirstIndex;
    assert forall i :: 0 <= i < |a| ==> a[i] in a;
    assert forall q :: q in a ==> q in a + b;
    forall p, q | ComesFirst(a, p, q)
      ensures |p| >= |q| && GivesWay(p, q)
    {
      FirstIndexAppend(a, b, p);
      FirstIndexAppend(a, b, q);
      assert ComesFirst(a + b, p, q);
    }
  }

  /** The first listed secret a text starts with. */
  function FirstMatch(text: string, secrets: seq<string>): (r: Option<string>)
    ensures r.Some? ==> r.value in secrets && r.value <= text
    ensures r.None? ==> forall q :: q in secrets ==> !(q <= text)
  {
    if secrets == [] then None
    else if secrets[0] <= text then Some(secrets[0])
    else
      assert forall q :: q in secrets ==> q == secrets[0] || q in secrets[1..];
      FirstMatch(text, secrets[1..])
  }

  /** The reference for several secrets: one scan, replacing whichever secret the rest starts with. */
  function ReplaceAny(text: string, secrets: seq<string>): string
    requires Usable(secrets)
    decreases |text|
  {
    if text == [] then []
    else
      var q := FirstMatch(text, secrets);
      if q.Some? then MARKER + ReplaceAny(text[|q.value|..], secrets)
      else [text[0]] + ReplaceAny(text[1..], secrets)
  }

  // ----- the scan passes over what no secret starts in -----

  ghost predicate NoneStarts(limit: int, text: string, secrets: seq<string>) {
    forall q :: q in secrets ==> NoneBefore(limit, text, q)
  }

  lemma NoMatch(text: string, secrets: seq<string>)
    requires Usable(secrets) && NoneStarts(1, text, secrets)
    ensures FirstMatch(text, secrets).None?
  {
    forall q | q in secrets
      ensures !(q <= text)
    {
      NotAtFront(text, q);
    }
  }

  lemma NoneStartsInTail(limit: int, text: string, secrets: seq<string>)
    requires text != [] && NoneStarts(limit, text, secrets)
    ensures NoneStarts(limit - 1, text[1..], secrets)
  {
    hide NoneBefore;
    forall q | q in secrets
      ensures NoneBefore(limit - 1, text[1..], q)
    {
      NoneInTail(limit, text, q);
    }
  }

  lemma {:induction false} AnyPassesOver(lead: string, rest: string, secrets: seq<string>)
    requires Usable(secrets) && NoneStarts(|lead|, lead + rest, secrets)
    ensures ReplaceAny(lead + rest, secrets) == lead + ReplaceAny(rest, secrets)
    decreases |lead|
  {
    hide NoneStarts, FirstMatch;
    if lead == [] {
      assert lead + rest == rest;
    } else {
      AppendTail(lead, rest);
      FewerStart(|lead|, 1, lead + rest, secrets);
      NoMatch(lead + rest, secrets);
      NoneStartsInTail(|lead|, lead + rest, secrets);
      AnyPassesOver(lead[1..], rest, secrets);
      Assoc([lead[0]], lead[1..], ReplaceAny(rest, secrets));
      assert lead == [lead[0]] + lead[1..];
    }
  }

  lemma FewerStart(limit: int, less: int, text: string, secrets: seq<string>)
    requires less <= limit && NoneStarts(limit, text, secrets)
    ensures NoneStarts(less, text, secrets)
  {
  }

  /** No secret starts in a marker. */
  lemma NoneInMarker(rest: string, secrets: seq<string>)
    requires Apart(secrets)
    ensures NoneStarts(|MARKER|, MARKER + rest, secrets)
  {
    assert [] + MARKER + rest == MARKER + rest;
    forall q, i | q in secrets && i < |MARKER|
      ensures !OccursAt(MARKER + rest, q, i)
    {
      if 0 <= i {
        NothingStartsInMarker([], rest, q, q, i);
      }
    }
  }

  /** A secret other than those listed that a text starts with: none of the others starts inside it. */
  lemma NoneInSecret(p: string, rest: string, others: seq<string>)
    requires p != [] && (forall q :: q in others ==> q != [] && Clear(p, q))
    requires FirstMatch(p + rest, others).None?
    ensures NoneStarts(|p|, p + rest, others)
  {
    forall q, i | q in others && i < |p|
      ensures !OccursAt(p + rest, q, i)
    {
      if OccursAt(p + rest, q, i) {
        OverlapsOrInside(p, rest, q, i);
      }
    }
  }

  lemma OverlapsOrInside(p: string, rest: string, q: string, i: int)
    requires OccursAt(p + rest, q, i) && i < |p| && q != []
    ensures !Clear(p, q) || q <= p + rest
  {
    var text := p + rest;
    OccursChars(text, q, i);
    if i + |q| <= |p| {
      OccursFromChars(p, q, i);
    } else if i > 0 {
      var k := |p| - i;
      SamePart(p, q, i, 0, k);
      assert p[|p| - k..] == q[..k];
    } else {
      assert text[..|q|] == q;
    }
  }

  /** Scanning lets no occurrence start before a position where none started. */
  lemma {:induction false} AnyKeepsNoneBefore(limit: nat, lead: string, x: string, z: string, p: string, secrets: seq<string>)
    requires limit <= |lead| && Usable(secrets) && HarmlessTo(p, secrets) && NoneBefore(limit, lead + (x + z), p)
    ensures NoneBefore(limit, lead + (ReplaceAny(x, secrets) + z), p)
    decreases |x|
  {
    hide Collides, OccursAt, NoneBefore, FirstMatch;
    if x == [] {
    } else if FirstMatch(x, secrets).Some? {
      var q := FirstMatch(x, secrets).value;
      var rest := x[|q|..];
      CutPrefix(x, q, z);
      MarkerKeepsNoneBefore(limit, lead, rest + z, p, q);
      Assoc(lead, MARKER, rest + z);
      AnyKeepsNoneBefore(limit, lead + MARKER, rest, z, p, secrets);
      Assoc(MARKER, ReplaceAny(rest, secrets), z);
      Assoc(lead, MARKER, ReplaceAny(rest, secrets) + z);
    } else {
      OneLetter(lead, x + z);
      AppendTail(x, z);
      AnyKeepsNoneBefore(limit, lead + [x[0]], x[1..], z, p, secrets);
      Assoc([x[0]], ReplaceAny(x[1..], secrets), z);
      Assoc(lead, [x[0]], ReplaceAny(x[1..], secrets) + z);
    }
  }

  /** A secret the text does not start with is not put at its front by scanning what is behind its first character. */
  lemma StillNotAtFront(text: string, more: string, p: string, secrets: seq<string>)
    requires text != [] && Usable(secrets) && HarmlessTo(p, secrets) && !(p <= text + more)
    ensures !(p <= [text[0]] + (ReplaceAny(text[1..], secrets) + more))
  {
    hide HarmlessTo, ReplaceAny;
    OneLetter([], text + more);
    AppendTail(text, more);
    assert [text[0]] + (text[1..] + more) == text + more;
    OnlyAtFront(text + more, p);
    AnyKeepsNoneBefore(1, [text[0]], text[1..], more, p, secrets);
    NotAtFront([text[0]] + (ReplaceAny(text[1..], secrets) + more), p);
  }

  lemma StartsAtZero(text: string, p: string)
    requires OccursAt(text, p, 0)
    ensures p <= text
  {
    assert text[0..|p|] == text[..|p|];
  }

  lemma OnlyAtFront(text: string, p: string)
    requires !(p <= text)
    ensures NoneBefore(1, text, p)
  {
    forall i | i < 1
      ensures !OccursAt(text, p, i)
    {
      if i == 0 && OccursAt(text, p, i) {
        StartsAtZero(text, p);
      }
    }
  }

  // ----- one pass after another is one scan -----

  lemma MatchMore(text: string, secrets: seq<string>, p: string)
    ensures FirstMatch(text, secrets + [p])
            == if FirstMatch(text, secrets).Some? then FirstMatch(text, secrets) else if p <= text then Some(p) else None
  {
    if secrets == [] {
      assert secrets + [p] == [p] && [p][1..] == [];
    } else {
      AppendTail(secrets, [p]);
      MatchMore(text, secrets[1..], p);
    }
  }

  /** A pass for one more secret over the scan for some is the scan for all of them. */
  lemma {:induction false} OneMorePass(text: string, secrets: seq<string>, p: string)
    requires Apart(secrets + [p]) && Usable(secrets) && p != []
    ensures Usable(secrets + [p])
    ensures ReplaceAll(ReplaceAny(text, secrets), p) == ReplaceAny(text, secrets + [p])
    decreases |text|
  {
    hide Apart, FirstMatch;
    var all := secrets + [p];
    assert Usable(all);
    PassHelps(secrets, p);
    if text != [] {
      MatchMore(text, secrets, p);
      if FirstMatch(text, secrets).Some? {
        var q := FirstMatch(text, secrets).value;
        OneMorePass(text[|q|..], secrets, p);
        MarkerPasses(ReplaceAny(text[|q|..], secrets), p);
      } else if p <= text {
        var rest := text[|p|..];
        OneMorePass(rest, secrets, p);
        assert text == p + rest;
        NoneInSecret(p, rest, secrets);
        AnyPassesOver(p, rest, secrets);
        CutBack(p, ReplaceAny(rest, secrets));
      } else {
        OneMorePass(text[1..], secrets, p);
        assert text + [] == text && ReplaceAny(text[1..], secrets) + [] == ReplaceAny(text[1..], secrets);
        StillNotAtFront(text, [], p, secrets);
        ConsTail(text[0], ReplaceAny(text[1..], secrets));
      }
    }
  }

  lemma CutBack(p: string, rest: string)
    ensures p <= p + rest && (p + rest)[|p|..] == rest
  {
  }

  lemma PassHelps(secrets: seq<string>, p: string)
    requires Apart(secrets + [p])
    ensures HarmlessTo(p, secrets) && !Meets(p)
    ensures p !in secrets ==> forall q :: q in secrets ==> q != [] && Clear(p, q)
  {
    hide Clear, Collides, GivesWay, FirstIndex;
    var all := secrets + [p];
    assert p in all && forall q :: q in secrets ==> q in all;
    if p !in secrets {
      forall q | q in secrets
        ensures q != [] && Clear(p, q)
      {
        FirstIndexAppend(secrets, [p], p);
        FirstIndexAppend(secrets, [p], q);
        assert ComesFirst(all, q, p);
        GivingWayIsClear(q, p);
      }
    }
  }

  lemma GivingWayIsClear(p: string, q: string)
    requires |p| >= |q| && p != q && GivesWay(p, q)
    ensures Clear(q, p)
  {
    forall i
      ensures !OccursAt(q, p, i)
    {
      if OccursAt(q, p, i) {
        OccursChars(q, p, i);
      }
    }
  }

  lemma MarkerPasses(rest: string, p: string)
    requires p != [] && !Meets(p)
    ensures ReplaceAll(MARKER + rest, p) == MARKER + ReplaceAll(rest, p)
  {
    hide Collides;
    assert [] + MARKER + rest == MARKER + rest;
    forall i | i < |MARKER|
      ensures !OccursAt(MARKER + rest, p, i)
    {
      if 0 <= i {
        NothingStartsInMarker([], rest, p, p, i);
      }
    }
    ReplacePassesOver(MARKER, rest, p);
  }

  lemma {:induction false} ScrubIsOneScan(text: string, done: seq<string>, todo: seq<string>)
    requires Apart(done + todo) && Usable(done) && Usable(todo)
    ensures Usable(done + todo)
    ensures Scrub(ReplaceAny(text, done), todo) == ReplaceAny(text, done + todo)
    decreases |todo|
  {
    hide Apart, ReplaceAny, ReplaceOne;
    if todo == [] {
      assert done + todo == done;
    } else {
      var p := todo[0];
      assert todo == [p] + todo[1..];
      Assoc(done, [p], todo[1..]);
      ApartPrefix(done + [p], todo[1..]);
      OneMorePass(text, done, p);
      ReplaceOneReplacesAll(ReplaceAny(text, done), p);
      ScrubIsOneScan(text, done + [p], todo[1..]);
    }
  }

  lemma {:induction false} ScanForNothing(text: string)
    ensures ReplaceAny(text, []) == text
  {
    if text != [] {
      ScanForNothing(text[1..]);
    }
  }

  lemma ScrubScans(text: string, secrets: seq<string>)
    requires Apart(secrets) && Usable(secrets)
    ensures Scrub(text, secrets) == ReplaceAny(text, secrets)
  {
    assert [] + secrets == secrets;
    ScanForNothing(text);
    ScrubIsOneScan(text, [], secrets);
  }

  // ----- scanning early does not matter -----

  lemma ShorterOccurs(text: string, p: string, q: string)
    requires p <= text && q <= text && |p| >= |q|
    ensures OccursAt(p, q, 0) && (|p| == |q| ==> p == q)
  {
    assert p[0..|q|] == text[..|q|];
  }

  lemma OneSecretFits(text: string, p: string, q: string, secrets: seq<string>)
    requires Apart(secrets) && p in secrets && q in secrets && p <= text && q <= text
    ensures p == q
  {
    if |p| >= |q| {
      ShorterOccurs(text, p, q);
    } else {
      ShorterOccurs(text, q, p);
    }
    if p != q {
      OneComesFirst(secrets, p, q);
    }
  }

  /** A text that is only the beginning of a secret holds no secret. */
  lemma BeginningHoldsNone(text: string, p: string, secrets: seq<string>)
    requires Apart(secrets) && Usable(secrets) && p in secrets && text <= p && |text| < |p|
    ensures ReplaceAny(text, secrets) == text
  {
    hide Collides;
    forall q, i | q in secrets && i < |text|
      ensures !OccursAt(text + [], q, i)
    {
      if OccursAt(text + [], q, i) {
        OccursChars(text + [], q, i);
        OccursFromChars(p, q, i);
        OneComesFirst(secrets, p, q);
      }
    }
    AnyPassesOver(text, [], secrets);
    NothingBehind(text, text);
    assert ReplaceAny([], secrets) == [];
  }

  lemma {:induction false} ScanTwice(text: string, more: string, secrets: seq<string>)
    requires Apart(secrets) && Usable(secrets)
    ensures ReplaceAny(ReplaceAny(text, secrets) + more, secrets) == ReplaceAny(text + more, secrets)
    decreases |text|
  {
    hide Apart, FirstMatch;
    if text == [] {
    } else if FirstMatch(text, secrets).Some? {
      var q := FirstMatch(text, secrets).value;
      var rest := text[|q|..];
      ScanTwice(rest, more, secrets);
      CutPrefix(text, q, more);
      CutBack(q, rest + more);
      OneSecretFits(text + more, q, FirstMatch(text + more, secrets).value, secrets);
      Assoc(MARKER, ReplaceAny(rest, secrets), more);
      NoneInMarker(ReplaceAny(rest, secrets) + more, secrets);
      AnyPassesOver(MARKER, ReplaceAny(rest, secrets) + more, secrets);
    } else if FirstMatch(text + more, secrets).Some? {
      var p := FirstMatch(text + more, secrets).value;
      ShorterThanMatch(text, more, p);
      BeginningHoldsNone(text, p, secrets);
    } else {
      ScanTwice(text[1..], more, secrets);
      AppendTail(text, more);
      StillNoMatch(text, more, secrets);
      var c, r := [text[0]], ReplaceAny(text[1..], secrets) + more;
      Assoc(c, ReplaceAny(text[1..], secrets), more);
      ConsTail(text[0], r);
    }
  }

  lemma ShorterThanMatch(text: string, more: string, p: string)
    requires p <= text + more && !(p <= text)
    ensures text <= p && |text| < |p|
  {
    var n := if |p| <= |text| then |p| else |text|;
    assert (text + more)[..n] == text[..n] && p[..n] == (text + more)[..n];
  }

  lemma StillNoMatch(text: string, more: string, secrets: seq<string>)
    requires Apart(secrets) && Usable(secrets) && text != [] && FirstMatch(text + more, secrets).None?
    ensures FirstMatch([text[0]] + (ReplaceAny(text[1..], secrets) + more), secrets).None?
  {
    hide Collides, Clear, ReplaceAny;
    forall p | p in secrets
      ensures !(p <= [text[0]] + (ReplaceAny(text[1..], secrets) + more))
    {
      StillNotAtFront(text, more, p, secrets);
    }
  }

  // ----- streams -----

  ghost predicate AllKeptOut(emitted: string, tail: string, secrets: seq<string>) {
    forall p :: p in secrets ==> KeptOut(emitted, tail, p)
  }

  /** What was handed out and held back is the redaction of the input so far, and nothing handed out matters any more. */
  ghost predicate Follows(emitted: string, tail: string, input: string, secrets: seq<string>)
    requires Usable(secrets)
  {
    emitted + tail == ReplaceAny(input, secrets) && AllKeptOut(emitted, tail, secrets)
  }

  lemma CallFollows(emitted: string, tail: string, input: string, chunk: string, secrets: seq<string>)
    requires Apart(secrets) && Usable(secrets) && secrets != [] && Follows(emitted, tail, input, secrets)
    ensures emitted + Scrub(tail + chunk, secrets) == ReplaceAny(input + chunk, secrets)
    ensures var step := RedactStep(secrets, tail, chunk); Follows(emitted + step.output, step.tail, input + chunk, secrets)
  {
    hide Scrub, ReplaceAny, KeptOut, Collides, Clear, RedactStep;
    ScrubScans(tail + chunk, secrets);
    NothingStartsOut(emitted, tail, chunk, secrets);
    AnyPassesOver(emitted, tail + chunk, secrets);
    Assoc(emitted, tail, chunk);
    ScanTwice(input, chunk, secrets);
    StepSplits(emitted, secrets, tail, chunk);
    forall p | p in secrets
      ensures KeptOut(emitted + RedactStep(secrets, tail, chunk).output, RedactStep(secrets, tail, chunk).tail, p)
    {
      CallKeepsOut(emitted, tail, chunk, p, secrets);
    }
  }

  lemma NothingStartsOut(emitted: string, tail: string, chunk: string, secrets: seq<string>)
    requires AllKeptOut(emitted, tail, secrets)
    ensures NoneStarts(|emitted|, emitted + (tail + chunk), secrets)
  {
    hide NoneBefore, Absent;
  }

  lemma {:induction false} StreamFollows(emitted: string, tail: string, input: string, chunks: seq<string>, secrets: seq<string>)
    requires Apart(secrets) && Usable(secrets) && secrets != [] && Follows(emitted, tail, input, secrets)
    ensures emitted + Stream(secrets, tail, chunks) == ReplaceAny(input + Flatten(chunks), secrets)
    decreases |chunks|
  {
    hide Apart, Follows, Scrub, ReplaceAny, RedactStep;
    if chunks == [] {
      CallFollows(emitted, tail, input, [], secrets);
      NothingBehind(tail, input);
    } else {
      var step := RedactStep(secrets, tail, chunks[0]);
      CallFollows(emitted, tail, input, chunks[0], secrets);
      StreamFollows(emitted + step.output, step.tail, input + chunks[0], chunks[1..], secrets);
      Assoc(input, chunks[0], Flatten(chunks[1..]));
      Assoc(emitted, step.output, Stream(secrets, step.tail, chunks[1..]));
    }
  }

  /** However the text is cut into chunks, secrets that are apart are redacted as in one call on the whole text. */
  lemma StreamingEqualsBatch(secrets: seq<string>, chunks: seq<string>)
    requires Apart(secrets)
    ensures Usable(secrets)
    ensures Stream(secrets, [], chunks) == Scrub(Flatten(chunks), secrets)
  {
    hide Apart, ReplaceAny;
    assert secrets + [] == secrets;
    ApartPrefix(secrets, []);
    if secrets == [] {
      NothingToRedact(chunks);
    } else {
      ScrubScans(Flatten(chunks), secrets);
      StartsFollowing(secrets);
      StreamFollows([], [], [], chunks, secrets);
      assert [] + Flatten(chunks) == Flatten(chunks);
      assert [] + Stream(secrets, [], chunks) == Stream(secrets, [], chunks);
    }
  }

  lemma StartsFollowing(secrets: seq<string>)
    requires Usable(secrets)
    ensures Follows([], [], [], secrets)
  {
    hide KeptOut;
    forall p | p in secrets
      ensures KeptOut([], [], p)
    {
      NothingOut(p);
    }
  }

  lemma {:induction false} NothingToRedact(chunks: seq<string>)
    ensures Stream([], [], chunks) == Flatten(chunks)
  {
    if chunks != [] {
      NothingToRedact(chunks[1..]);
    }
  }

  /** A secret inside another: redacted early, it takes the longer one's beginning away, and its end is shown. */
  lemma EarlyPassShowsTheRest()
    ensures Usable(["abcd", "ab"])
    ensures Stream(["abcd", "ab"], [], ["ab", "cd"]) == MARKER + "cd"
    ensures Scrub("abcd", ["abcd", "ab"]) == MARKER
  {
    hide ReplaceAll, Scrub, RedactStep;
    var secrets := ["abcd", "ab"];
    FirstCall();
    SecondCall();
    Untouched("]cd", "abcd", "ab");
    assert ["ab", "cd"][1..] == ["cd"] && ["cd"][1..] == [];
    assert Stream(secrets, "]cd", []) == "]cd";
    assert Stream(secrets, "ED]", ["cd"]) == "ED" + "]cd";
    assert "[REDACT" + ("ED" + "]cd") == MARKER + "cd";
    ScrubTwo("abcd", "abcd", "ab");
    ReplaceItself("abcd");
    Untouched(MARKER, "abcd", "ab");
  }

  lemma TailOfThree(redacted: string)
    requires |redacted| >= 3
    ensures KeepLength(["abcd", "ab"], redacted) == 3
  {
    assert ["abcd", "ab"][1..] == ["ab"];
    assert MaxLength(["ab"]) == 2;
  }

  lemma FirstCall()
    ensures Usable(["abcd", "ab"]) && RedactStep(["abcd", "ab"], [], "ab") == Step("[REDACT", "ED]")
  {
    hide ReplaceAll, Scrub, KeepLength;
    ScrubTwo("ab", "abcd", "ab");
    ReplaceShort("ab", "abcd");
    ReplaceItself("ab");
    TailOfThree(MARKER);
    assert [] + "ab" == "ab";
    assert MARKER[..7] == "[REDACT" && MARKER[7..] == "ED]";
  }

  lemma SecondCall()
    ensures Usable(["abcd", "ab"]) && RedactStep(["abcd", "ab"], "ED]", "cd") == Step("ED", "]cd")
  {
    hide ReplaceAll, Scrub, KeepLength;
    Untouched("ED]cd", "abcd", "ab");
    TailOfThree("ED]cd");
    assert "ED]" + "cd" == "ED]cd";
    assert "ED]cd"[..2] == "ED" && "ED]cd"[2..] == "]cd";
  }

  lemma ScrubTwo(text: string, a: string, b: string)
    requires a != [] && b != []
    ensures Usable([a, b]) && Scrub(text, [a, b]) == ReplaceAll(ReplaceAll(text, a), b)
  {
    assert [a, b][1..] == [b];
    ReplaceOneReplacesAll(text, a);
    ScrubOne(ReplaceAll(text, a), b);
  }

  lemma ReplaceItself(secret: string)
    requires secret != []
    ensures ReplaceAll(secret, secret) == MARKER
  {
    assert secret[|secret|..] == [];
  }

  lemma {:induction false} ReplaceUnmet(text: string, secret: string)
    requires secret != [] && secret[0] !in text
    ensures ReplaceAll(text, secret) == text
  {
    if text != [] {
      ReplaceUnmet(text[1..], secret);
    }
  }

  lemma Untouched(text: string, a: string, b: string)
    requires a != [] && b != [] && a[0] !in text && b[0] !in text
    ensures Usable([a, b]) && Scrub(text, [a, b]) == text
    ensures ReplaceAll(text, a) == text && ReplaceAll(text, b) == text
  {
    ReplaceUnmet(text, a);
    ReplaceUnmet(text, b);
    ScrubTwo(text, a, b);
  }
}
