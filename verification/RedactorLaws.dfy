/** What redaction in a stream keeps out, exactly, and when it equals redaction of the whole. */
module RedactorLaws {
  import opened Bytes
  import opened Redactor
  import Sorting

  // ----- how a secret can collide with the marker -----

  /** `p` begins with a proper end of the marker. */
  predicate BeginsInMarker(p: string) {
    exists k :: 1 <= k < |MARKER| && k < |p| && p[..k] == MARKER[|MARKER| - k..]
  }

  /** `p` ends with a proper beginning of the marker, and `q` does not begin with it. */
  predicate EndsInMarker(p: string, q: string) {
    exists k :: 1 <= k < |MARKER| && EndsWithMarkerStart(p, k) && !(MARKER[..k] <= q)
  }

  predicate EndsWithMarkerStart(p: string, k: nat)
    requires k < |MARKER|
  {
    k < |p| && p[|p| - k..] == MARKER[..k]
  }

  /** Replacing `q` by the marker can put `p` together: `p` is part of the marker, holds it, or overlaps an end of it. */
  ghost predicate Collides(p: string, q: string) {
    !Absent(MARKER, p) || !Absent(p, MARKER) || BeginsInMarker(p) || EndsInMarker(p, q)
  }

  ghost predicate Meets(s: string) {
    Collides(s, s)
  }

  /** Secrets without any character of the marker are harmless to one another. */
  lemma DisjointIsHarmless(p: string, q: string)
    requires p != [] && forall c :: c in p ==> c !in MARKER
    ensures !Collides(p, q)
  {
    forall i
      ensures !OccursAt(MARKER, p, i) && !OccursAt(p, MARKER, i)
    {
      if OccursAt(MARKER, p, i) {
        SharedChar(MARKER, p, i);
      }
      if OccursAt(p, MARKER, i) {
        SharedChar(p, MARKER, i);
      }
    }
    SharesFirst(p, q);
  }

  lemma SharedChar(text: string, s: string, i: int)
    requires s != [] && OccursAt(text, s, i)
    ensures exists c :: c in text && c in s
  {
    assert text[i..i + |s|][0] == text[i];
    assert s[0] in text && s[0] in s;
  }

  lemma SharesFirst(p: string, q: string)
    ensures BeginsInMarker(p) ==> exists c :: c in p && c in MARKER
    ensures EndsInMarker(p, q) ==> exists c :: c in p && c in MARKER
  {
    if BeginsInMarker(p) {
      var k :| 1 <= k < |MARKER| && k < |p| && p[..k] == MARKER[|MARKER| - k..];
      assert p[..k][0] == p[0] && MARKER[|MARKER| - k..][0] == MARKER[|MARKER| - k];
      assert p[0] in p && p[0] in MARKER;
    }
    if EndsInMarker(p, q) {
      var k :| 1 <= k < |MARKER| && EndsWithMarkerStart(p, k);
      assert p[|p| - k..][0] == p[|p| - k] && MARKER[..k][0] == MARKER[0];
      assert p[|p| - k] in p && p[|p| - k] in MARKER;
    }
  }

  // ----- occurrences after one replacement -----

  /** No occurrence of `p` starts before position `limit`. */
  ghost predicate NoneBefore(limit: int, text: string, p: string) {
    forall i :: i < limit ==> !OccursAt(text, p, i)
  }

  lemma OccursChars(text: string, s: string, i: int)
    requires OccursAt(text, s, i)
    ensures forall j :: 0 <= j < |s| ==> text[i + j] == s[j]
  {
    forall j | 0 <= j < |s|
      ensures text[i + j] == s[j]
    {
      assert text[i..i + |s|][j] == text[i + j];
    }
  }

  lemma StartsInside(text: string, s: string, i: int)
    requires OccursAt(text, s, i)
    ensures 0 <= i <= |text| - |s|
  {
  }

  lemma OccursFromChars(text: string, s: string, i: int)
    requires 0 <= i && i + |s| <= |text| && forall j :: 0 <= j < |s| ==> text[i + j] == s[j]
    ensures OccursAt(text, s, i)
  {
  }

  /** The part of a text between two positions, when the text is known there character by character. */
  lemma SamePart(a: string, b: string, i: nat, j: nat, n: nat)
    requires i + n <= |a| && j + n <= |b| && forall k :: j <= k < j + n ==> a[i + k - j] == b[k]
    ensures a[i..i + n] == b[j..j + n]
  {
    var x, y := a[i..i + n], b[j..j + n];
    forall k | 0 <= k < |y|
      ensures x[k] == y[k]
    {
      assert a[i + k] == b[j + k];
    }
  }

  /** An occurrence that starts inside the marker: there is none. */
  lemma NothingStartsInMarker(lead: string, rest: string, p: string, q: string, i: int)
    requires p != [] && !Collides(p, q) && |lead| <= i < |lead| + |MARKER|
    ensures !OccursAt(lead + MARKER + rest, p, i)
  {
    if OccursAt(lead + MARKER + rest, p, i) {
      var text, o := lead + MARKER + rest, i - |lead|;
      OccursChars(text, p, i);
      assert forall j :: 0 <= j < |MARKER| ==> text[|lead| + j] == MARKER[j];
      if o + |p| <= |MARKER| {
        OccursFromChars(MARKER, p, o);
      } else if o == 0 {
        OccursFromChars(p, MARKER, 0);
      } else {
        OverlapBegins(lead, rest, p, i);
      }
    }
  }

  lemma OverlapBegins(lead: string, rest: string, p: string, i: int)
    requires OccursAt(lead + MARKER + rest, p, i) && |lead| < i < |lead| + |MARKER| < i + |p|
    ensures BeginsInMarker(p)
  {
    var text, o := lead + MARKER + rest, i - |lead|;
    var k := |MARKER| - o;
    OccursChars(text, p, i);
    assert forall j :: 0 <= j < |MARKER| ==> text[|lead| + j] == MARKER[j];
    SamePart(p, MARKER, 0, o, k);
    assert p[..k] == MARKER[|MARKER| - k..];
  }

  /** An occurrence that runs into the marker from before it was there, whole, when `q` was in the marker's place. */
  lemma RunsIntoMarker(lead: string, rest: string, p: string, q: string, i: int)
    requires p != [] && !Collides(p, q)
    requires OccursAt(lead + MARKER + rest, p, i) && i < |lead| < i + |p|
    ensures OccursAt(lead + q + rest, p, i)
  {
    var text, k := lead + MARKER + rest, i + |p| - |lead|;
    OccursChars(text, p, i);
    assert forall j :: 0 <= j < |MARKER| ==> text[|lead| + j] == MARKER[j];
    if k >= |MARKER| {
      OccursFromChars(p, MARKER, |lead| - i);
    } else {
      SamePart(p, MARKER, |p| - k, 0, k);
      assert p[|p| - k..] == MARKER[..k];
      assert EndsWithMarkerStart(p, k);
      assert MARKER[..k] <= q;
      OccursFromChars(lead + q + rest, p, i);
    }
  }

  /** Every occurrence in a text with a marker put in place of `q` is one of the text that had `q` there. */
  lemma OneReplacement(lead: string, rest: string, p: string, q: string, i: int)
    requires p != [] && !Collides(p, q) && OccursAt(lead + MARKER + rest, p, i)
    ensures i < |lead| ==> OccursAt(lead + q + rest, p, i)
    ensures i >= |lead| ==> i >= |lead| + |MARKER| && OccursAt(lead + q + rest, p, i - |MARKER| + |q|)
  {
    OccursChars(lead + MARKER + rest, p, i);
    if i < |lead| {
      if i + |p| <= |lead| {
        OccursFromChars(lead + q + rest, p, i);
      } else {
        RunsIntoMarker(lead, rest, p, q, i);
      }
    } else {
      if i < |lead| + |MARKER| {
        NothingStartsInMarker(lead, rest, p, q, i);
      }
      OccursFromChars(lead + q + rest, p, i - |MARKER| + |q|);
    }
  }

  lemma TextSplits(lead: string, x: string, q: string)
    requires q <= x
    ensures lead + q + x[|q|..] == lead + x
  {
    assert q + x[|q|..] == x;
    Assoc(lead, q, x[|q|..]);
  }

  lemma OneLetter(lead: string, x: string)
    requires x != []
    ensures lead + [x[0]] + x[1..] == lead + x
  {
    assert [x[0]] + x[1..] == x;
    Assoc(lead, [x[0]], x[1..]);
  }

  /** Replacing in what follows lets no occurrence start before a position where none started. */
  lemma {:induction false} ReplaceKeepsNoneBefore(limit: nat, lead: string, x: string, z: string, p: string, q: string)
    requires limit <= |lead| && p != [] && q != [] && !Collides(p, q)
    requires NoneBefore(limit, lead + (x + z), p)
    ensures NoneBefore(limit, lead + (ReplaceAll(x, q) + z), p)
    decreases |x|
  {
    hide Collides, OccursAt;
    if x == [] {
    } else if q <= x {
      var rest := x[|q|..];
      CutPrefix(x, q, z);
      MarkerKeepsNoneBefore(limit, lead, rest + z, p, q);
      ReplaceKeepsNoneBefore(limit, lead + MARKER, rest, z, p, q);
      Assoc(MARKER, ReplaceAll(rest, q), z);
      Assoc(lead, MARKER, ReplaceAll(rest, q) + z);
    } else {
      OneLetter(lead, x + z);
      AppendTail(x, z);
      ReplaceKeepsNoneBefore(limit, lead + [x[0]], x[1..], z, p, q);
      Assoc([x[0]], ReplaceAll(x[1..], q), z);
      Assoc(lead, [x[0]], ReplaceAll(x[1..], q) + z);
    }
  }

  lemma CutPrefix(x: string, q: string, z: string)
    requires q <= x
    ensures x + z == q + (x[|q|..] + z)
  {
    assert x == q + x[|q|..];
    Assoc(q, x[|q|..], z);
  }

  lemma MarkerKeepsNoneBefore(limit: nat, lead: string, rest: string, p: string, q: string)
    requires limit <= |lead| && p != [] && !Collides(p, q) && NoneBefore(limit, lead + (q + rest), p)
    ensures NoneBefore(limit, lead + MARKER + rest, p)
  {
    hide Collides, OccursAt;
    Assoc(lead, q, rest);
    forall i | i < limit
      ensures !OccursAt(lead + MARKER + rest, p, i)
    {
      if OccursAt(lead + MARKER + rest, p, i) {
        OneReplacement(lead, rest, p, q, i);
      }
    }
  }

  lemma StartsThere(lead: string, x: string, q: string)
    requires OccursAt(lead + x, q, |lead|)
    ensures q <= x
  {
    assert (lead + x)[|lead|..|lead| + |q|] == x[..|q|];
  }

  /** Replacing `q` leaves no `q`. */
  lemma {:induction false} ReplaceRemoves(lead: string, x: string, q: string)
    requires q != [] && !Meets(q) && NoneBefore(|lead|, lead + x, q)
    ensures Absent(lead + ReplaceAll(x, q), q)
    decreases |x|
  {
    hide Collides;
    if x == [] {
      forall i
        ensures !OccursAt(lead + [], q, i)
      {
        assert lead + x == lead + [];
      }
    } else if q <= x {
      var rest := x[|q|..];
      TextSplits(lead, x, q);
      forall i | i < |lead + MARKER|
        ensures !OccursAt(lead + MARKER + rest, q, i)
      {
        if OccursAt(lead + MARKER + rest, q, i) {
          OneReplacement(lead, rest, q, q, i);
        }
      }
      ReplaceRemoves(lead + MARKER, rest, q);
      Assoc(lead, MARKER, ReplaceAll(rest, q));
    } else {
      OneLetter(lead, x);
      forall i | i < |lead + [x[0]]|
        ensures !OccursAt(lead + [x[0]] + x[1..], q, i)
      {
        if i == |lead| && OccursAt(lead + x, q, i) {
          StartsThere(lead, x, q);
        }
      }
      ReplaceRemoves(lead + [x[0]], x[1..], q);
      Assoc(lead, [x[0]], ReplaceAll(x[1..], q));
    }
  }

  /** Replacing `q` puts no `p` where there was none. */
  lemma {:induction false} ReplaceAddsNothing(lead: string, x: string, p: string, q: string)
    requires p != [] && q != [] && !Collides(p, q) && Absent(lead + x, p)
    ensures Absent(lead + ReplaceAll(x, q), p)
    decreases |x|
  {
    hide Collides, OccursAt;
    if x == [] {
    } else if q <= x {
      var rest := x[|q|..];
      TextSplits(lead, x, q);
      forall i
        ensures !OccursAt(lead + MARKER + rest, p, i)
      {
        if OccursAt(lead + MARKER + rest, p, i) {
          OneReplacement(lead, rest, p, q, i);
        }
      }
      ReplaceAddsNothing(lead + MARKER, rest, p, q);
      Assoc(lead, MARKER, ReplaceAll(rest, q));
    } else {
      OneLetter(lead, x);
      ReplaceAddsNothing(lead + [x[0]], x[1..], p, q);
      Assoc(lead, [x[0]], ReplaceAll(x[1..], q));
    }
  }

  // ----- all the passes -----

  ghost predicate HarmlessTo(p: string, secrets: seq<string>) {
    p != [] && forall q :: q in secrets ==> !Collides(p, q)
  }

  lemma {:induction false} ScrubKeepsNoneBefore(limit: nat, lead: string, x: string, z: string, p: string, secrets: seq<string>)
    requires limit <= |lead| && Usable(secrets) && HarmlessTo(p, secrets) && NoneBefore(limit, lead + (x + z), p)
    ensures NoneBefore(limit, lead + (Scrub(x, secrets) + z), p)
    decreases |secrets|
  {
    hide Collides, NoneBefore, ReplaceOne, ReplaceAll;
    if secrets != [] {
      assert secrets[0] in secrets;
      ReplaceOneReplacesAll(x, secrets[0]);
      ReplaceKeepsNoneBefore(limit, lead, x, z, p, secrets[0]);
      ScrubKeepsNoneBefore(limit, lead, ReplaceOne(x, secrets[0]), z, p, secrets[1..]);
    }
  }

  /** The passes for all secrets in turn remove each of them, and bring none back. */
  lemma {:induction false} ScrubRemoves(lead: string, x: string, p: string, secrets: seq<string>)
    requires Usable(secrets) && HarmlessTo(p, secrets) && !Meets(p)
    requires NoneBefore(|lead|, lead + x, p) && (Absent(lead + x, p) || p in secrets)
    ensures Absent(lead + Scrub(x, secrets), p)
    decreases |secrets|
  {
    hide Collides, NoneBefore, ReplaceOne, ReplaceAll, Absent;
    if secrets != [] {
      var q := secrets[0];
      assert q in secrets;
      ReplaceOneReplacesAll(x, q);
      NothingBehind(x, ReplaceAll(x, q));
      ReplaceKeepsNoneBefore(|lead|, lead, x, [], p, q);
      if Absent(lead + x, p) {
        ReplaceAddsNothing(lead, x, p, q);
      } else if p == q {
        ReplaceRemoves(lead, x, q);
      }
      ScrubRemoves(lead, ReplaceOne(x, q), p, secrets[1..]);
    }
  }

  lemma NothingBehind(x: string, y: string)
    ensures x + [] == x && y + [] == y
  {
  }

  // ----- no secret survives -----

  /** Of the text handed out and held back so far, nothing is `p`, and no `p` can start in what was handed out. */
  ghost predicate KeptOut(emitted: string, tail: string, p: string) {
    Absent(emitted + tail, p) && forall z :: NoneBefore(|emitted|, emitted + (tail + z), p)
  }

  lemma NothingOut(p: string)
    requires p != []
    ensures KeptOut([], [], p)
  {
  }

  /** A call holds back all but one character of a secret's length, or everything. */
  lemma StepHolds(secrets: seq<string>, tail: string, chunk: string, p: string)
    requires Usable(secrets) && secrets != [] && p in secrets
    ensures var step := RedactStep(secrets, tail, chunk);
            |step.tail| >= |p| - 1 || (step.output == [] && step.tail == Scrub(tail + chunk, secrets))
  {
    hide Scrub;
  }

  lemma StillNoneBefore(emitted: string, tail: string, chunk: string, z: string, p: string, secrets: seq<string>)
    requires Usable(secrets) && HarmlessTo(p, secrets) && KeptOut(emitted, tail, p)
    ensures NoneBefore(|emitted|, emitted + (Scrub(tail + chunk, secrets) + z), p)
  {
    hide Scrub, NoneBefore, HarmlessTo, Absent;
    Assoc(tail, chunk, z);
    assert NoneBefore(|emitted|, emitted + (tail + (chunk + z)), p);
    ScrubKeepsNoneBefore(|emitted|, emitted, tail + chunk, z, p, secrets);
  }

  lemma NothingCame(emitted: string, tail: string, chunk: string, p: string, secrets: seq<string>)
    requires Usable(secrets) && HarmlessTo(p, secrets) && p in secrets && KeptOut(emitted, tail, p)
    ensures Absent(emitted + Scrub(tail + chunk, secrets), p)
  {
    hide Scrub, NoneBefore, Collides, Absent;
    assert NoneBefore(|emitted|, emitted + (tail + chunk), p);
    ScrubRemoves(emitted, tail + chunk, p, secrets);
  }

  /** One call keeps `p` out. */
  lemma CallKeepsOut(emitted: string, tail: string, chunk: string, p: string, secrets: seq<string>)
    requires Usable(secrets) && secrets != [] && HarmlessTo(p, secrets) && p in secrets && KeptOut(emitted, tail, p)
    ensures Absent(emitted + Scrub(tail + chunk, secrets), p)
    ensures var step := RedactStep(secrets, tail, chunk); KeptOut(emitted + step.output, step.tail, p)
  {
    var step := RedactStep(secrets, tail, chunk);
    var out := emitted + step.output;
    hide RedactStep, Scrub, NoneBefore, HarmlessTo, Absent, Usable;
    NothingCame(emitted, tail, chunk, p, secrets);
    StepSplits(emitted, secrets, tail, chunk);
    StepHolds(secrets, tail, chunk, p);
    forall z
      ensures NoneBefore(|out|, out + (step.tail + z), p)
    {
      if |step.tail| >= |p| - 1 {
        LongTailGuards(out, step.tail, z, p);
      } else {
        StillNoneBefore(emitted, tail, chunk, z, p, secrets);
        assert out == emitted;
      }
    }
  }

  lemma StepSplits(emitted: string, secrets: seq<string>, tail: string, chunk: string)
    requires Usable(secrets) && secrets != []
    ensures var step := RedactStep(secrets, tail, chunk);
            emitted + step.output + step.tail == emitted + Scrub(tail + chunk, secrets)
  {
    var r := Scrub(tail + chunk, secrets);
    CutJoins(emitted, r, |r| - KeepLength(secrets, r));
  }

  /** A tail at most one character shorter than `p` leaves no room for a `p` that starts before it and runs on behind it. */
  lemma LongTailGuards(out: string, tail: string, z: string, p: string)
    requires |tail| >= |p| - 1 && Absent(out + tail, p)
    ensures NoneBefore(|out|, out + (tail + z), p)
  {
    forall i | i < |out|
      ensures !OccursAt(out + (tail + z), p, i)
    {
      if OccursAt(out + (tail + z), p, i) {
        OccursChars(out + (tail + z), p, i);
        OccursFromChars(out + tail, p, i);
      }
    }
  }

  lemma {:induction false} StreamKeepsOut(emitted: string, tail: string, chunks: seq<string>, p: string, secrets: seq<string>)
    requires Usable(secrets) && secrets != [] && HarmlessTo(p, secrets) && p in secrets && KeptOut(emitted, tail, p)
    ensures Absent(emitted + Stream(secrets, tail, chunks), p)
    decreases |chunks|
  {
    hide KeptOut, Absent, Collides, RedactStep, Scrub;
    if chunks == [] {
      CallKeepsOut(emitted, tail, [], p, secrets);
      NothingBehind(tail, []);
    } else {
      var step := RedactStep(secrets, tail, chunks[0]);
      CallKeepsOut(emitted, tail, chunks[0], p, secrets);
      StreamKeepsOut(emitted + step.output, step.tail, chunks[1..], p, secrets);
      Assoc(emitted, step.output, Stream(secrets, step.tail, chunks[1..]));
    }
  }

  /** Whatever the chunking, no secret appears in the output when no two of them collide through the marker. */
  lemma NoSecretSurvives(given: seq<string>, chunks: seq<string>, secret: string)
    requires forall p, q :: p in given && q in given && p != [] && q != [] ==> !Collides(p, q)
    requires secret in given && secret != []
    ensures Usable(Prepare(given))
    ensures Absent(Stream(Prepare(given), [], chunks), secret)
  {
    hide Collides, KeptOut;
    PrepareKeepsSecrets(given);
    var secrets := Prepare(given);
    assert secret in secrets;
    NothingOut(secret);
    StreamKeepsOut([], [], chunks, secret, secrets);
    assert [] + Stream(secrets, [], chunks) == Stream(secrets, [], chunks);
  }

  // ----- one secret: exactly when it can survive -----

  lemma {:induction false} ReplaceShort(text: string, secret: string)
    requires |text| < |secret|
    ensures ReplaceAll(text, secret) == text
  {
    if text != [] {
      ReplaceShort(text[1..], secret);
    }
  }

  /** Characters before which no occurrence starts pass through unchanged. */
  lemma {:induction false} ReplacePassesOver(lead: string, rest: string, secret: string)
    requires secret != [] && NoneBefore(|lead|, lead + rest, secret)
    ensures ReplaceAll(lead + rest, secret) == lead + ReplaceAll(rest, secret)
    decreases |lead|
  {
    if lead == [] {
      assert lead + rest == rest;
    } else {
      AppendTail(lead, rest);
      NotAtFront(lead + rest, secret);
      NoneInTail(|lead|, lead + rest, secret);
      ReplacePassesOver(lead[1..], rest, secret);
      Assoc([lead[0]], lead[1..], ReplaceAll(rest, secret));
      assert lead == [lead[0]] + lead[1..];
    }
  }

  lemma NotAtFront(text: string, p: string)
    requires p != [] && NoneBefore(1, text, p)
    ensures !(p <= text)
  {
    assert !OccursAt(text, p, 0);
  }

  lemma NoneInTail(limit: int, text: string, p: string)
    requires text != [] && NoneBefore(limit, text, p)
    ensures NoneBefore(limit - 1, text[1..], p)
  {
    forall i | i < limit - 1
      ensures !OccursAt(text[1..], p, i)
    {
      if OccursAt(text[1..], p, i) {
        OccursChars(text[1..], p, i);
        OccursFromChars(text, p, i + 1);
      }
    }
  }

  lemma ScrubOne(text: string, secret: string)
    requires secret != []
    ensures Scrub(text, [secret]) == ReplaceAll(text, secret)
  {
    ReplaceOneReplacesAll(text, secret);
  }

  lemma OneStep(secret: string, text: string)
    requires secret != []
    ensures var step := RedactStep([secret], [], text);
            step.output + step.tail == Scrub(text, [secret]) && |step.tail| < |secret|
  {
    hide Scrub, ReplaceOne, Includes;
    assert [] + text == text && [secret][1..] == [];
    assert MaxLength([secret][1..]) == 0;
    assert MaxLength([secret]) == |secret|;
    CutJoins([], Scrub(text, [secret]), |RedactStep([secret], [], text).output|);
  }

  lemma StreamOne(secret: string, text: string)
    requires secret != []
    ensures var step := RedactStep([secret], [], text);
            Stream([secret], [], [text]) == step.output + Scrub(step.tail, [secret])
  {
    hide RedactStep, Scrub;
    assert [text][1..] == [];
  }

  /** One chunk and the end of the stream: the tail is too short to hold the secret again. */
  lemma OneChunk(secret: string, text: string)
    requires secret != []
    ensures Stream([secret], [], [text]) == ReplaceAll(text, secret)
  {
    hide RedactStep, Scrub, Stream, ReplaceAll;
    OneStep(secret, text);
    StreamOne(secret, text);
    var step := RedactStep([secret], [], text);
    ScrubOne(text, secret);
    ScrubOne(step.tail, secret);
    ReplaceShort(step.tail, secret);
  }

  /** `before`, the secret and `behind`, when the secret does not start earlier: the marker takes its place. */
  lemma MarkerInPlace(before: string, secret: string, behind: string)
    requires secret != [] && NoneBefore(|before|, before + (secret + behind), secret) && |behind| < |secret|
    ensures Stream([secret], [], [before + (secret + behind)]) == before + (MARKER + behind)
  {
    OneChunk(secret, before + (secret + behind));
    ReplacePassesOver(before, secret + behind, secret);
    assert (secret + behind)[|secret|..] == behind;
    ReplaceShort(behind, secret);
  }

  /** An earlier occurrence of `s`, `d` characters before another one, makes `s` repeat itself at distance `d`. */
  lemma Repeats(u: string, s: string, rest: string, i: int)
    requires OccursAt(u + (s + rest), s, i) && i < |u| && u <= s
    ensures forall j :: |u| - i <= j < |s| ==> s[j] == s[j - (|u| - i)]
    ensures forall j :: i <= j < |u| && j - i < |s| ==> s[j] == s[j - i]
  {
    var text := u + (s + rest);
    OccursChars(text, s, i);
    forall j | |u| - i <= j < |s|
      ensures s[j] == s[j - (|u| - i)]
    {
      assert text[i + j] == s[i + j - |u|];
    }
    forall j | i <= j < |u| && j - i < |s|
      ensures s[j] == s[j - i]
    {
      assert text[i + (j - i)] == u[j];
    }
  }

  /** A secret that ends in the marker without beginning so does not occur early in its own lead and itself. */
  lemma LeadIsClean(s: string, k: nat)
    requires 1 <= k < |MARKER| && EndsWithMarkerStart(s, k) && !(MARKER[..k] <= s)
    ensures var u := s[..|s| - k]; NoneBefore(|u|, u + (s + []), s)
  {
    var u := s[..|s| - k];
    forall i | i < |u|
      ensures !OccursAt(u + (s + []), s, i)
    {
      if OccursAt(u + (s + []), s, i) {
        Repeats(u, s, [], i);
        BeginsAsItEnds(s, k, |u| - i);
      }
    }
  }

  lemma BeginsAsItEnds(s: string, k: nat, d: nat)
    requires 1 <= k < |MARKER| && EndsWithMarkerStart(s, k) && 1 <= d <= |s| - k
    requires forall j :: d <= j < |s| ==> s[j] == s[j - d]
    requires forall j :: |s| - k - d <= j < |s| - k ==> s[j] == s[j - (|s| - k - d)]
    ensures MARKER[..k] <= s
  {
    var u := |s| - k;
    EndChars(s, k);
    if d >= k {
      forall j | 0 <= j < k
        ensures s[j] == MARKER[j]
      {
        assert s[u + j] == s[u + j - d];
        assert s[u - d + j] == s[u - d + j - (u - d)];
      }
    } else {
      MarkerStartsOnce(d);
    }
  }

  lemma MarkerStartsOnce(d: nat)
    requires 1 <= d < |MARKER|
    ensures MARKER[d] != MARKER[0]
  {
  }

  lemma EndChars(s: string, k: nat)
    requires 1 <= k < |MARKER| && EndsWithMarkerStart(s, k)
    ensures forall j :: 0 <= j < k ==> s[|s| - k + j] == MARKER[j]
  {
    forall j | 0 <= j < k
      ensures s[|s| - k + j] == MARKER[j]
    {
      assert s[|s| - k..][j] == MARKER[..k][j];
    }
  }

  /** A secret that holds the marker does not occur early in what stands before its first marker, and itself. */
  lemma FirstMarkerIsClean(s: string, at: nat)
    requires OccursAt(s, MARKER, at) && NoneBefore(at, s, MARKER)
    ensures var a, b := s[..at], s[at + |MARKER|..]; NoneBefore(|a|, a + (s + b), s)
  {
    var a, b := s[..at], s[at + |MARKER|..];
    forall i | i < |a|
      ensures !OccursAt(a + (s + b), s, i)
    {
      if OccursAt(a + (s + b), s, i) {
        Repeats(a, s, b, i);
        OccursChars(s, MARKER, at);
        OccursFromChars(s, MARKER, i);
      }
    }
  }

  lemma {:induction false} FirstOccurrence(text: string, p: string, from: nat) returns (at: nat)
    requires NoneBefore(from, text, p) && !Absent(text, p)
    ensures OccursAt(text, p, at) && NoneBefore(at, text, p)
    decreases |text| - from
  {
    if OccursAt(text, p, from) {
      at := from;
    } else {
      var i :| OccursAt(text, p, i);
      assert i > from;
      at := FirstOccurrence(text, p, from + 1);
    }
  }

  /** A secret that meets the marker survives some stream. */
  lemma MeetingSurvives(s: string) returns (chunk: string)
    requires s != [] && Meets(s)
    ensures !Absent(Stream([s], [], [chunk]), s)
  {
    if !Absent(MARKER, s) {
      chunk := PartOfMarker(s);
    } else if !Absent(s, MARKER) {
      chunk := HoldsMarker(s);
    } else if BeginsInMarker(s) {
      chunk := BeginsSurvives(s);
    } else {
      chunk := EndsSurvives(s);
    }
  }

  lemma PartOfMarker(s: string) returns (chunk: string)
    requires s != [] && !Absent(MARKER, s)
    ensures !Absent(Stream([s], [], [chunk]), s)
  {
    chunk := [] + (s + []);
    MarkerInPlace([], s, []);
    assert [] + (MARKER + []) == MARKER;
  }

  lemma HoldsMarker(s: string) returns (chunk: string)
    requires !Absent(s, MARKER)
    ensures !Absent(Stream([s], [], [chunk]), s)
  {
    hide Stream, NoneBefore;
    var at := FirstOccurrence(s, MARKER, 0);
    var a, b := s[..at], s[at + |MARKER|..];
    chunk := a + (s + b);
    FirstMarkerIsClean(s, at);
    MarkerInPlace(a, s, b);
    AroundMarker(s, at);
  }

  lemma AroundMarker(s: string, at: nat)
    requires OccursAt(s, MARKER, at)
    ensures !Absent(s[..at] + (MARKER + s[at + |MARKER|..]), s)
  {
    var out := s[..at] + (MARKER + s[at + |MARKER|..]);
    assert s == s[..at] + s[at..at + |MARKER|] + s[at + |MARKER|..];
    assert out[0..|s|] == s;
    assert OccursAt(out, s, 0);
  }

  lemma BeginsSurvives(s: string) returns (chunk: string)
    requires BeginsInMarker(s)
    ensures !Absent(Stream([s], [], [chunk]), s)
  {
    hide Stream, Absent;
    var k :| 1 <= k < |MARKER| && k < |s| && s[..k] == MARKER[|MARKER| - k..];
    chunk := [] + (s + s[k..]);
    assert NoneBefore(|""|, chunk, s);
    MarkerInPlace([], s, s[k..]);
    BeginsOccurs(s, k);
  }

  lemma BeginsOccurs(s: string, k: nat)
    requires 1 <= k < |MARKER| && k < |s| && s[..k] == MARKER[|MARKER| - k..]
    ensures !Absent([] + (MARKER + s[k..]), s)
  {
    var out := [] + (MARKER + s[k..]);
    var i := |MARKER| - k;
    forall j | 0 <= j < |s|
      ensures out[i + j] == s[j]
    {
      if j < k {
        assert s[..k][j] == MARKER[i..][j];
      }
    }
    OccursFromChars(out, s, i);
  }

  lemma EndsSurvives(s: string) returns (chunk: string)
    requires EndsInMarker(s, s)
    ensures !Absent(Stream([s], [], [chunk]), s)
  {
    hide Stream, Absent, NoneBefore;
    var k :| 1 <= k < |MARKER| && EndsWithMarkerStart(s, k) && !(MARKER[..k] <= s);
    var u := s[..|s| - k];
    chunk := u + (s + []);
    LeadIsClean(s, k);
    MarkerInPlace(u, s, []);
    EndsOccurs(s, k);
  }

  lemma EndsOccurs(s: string, k: nat)
    requires 1 <= k < |MARKER| && EndsWithMarkerStart(s, k)
    ensures !Absent(s[..|s| - k] + (MARKER + []), s)
  {
    var u := s[..|s| - k];
    var out := u + (MARKER + []);
    forall j | 0 <= j < |s|
      ensures out[0 + j] == s[j]
    {
      if j >= |u| {
        assert s[|s| - k..][j - |u|] == MARKER[..k][j - |u|];
      }
    }
    OccursFromChars(out, s, 0);
  }

  /** One secret is kept out of every stream exactly when it does not meet the marker. */
  lemma OneSecretSurvivesExactlyWhenItMeets(s: string)
    requires s != []
    ensures Usable([s])
    ensures (forall chunks :: Absent(Stream([s], [], chunks), s)) <==> !Meets(s)
  {
    hide Collides, Absent;
    if Meets(s) {
      var chunk := MeetingSurvives(s);
      assert !Absent(Stream([s], [], [chunk]), s);
    } else {
      NothingOut(s);
      forall chunks
        ensures Absent(Stream([s], [], chunks), s)
      {
        StreamKeepsOut([], [], chunks, s, [s]);
        assert [] + Stream([s], [], chunks) == Stream([s], [], chunks);
      }
    }
  }

  /** A secret that begins as the marker ends is put together by its own replacement. */
  lemma MarkerCharactersMatter()
    ensures Meets("]x") && !Absent(Stream(["]x"], [], ["]xx"]), "]x")
  {
    hide Stream, Absent, NoneBefore;
    var s := "]x";
    assert s[..1] == MARKER[|MARKER| - 1..];
    assert BeginsInMarker(s);
    NothingEarlier([] + (s + "x"), s);
    MarkerInPlace([], s, "x");
    assert [] + (s + "x") == "]xx" && s[1..] == "x";
    BeginsOccurs(s, 1);
  }

  lemma NothingEarlier(text: string, s: string)
    ensures NoneBefore(0, text, s)
  {
  }

  /** Sharing characters with the marker is not enough to meet it, nor is ending as it begins. */
  lemma SharingIsNotMeeting()
    ensures !Meets("xE") && !Meets("[[")
  {
    forall s, i | s == "xE" || s == "[["
      ensures !OccursAt(MARKER, s, i) && !OccursAt(s, MARKER, i)
    {
      var first, second := s[0], s[1];
      if OccursAt(MARKER, s, i) {
        OccursChars(MARKER, s, i);
      }
    }
    forall s, k: nat | (s == "xE" || s == "[[") && 1 <= k < |MARKER| && k < |s|
      ensures s[..k] != MARKER[|MARKER| - k..] && (EndsWithMarkerStart(s, k) ==> MARKER[..k] <= s)
    {
      assert k == 1;
      assert s[..1][0] == s[0] && MARKER[|MARKER| - 1..][0] == MARKER[|MARKER| - 1];
      assert s[|s| - 1..][0] == s[1] && MARKER[..1][0] == MARKER[0];
    }
  }
}
