/** What a redacted stream reads as: the given text with the marker written for each secret in it. */
module RedactorText {
  import opened Bytes
  import opened Redactor
  import opened RedactorLaws
  import opened RedactorBatch
  import Sorting

  /** Some text, and the secret right behind it. */
  datatype Piece = Piece(plain: string, secret: string)

  function Given(ps: seq<Piece>, rest: string): string {
    if ps == [] then rest else ps[0].plain + (ps[0].secret + Given(ps[1..], rest))
  }

  function Shown(ps: seq<Piece>, rest: string): string {
    if ps == [] then rest else ps[0].plain + ("[REDACTED]" + Shown(ps[1..], rest))
  }

  predicate StartsAt(text: string, s: string, i: int) {
    0 <= i && i + |s| <= |text| && forall j :: 0 <= j < |s| ==> text[i + j] == s[j]
  }

  /** No secret starts among the first `n` characters. */
  ghost predicate NoneAmong(text: string, secrets: seq<string>, n: int) {
    forall s, i :: s in secrets && 0 <= i < n ==> !StartsAt(text, s, i)
  }

  /** The pieces are met from left to right: no secret starts before the one taken, and none is left at the end. */
  ghost predicate LeftToRight(ps: seq<Piece>, rest: string, secrets: seq<string>) {
    if ps == [] then NoneAmong(rest, secrets, |rest|)
    else
      && ps[0].secret in secrets && NoneAmong(Given(ps, rest), secrets, |ps[0].plain|)
      && LeftToRight(ps[1..], rest, secrets)
  }

  /** The pieces with one more character of plain text in front. */
  function Before(c: char, ps: seq<Piece>): (r: seq<Piece>)
    requires ps != []
    ensures |r| == |ps| && r[0] == Piece([c] + ps[0].plain, ps[0].secret) && r[1..] == ps[1..]
  {
    [Piece([c] + ps[0].plain, ps[0].secret)] + ps[1..]
  }

  lemma StartsHere(text: string, s: string)
    requires StartsAt(text, s, 0)
    ensures s <= text
  {
  }

  lemma StartsLater(text: string, s: string, i: int)
    requires text != [] && i > 0 && StartsAt(text, s, i)
    ensures StartsAt(text[1..], s, i - 1)
  {
    forall j | 0 <= j < |s|
      ensures text[1..][i - 1 + j] == s[j]
    {
      assert text[i + j] == s[j];
    }
  }

  lemma NoneAtFront(text: string, secrets: seq<string>, n: int)
    requires text != [] && NoneAmong(text[1..], secrets, n) && forall s :: s in secrets ==> !(s <= text)
    ensures NoneAmong(text, secrets, n + 1)
  {
    hide StartsAt;
    forall s, i | s in secrets && 0 <= i < n + 1
      ensures !StartsAt(text, s, i)
    {
      if StartsAt(text, s, i) {
        if i == 0 {
          StartsHere(text, s);
        } else {
          StartsLater(text, s, i);
        }
      }
    }
  }

  lemma OneMoreChar(text: string, ps: seq<Piece>, rest: string, secrets: seq<string>)
    requires text != [] && ps != [] && text[1..] == Given(ps, rest) && LeftToRight(ps, rest, secrets)
    requires forall s :: s in secrets ==> !(s <= text)
    ensures var r := Before(text[0], ps);
            text == Given(r, rest) && Shown(r, rest) == [text[0]] + Shown(ps, rest) && LeftToRight(r, rest, secrets)
  {
    hide NoneAmong;
    var r := Before(text[0], ps);
    var tail := ps[0].secret + Given(ps[1..], rest);
    Assoc([text[0]], ps[0].plain, tail);
    Assoc([text[0]], ps[0].plain, "[REDACTED]" + Shown(ps[1..], rest));
    assert text == [text[0]] + text[1..];
    NoneAtFront(text, secrets, |ps[0].plain|);
  }

  /** One scan over a text writes the marker for each secret, from left to right, and changes nothing else. */
  lemma {:induction false} ScanMarks(text: string, secrets: seq<string>) returns (ps: seq<Piece>, rest: string)
    requires Usable(secrets)
    ensures text == Given(ps, rest) && ReplaceAny(text, secrets) == Shown(ps, rest) && LeftToRight(ps, rest, secrets)
    decreases |text|
  {
    hide NoneAmong;
    ps, rest := [], text;
    if text == [] {
      NoneInNothing(secrets);
    } else if FirstMatch(text, secrets).Some? {
      var q := FirstMatch(text, secrets).value;
      ps, rest := ScanMarks(text[|q|..], secrets);
      ps := [Piece([], q)] + ps;
      NoneAmongNone(Given(ps, rest), secrets);
      assert text == [] + (q + text[|q|..]);
    } else {
      ps, rest := ScanMarks(text[1..], secrets);
      if ps == [] {
        NoneAtFront(text, secrets, |rest|);
        rest := [text[0]] + rest;
        assert text == rest;
      } else {
        OneMoreChar(text, ps, rest, secrets);
        ps := Before(text[0], ps);
      }
    }
  }

  lemma NoneInNothing(secrets: seq<string>)
    ensures NoneAmong([], secrets, 0)
  {
  }

  lemma NoneAmongNone(text: string, secrets: seq<string>)
    ensures NoneAmong(text, secrets, 0)
  {
  }

  /** However a text is cut into chunks, a stream of secrets that are apart shows it with the marker for each secret. */
  lemma StreamMarks(secrets: seq<string>, chunks: seq<string>) returns (ps: seq<Piece>, rest: string)
    requires Apart(secrets)
    ensures Usable(secrets)
    ensures Flatten(chunks) == Given(ps, rest) && LeftToRight(ps, rest, secrets)
    ensures Stream(secrets, [], chunks) == Shown(ps, rest)
  {
    StreamingEqualsBatch(secrets, chunks);
    ScrubScans(Flatten(chunks), secrets);
    ps, rest := ScanMarks(Flatten(chunks), secrets);
  }

  lemma {:induction false} OneSecretScans(text: string, s: string)
    requires s != []
    ensures ReplaceAny(text, [s]) == ReplaceAll(text, s)
    decreases |text|
  {
    if text != [] {
      assert FirstMatch(text, [s]) == if s <= text then Some(s) else None;
      OneSecretScans(if s <= text then text[|s|..] else text[1..], s);
    }
  }

  /** One secret, whatever it is, in a text given as one chunk. */
  lemma ChunkMarks(s: string, text: string) returns (ps: seq<Piece>, rest: string)
    requires s != []
    ensures Usable([s])
    ensures text == Given(ps, rest) && LeftToRight(ps, rest, [s]) && Stream([s], [], [text]) == Shown(ps, rest)
  {
    OneChunk(s, text);
    OneSecretScans(text, s);
    ps, rest := ScanMarks(text, [s]);
  }

  // ----- the order of the secrets -----

  lemma {:induction false} NonEmptyCounts(secrets: seq<string>, s: string)
    ensures multiset(NonEmpty(secrets))[s] == if s == [] then 0 else multiset(secrets)[s]
  {
    if secrets != [] {
      NonEmptyCounts(secrets[1..], s);
      assert secrets == [secrets[0]] + secrets[1..];
    }
  }

  /** The secrets a redactor goes by are the non-empty ones, each as often as given, the longest first. */
  lemma LongestFirst(secrets: seq<string>)
    ensures forall i, j :: 0 <= i < j < |Prepare(secrets)| ==> |Prepare(secrets)[i]| >= |Prepare(secrets)[j]|
    ensures forall s :: multiset(Prepare(secrets))[s] == if s == [] then 0 else multiset(secrets)[s]
  {
    Sorting.SortSorts(LongerFirst(), NonEmpty(secrets));
    Sorting.SortPermutes(LongerFirst(), NonEmpty(secrets));
    forall s
      ensures multiset(Prepare(secrets))[s] == if s == [] then 0 else multiset(secrets)[s]
    {
      NonEmptyCounts(secrets, s);
    }
  }
}
