/** Replacing secrets in a stream whose chunks may cut a secret in two. */
module Redactor {
  import opened Bytes
  import Sorting

  const MARKER := "[REDACTED]"

  // ----- the string library calls the redactor makes -----

  /** `text.includes(secret)`. */
  predicate Includes(text: string, secret: string) {
    secret <= text || (text != [] && Includes(text[1..], secret))
  }

  /** `text.split(secret)`, with `piece` the part of the current piece already read. */
  function Split(text: string, secret: string, piece: string): seq<string>
    requires secret != []
    decreases |text|
  {
    if text == [] then [piece]
    else if secret <= text then [piece] + Split(text[|secret|..], secret, [])
    else Split(text[1..], secret, piece + [text[0]])
  }

  /** `parts.join(glue)`. */
  function Join(parts: seq<string>, glue: string): string {
    if parts == [] then []
    else if |parts| == 1 then parts[0]
    else parts[0] + glue + Join(parts[1..], glue)
  }

  // ----- the redactor -----

  function ReplaceOne(text: string, secret: string): string
    requires secret != []
  {
    if Includes(text, secret) then Join(Split(text, secret, []), MARKER) else text
  }

  predicate Usable(secrets: seq<string>) {
    forall i :: 0 <= i < |secrets| ==> secrets[i] != []
  }

  /** One pass over a text: the secrets in turn, each over the result of the one before. */
  function Scrub(text: string, secrets: seq<string>): string
    requires Usable(secrets)
    decreases |secrets|
  {
    if secrets == [] then text else Scrub(ReplaceOne(text, secrets[0]), secrets[1..])
  }

  function NonEmpty(secrets: seq<string>): (r: seq<string>)
    ensures forall s :: s in r <==> s in secrets && s != []
  {
    if secrets == [] then []
    else (if secrets[0] != [] then [secrets[0]] else []) + NonEmpty(secrets[1..])
  }

  function LongerFirst(): (string, string) -> bool {
    (a: string, b: string) => |a| >= |b|
  }

  function Prepare(secrets: seq<string>): seq<string> {
    Sorting.Sort(LongerFirst(), NonEmpty(secrets))
  }

  function MaxLength(secrets: seq<string>): (m: nat)
    ensures forall s :: s in secrets ==> |s| <= m
  {
    if secrets == [] then 0
    else var m := MaxLength(secrets[1..]); if |secrets[0]| > m then |secrets[0]| else m
  }

  /** How much of a redacted text is held back: a secret cut by the chunk end may start there. */
  function KeepLength(secrets: seq<string>, redacted: string): (k: nat)
    ensures k <= |redacted|
  {
    var m := MaxLength(secrets);
    if m <= 1 then 0 else if m - 1 < |redacted| then m - 1 else |redacted|
  }

  datatype Step = Step(output: string, tail: string)

  /** One `redact` call on tail buffer `tail`. */
  function RedactStep(secrets: seq<string>, tail: string, chunk: string): Step
    requires Usable(secrets)
  {
    if secrets == [] then Step(chunk, tail)
    else
      var redacted := Scrub(tail + chunk, secrets);
      var cut := |redacted| - KeepLength(secrets, redacted);
      Step(redacted[..cut], redacted[cut..])
  }

  /** The whole output of a stream: every `redact` result in turn, then `flush`. */
  function Stream(secrets: seq<string>, tail: string, chunks: seq<string>): string
    requires Usable(secrets)
    decreases |chunks|
  {
    if chunks == [] then Scrub(tail, secrets)
    else
      var step := RedactStep(secrets, tail, chunks[0]);
      step.output + Stream(secrets, step.tail, chunks[1..])
  }

  class StreamRedactor {
    var secrets: seq<string>
    var tailBuffer: string
    var maxSecretLength: nat

    ghost predicate Valid()
      reads this
    {
      Usable(secrets) && maxSecretLength == MaxLength(secrets)
    }

    constructor (secrets: seq<string>)
      ensures Valid() && this.secrets == Prepare(secrets) && tailBuffer == []
    {
      PrepareKeepsSecrets(secrets);
      this.secrets := Prepare(secrets);
      tailBuffer := [];
      maxSecretLength := MaxLength(Prepare(secrets));
    }

    method Redact(chunk: string) returns (output: string)
      requires Valid()
      modifies this`tailBuffer
      ensures Valid()
      ensures Step(output, tailBuffer) == RedactStep(secrets, old(tailBuffer), chunk)
    {
      if |secrets| == 0 {
        return chunk;
      }
      var combined := tailBuffer + chunk;
      var redacted := combined;
      for i := 0 to |secrets|
        invariant Scrub(combined, secrets) == Scrub(redacted, secrets[i..])
      {
        if Includes(redacted, secrets[i]) {
          redacted := Join(Split(redacted, secrets[i], []), MARKER);
        }
      }
      if maxSecretLength <= 1 {
        tailBuffer := [];
        return redacted;
      }
      var keepLength := if maxSecretLength - 1 < |redacted| then maxSecretLength - 1 else |redacted|;
      var outputLength := |redacted| - keepLength;
      tailBuffer := redacted[outputLength..];
      return redacted[..outputLength];
    }

    method Flush() returns (output: string)
      requires Valid()
      modifies this`tailBuffer
      ensures Valid() && tailBuffer == []
      ensures output == Scrub(old(tailBuffer), secrets)
    {
      if |secrets| == 0 || |tailBuffer| == 0 {
        ScrubEmpty(secrets);
        output := tailBuffer;
        tailBuffer := [];
        return;
      }
      var redacted := tailBuffer;
      for i := 0 to |secrets|
        invariant Scrub(tailBuffer, secrets) == Scrub(redacted, secrets[i..])
      {
        if Includes(redacted, secrets[i]) {
          redacted := Join(Split(redacted, secrets[i], []), MARKER);
        }
      }
      tailBuffer := [];
      return redacted;
    }
  }

  lemma ScrubEmpty(secrets: seq<string>)
    requires Usable(secrets)
    ensures Scrub([], secrets) == []
  {
  }

  /** Filtering and sorting neither lose nor invent a secret. */
  lemma PrepareKeepsSecrets(secrets: seq<string>)
    ensures Usable(Prepare(secrets))
    ensures forall s :: s in Prepare(secrets) <==> s in secrets && s != []
    ensures Sorting.Sorted(LongerFirst(), Prepare(secrets))
  {
    Sorting.SortMembers(LongerFirst(), NonEmpty(secrets));
    assert forall i :: 0 <= i < |Prepare(secrets)| ==> Prepare(secrets)[i] in Prepare(secrets);
    Sorting.SortSorts(LongerFirst(), NonEmpty(secrets));
  }

  // ----- what redaction means -----

  /** The reference: scan left to right, replacing each occurrence met, resuming after it. */
  function ReplaceAll(text: string, secret: string): string
    requires secret != []
    decreases |text|
  {
    if text == [] then []
    else if secret <= text then MARKER + ReplaceAll(text[|secret|..], secret)
    else [text[0]] + ReplaceAll(text[1..], secret)
  }

  ghost predicate OccursAt(text: string, s: string, i: int) {
    0 <= i && i + |s| <= |text| && text[i..i + |s|] == s
  }

  ghost predicate Absent(text: string, s: string) {
    forall i :: !OccursAt(text, s, i)
  }

  lemma {:induction false} IncludesIsOccurrence(text: string, s: string)
    requires s != []
    ensures Includes(text, s) <==> !Absent(text, s)
  {
    if s <= text {
      assert OccursAt(text, s, 0);
    } else if text != [] {
      IncludesIsOccurrence(text[1..], s);
      AbsentUncons(text, s);
    }
  }

  /** Occurrences past the first character are those of the rest. */
  lemma AbsentUncons(text: string, s: string)
    requires text != [] && s != []
    ensures Absent(text, s) <==> !(s <= text) && Absent(text[1..], s)
  {
    forall i
      ensures OccursAt(text[1..], s, i) <==> i >= 0 && OccursAt(text, s, i + 1)
    {
      if 0 <= i && i + 1 + |s| <= |text| {
        assert text[1..][i..i + |s|] == text[i + 1..i + 1 + |s|];
      }
    }
    assert s <= text <==> OccursAt(text, s, 0);
    if Absent(text[1..], s) && !(s <= text) {
      forall i
        ensures !OccursAt(text, s, i)
      {
        if i > 0 {
          assert OccursAt(text[1..], s, i - 1) <==> OccursAt(text, s, i - 1 + 1);
        }
      }
    }
  }

  lemma JoinCons(piece: string, rest: seq<string>, glue: string)
    requires rest != []
    ensures Join([piece] + rest, glue) == piece + glue + Join(rest, glue)
  {
    assert ([piece] + rest)[1..] == rest;
  }

  lemma {:induction false} SplitJoinReplaces(text: string, secret: string, piece: string)
    requires secret != []
    ensures Split(text, secret, piece) != []
    ensures Join(Split(text, secret, piece), MARKER) == piece + ReplaceAll(text, secret)
    decreases |text|
  {
    if text == [] {
    } else if secret <= text {
      var rest := text[|secret|..];
      SplitJoinReplaces(rest, secret, []);
      JoinCons(piece, Split(rest, secret, []), MARKER);
      Assoc(piece, MARKER, ReplaceAll(rest, secret));
      assert [] + ReplaceAll(rest, secret) == ReplaceAll(rest, secret);
    } else {
      SplitJoinReplaces(text[1..], secret, piece + [text[0]]);
      Assoc(piece, [text[0]], ReplaceAll(text[1..], secret));
    }
  }

  /** `if (text.includes(s)) text = text.split(s).join(marker)` is replacement of every occurrence. */
  lemma ReplaceOneReplacesAll(text: string, secret: string)
    requires secret != []
    ensures ReplaceOne(text, secret) == ReplaceAll(text, secret)
  {
    if Includes(text, secret) {
      SplitJoinReplaces(text, secret, []);
    } else {
      IncludesIsOccurrence(text, secret);
      ReplaceAbsent(text, secret);
    }
  }

  lemma {:induction false} ReplaceAbsent(text: string, secret: string)
    requires secret != [] && Absent(text, secret)
    ensures ReplaceAll(text, secret) == text
  {
    if text != [] {
      AbsentUncons(text, secret);
      ReplaceAbsent(text[1..], secret);
    }
  }
}
