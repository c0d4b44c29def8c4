/**
 * The assumptions made about the text of index lines can be met: there is a one-line text for records
 * that has all of them, so theorems about indexes speak of something.
 */
module IndexText {
  import opened Bytes
  import opened ChunkIndex
  import TarHeader

  const OPEN: byte := 1
  const CLOSE: byte := 2
  const GAP: byte := 3
  const SIGN: byte := 4

  function Number(n: int): seq<byte> {
    if n < 0 then [SIGN] + TarHeader.Octal(-n) else TarHeader.Octal(n)
  }

  function Body(e: Entry): seq<byte> {
    Number(e.sequence) + ([GAP] + (Number(e.byteOffset) + ([GAP] + (Number(e.byteLength) + (if e.stream == Stdout then [GAP] else [SIGN])))))
  }

  function Print(e: Entry): seq<byte> {
    [OPEN] + Body(e) + [CLOSE]
  }

  ghost function Pick(line: seq<byte>): Option<Entry> {
    if exists e :: Print(e) == line then
      var e :| Print(e) == line;
      Some(e)
    else None
  }

  ghost function SequenceOf(line: seq<byte>): Option<int> {
    if Pick(line).Some? then Some(Pick(line).value.sequence) else None
  }

  predicate Inner(b: byte) {
    b == GAP || b == SIGN || TarHeader.IsOctal(b)
  }

  lemma NumberIsInner(n: int)
    ensures forall i :: 0 <= i < |Number(n)| ==> Inner(Number(n)[i])
  {
  }

  lemma BodyIsInner(e: Entry)
    ensures forall i :: 0 <= i < |Body(e)| ==> Inner(Body(e)[i])
  {
    hide Number, Inner;
    NumberIsInner(e.sequence);
    NumberIsInner(e.byteOffset);
    NumberIsInner(e.byteLength);
    assert Inner(GAP) && Inner(SIGN) by {
      MarksAreInner();
    }
  }

  lemma MarksAreInner()
    ensures Inner(GAP) && Inner(SIGN) && !Inner(OPEN) && !Inner(CLOSE) && !Inner(NEWLINE)
  {
  }

  lemma DigitsAgree(a: nat, b: nat, r: seq<byte>, t: seq<byte>)
    requires r != [] && t != [] && !TarHeader.IsOctal(r[0]) && !TarHeader.IsOctal(t[0])
    requires TarHeader.Octal(a) + r == TarHeader.Octal(b) + t
    ensures a == b && r == t
  {
    var x, y := TarHeader.Octal(a), TarHeader.Octal(b);
    TarHeader.RunStops(x, r);
    TarHeader.RunStops(y, t);
    TarHeader.OctalValue(a);
    TarHeader.OctalValue(b);
    assert (x + r)[|x|..] == r && (y + t)[|y|..] == t;
  }

  lemma NumbersAgree(a: int, b: int, r: seq<byte>, t: seq<byte>)
    requires r != [] && t != [] && !TarHeader.IsOctal(r[0]) && !TarHeader.IsOctal(t[0])
    requires Number(a) + r == Number(b) + t
    ensures a == b && r == t
  {
    hide TarHeader.Octal;
    var x, y := TarHeader.Octal(if a < 0 then -a else a), TarHeader.Octal(if b < 0 then -b else b);
    assert (Number(a) + r)[0] == (Number(b) + t)[0];
    assert TarHeader.IsOctal(x[0]) && TarHeader.IsOctal(y[0]);
    if a < 0 {
      Assoc([SIGN], x, r);
      Assoc([SIGN], y, t);
      ConsTail(SIGN, x + r);
      ConsTail(SIGN, y + t);
    }
    DigitsAgree(if a < 0 then -a else a, if b < 0 then -b else b, r, t);
  }

  lemma PrintIsInjective(e: Entry, f: Entry)
    requires Print(e) == Print(f)
    ensures e == f
  {
    hide Number, Body;
    assert Body(e) == Print(e)[1..|Print(e)| - 1] && Body(f) == Print(f)[1..|Print(f)| - 1];
    BodyIsInjective(e, f);
  }

  function Behind(n: int, rest: seq<byte>): seq<byte> {
    [GAP] + (Number(n) + rest)
  }

  lemma BodyIsInjective(e: Entry, f: Entry)
    requires Body(e) == Body(f)
    ensures e == f
  {
    hide Number;
    var re: seq<byte>, rf: seq<byte> := (if e.stream == Stdout then [GAP] else [SIGN]), (if f.stream == Stdout then [GAP] else [SIGN]);
    NumbersAgree(e.sequence, f.sequence, Behind(e.byteOffset, Behind(e.byteLength, re)), Behind(f.byteOffset, Behind(f.byteLength, rf)));
    ConsTail(GAP, Number(e.byteOffset) + Behind(e.byteLength, re));
    ConsTail(GAP, Number(f.byteOffset) + Behind(f.byteLength, rf));
    NumbersAgree(e.byteOffset, f.byteOffset, Behind(e.byteLength, re), Behind(f.byteLength, rf));
    ConsTail(GAP, Number(e.byteLength) + re);
    ConsTail(GAP, Number(f.byteLength) + rf);
    NumbersAgree(e.byteLength, f.byteLength, re, rf);
  }

  /** Part of a printed record is not a printed record: the marks at its ends occur nowhere inside. */
  lemma PartIsNothing(e: Entry, i: nat, j: nat)
    requires i <= j <= |Print(e)| && j - i < |Print(e)|
    ensures SequenceOf(Print(e)[i..j]) == None
  {
    hide Body, Inner;
    var part := Print(e)[i..j];
    MarksAreInner();
    BodyIsInner(e);
    if part != [] {
      assert i > 0 ==> part[0] == if i - 1 < |Body(e)| then Body(e)[i - 1] else CLOSE;
      assert i == 0 ==> part[|part| - 1] == if j > 1 then Body(e)[j - 2] else OPEN;
    }
    assert part == [] || part[0] != OPEN || part[|part| - 1] != CLOSE;
    forall f
      ensures Print(f) != part
    {
      EndsOfPrint(f);
    }
  }

  lemma EndsOfPrint(f: Entry)
    ensures Print(f) != [] && Print(f)[0] == OPEN && Print(f)[|Print(f)| - 1] == CLOSE
  {
  }

  lemma PowersOfEight()
    ensures TarHeader.Pow8(18) > MAX_SAFE_INTEGER
  {
    assert TarHeader.Pow8(2) == 64;
    assert TarHeader.Pow8(4) == 4096;
    assert TarHeader.Pow8(6) == 262144;
    assert TarHeader.Pow8(8) == 16777216;
    assert TarHeader.Pow8(10) == 1073741824;
    assert TarHeader.Pow8(12) == 68719476736;
    assert TarHeader.Pow8(14) == 4398046511104;
    assert TarHeader.Pow8(16) == 281474976710656;
  }

  lemma NumberIsShort(n: int)
    requires SafeInteger(n)
    ensures |Number(n)| <= 19
  {
    hide TarHeader.Pow8, TarHeader.Octal;
    PowersOfEight();
    TarHeader.OctalValue(if n < 0 then -n else n);
    assert |TarHeader.Octal(if n < 0 then -n else n)| <= 18;
  }

  lemma PrintIsShort(e: Entry)
    requires SafeInteger(e.sequence) && SafeInteger(e.byteOffset) && SafeInteger(e.byteLength)
    ensures |Print(e)| < PROBE_BYTES
  {
    hide Number;
    NumberIsShort(e.sequence);
    NumberIsShort(e.byteOffset);
    NumberIsShort(e.byteLength);
  }

  /** What is assumed of the text of index lines is consistent: some text has it all. */
  lemma FaithfulTextExists(checkpointText: Checkpoint -> seq<byte>, checkpointOf: seq<byte> -> Option<Checkpoint>)
    ensures exists json :: Faithful(json) && json.printCheckpoint == checkpointText && json.checkpoint == checkpointOf
  {
    hide Print, SequenceOf, Pick;
    var json := Json(e => Print(e), line => Pick(line), line => SequenceOf(line), checkpointText, checkpointOf);
    forall e
      ensures json.printEntry(e) != [] && NEWLINE !in json.printEntry(e)
      ensures json.entry(json.printEntry(e)) == Some(e) && json.sequenceOf(json.printEntry(e)) == Some(e.sequence)
    {
      PrintsALine(e);
      ReadsBack(e);
    }
    forall e, i, j | 0 <= i <= j <= |json.printEntry(e)| && j - i < |json.printEntry(e)|
      ensures json.sequenceOf(json.printEntry(e)[i..j]) == None
    {
      PartIsNothing(e, i, j);
    }
    forall e: Entry | SafeInteger(e.sequence) && SafeInteger(e.byteOffset) && SafeInteger(e.byteLength)
      ensures |json.printEntry(e)| < PROBE_BYTES
    {
      PrintIsShort(e);
    }
    NothingIsNothing();
    assert Faithful(json);
  }

  lemma PrintsALine(e: Entry)
    ensures Print(e) != [] && NEWLINE !in Print(e)
  {
    hide Body, Inner;
    MarksAreInner();
    BodyIsInner(e);
  }

  lemma ReadsBack(e: Entry)
    ensures Pick(Print(e)) == Some(e) && SequenceOf(Print(e)) == Some(e.sequence)
  {
    hide Print;
    var f := Pick(Print(e)).value;
    PrintIsInjective(e, f);
  }

  lemma NothingIsNothing()
    ensures SequenceOf([]) == None
  {
  }
}
