/** The very text of a canonical value: JSON as ECMA-262 writes it, keys in code unit order. */
module CanonicalForm {
  import opened Bytes
  import opened Sorting
  import opened JsonText
  import opened Canonical

  /** ASCII text as code units. */
  function Units(s: string): (r: Text)
    requires forall i :: 0 <= i < |s| ==> s[i] as int < 128
    ensures |r| == |s| && forall i :: 0 <= i < |s| ==> r[i] == s[i] as int
  {
    seq(|s|, i requires 0 <= i < |s| => s[i] as int)
  }

  // ----- strings (QuoteJSONString, section 25.5.2.3 of ECMA-262) -----

  /** A surrogate with its other half beside it. */
  predicate Paired(s: Text, i: nat)
    requires i < |s|
  {
    || (0xd800 <= s[i] <= 0xdbff && i + 1 < |s| && 0xdc00 <= s[i + 1] <= 0xdfff)
    || (0xdc00 <= s[i] <= 0xdfff && i > 0 && 0xd800 <= s[i - 1] <= 0xdbff)
  }

  function HexOf(d: nat): CodeUnit
    requires d < 16
  {
    Units("0123456789abcdef")[d]
  }

  /** What the unit at `i` is written as. */
  function Form(s: Text, i: nat): Text
    requires i < |s|
  {
    var c := s[i];
    if c == 0x08 then Units("\\b")
    else if c == 0x09 then Units("\\t")
    else if c == 0x0a then Units("\\n")
    else if c == 0x0c then Units("\\f")
    else if c == 0x0d then Units("\\r")
    else if c == 0x22 then Units("\\\"")
    else if c == 0x5c then Units("\\\\")
    else if c < 0x20 || (0xd800 <= c <= 0xdfff && !Paired(s, i)) then
      Units("\\u") + [HexOf(c / 4096), HexOf(c / 256 % 16), HexOf(c / 16 % 16), HexOf(c % 16)]
    else [c]
  }

  function Forms(s: Text, from: nat): Text
    requires from <= |s|
    decreases |s| - from
  {
    if from == |s| then [] else Form(s, from) + Forms(s, from + 1)
  }

  function Quoted(s: Text): Text {
    Units("\"") + Forms(s, 0) + Units("\"")
  }

  lemma HexIsHex(d: nat)
    requires d < 16
    ensures HexOf(d) == HexDigit(d)
  {
  }

  /** Not the second half of a pair. */
  predicate StartsAt(s: Text, from: nat) {
    from < |s| && !(0xdc00 <= s[from] <= 0xdfff && from > 0 && 0xd800 <= s[from - 1] <= 0xdbff)
  }

  lemma UnicodeForm(c: CodeUnit)
    ensures Units("\\u") + [HexOf(c / 4096), HexOf(c / 256 % 16), HexOf(c / 16 % 16), HexOf(c % 16)] == UnicodeEscape(c)
  {
    HexIsHex(c / 4096);
    HexIsHex(c / 256 % 16);
    HexIsHex(c / 16 % 16);
    HexIsHex(c % 16);
    hide HexOf, HexDigit;
  }

  lemma ShortForms()
    ensures Units("\\b") == [ESCAPE, 0x62] && Units("\\t") == [ESCAPE, 0x74] && Units("\\n") == [ESCAPE, 0x6e] && Units("\\f") == [ESCAPE, 0x66]
    ensures Units("\\r") == [ESCAPE, 0x72] && Units("\\\"") == [ESCAPE, 0x22] && Units("\\\\") == [ESCAPE, 0x5c]
  {
  }

  lemma SingleForm(s: Text, from: nat)
    requires StartsAt(s, from) && Front(s[from..]) == 1
    ensures Form(s, from) == EscapeFront(s[from..])
  {
    hide Units, UnicodeEscape, HexOf;
    ShortForms();
    UnicodeForm(s[from]);
    assert s[from..][0] == s[from];
    assert from + 1 < |s| ==> s[from..][1] == s[from + 1];
  }

  lemma PairForm(s: Text, from: nat)
    requires StartsAt(s, from) && Front(s[from..]) == 2
    ensures from + 1 < |s| && Form(s, from) == [s[from]] && Form(s, from + 1) == [s[from + 1]] && EscapeFront(s[from..]) == [s[from]] + [s[from + 1]]
  {
    hide Units, UnicodeEscape, HexOf;
    assert s[from..][0] == s[from] && s[from..][1] == s[from + 1];
  }

  lemma FrontForm(s: Text, from: nat)
    requires StartsAt(s, from)
    ensures var n := Front(s[from..]);
            && from + n <= |s| && Forms(s, from) == EscapeFront(s[from..]) + Forms(s, from + n)
            && s[from..][n..] == s[from + n..]
            && (from + n < |s| ==> StartsAt(s, from + n))
  {
    hide Form, EscapeFront;
    var n := Front(s[from..]);
    if n == 2 {
      PairForm(s, from);
      Assoc([s[from]], [s[from + 1]], Forms(s, from + 2));
    } else {
      SingleForm(s, from);
    }
    assert from + 1 < |s| ==> s[from..][1] == s[from + 1];
    assert s[from..][0] == s[from];
  }

  lemma {:induction false} EscapeIsForms(s: Text, from: nat)
    requires from <= |s| && (from < |s| ==> StartsAt(s, from))
    ensures Escape(s[from..]) == Forms(s, from)
    decreases |s| - from
  {
    hide EscapeFront, Forms, Front;
    if from < |s| {
      FrontForm(s, from);
      EscapeIsForms(s, from + Front(s[from..]));
    } else {
      NoForms(s);
    }
  }

  lemma NoForms(s: Text)
    ensures Forms(s, |s|) == [] && Escape(s[|s|..]) == []
  {
  }

  /** A string is written between quotes, unit by unit. */
  lemma QuoteIsQuoted(s: Text)
    ensures Quote(s) == Quoted(s)
  {
    EscapeIsForms(s, 0);
    assert s[0..] == s;
    assert Units("\"") == [0x22];
  }

  // ----- integers -----

  /** The value of decimal digits. */
  function ValueOf(digits: Text): int {
    if digits == [] then 0 else ValueOf(digits[..|digits| - 1]) * 10 + digits[|digits| - 1] - 0x30
  }

  /** Decimal digits without a needless zero in front. */
  predicate Numeral(digits: Text) {
    digits != [] && (forall i :: 0 <= i < |digits| ==> 0x30 <= digits[i] <= 0x39) && (|digits| > 1 ==> digits[0] != 0x30)
  }

  /** `t` is the integer in decimal. */
  predicate InDecimal(n: int, t: Text) {
    if n < 0 then t != [] && t[0] == 0x2d && Numeral(t[1..]) && ValueOf(t[1..]) == -n
    else Numeral(t) && ValueOf(t) == n
  }

  lemma {:induction false} DigitsAreNumeral(n: nat)
    ensures Numeral(Digits(n)) && ValueOf(Digits(n)) == n && (n > 0 ==> Digits(n)[0] != 0x30)
  {
    if n >= 10 {
      DigitsAreNumeral(n / 10);
      assert Digits(n)[..|Digits(n)| - 1] == Digits(n / 10);
    }
  }

  lemma DecimalIsInDecimal(n: int)
    ensures InDecimal(n, Decimal(n))
  {
    DigitsAreNumeral(if n < 0 then -n else n);
    if n < 0 {
      assert Decimal(n)[1..] == Digits(-n);
    }
  }

  // ----- values -----

  /** By code units: a proper prefix, or the smaller unit at the first place they differ. */
  ghost predicate Before(a: Text, b: Text) {
    || (|a| < |b| && a == b[..|a|])
    || exists k: nat :: DiffersAt(a, b, k) && a[k] < b[k]
  }

  predicate DiffersAt(a: Text, b: Text, k: nat) {
    k < |a| && k < |b| && a[..k] == b[..k] && a[k] != b[k]
  }

  function Commas(texts: seq<Text>): Text {
    if texts == [] then []
    else if |texts| == 1 then texts[0]
    else texts[0] + Units(",") + Commas(texts[1..])
  }

  /** The members taken in this order have their keys in code unit order. */
  ghost predicate InKeyOrder(order: seq<nat>, members: seq<Member>) {
    && Rearranges(order, |members|)
    && forall i, j :: 0 <= i < j < |members| ==> Before(members[order[i]].key, members[order[j]].key)
  }

  /** `t` is the canonical text of the value. */
  ghost predicate Written(v: Value, t: Text) {
    match v
    case Null => t == Units("null")
    case Bool(b) => t == if b then Units("true") else Units("false")
    case Number(n) => InDecimal(n, t)
    case String(s) => t == Quoted(s)
    case Array(items) =>
      exists texts: seq<Text> ::
        |texts| == |items| && (forall i :: 0 <= i < |items| ==> Written(items[i], texts[i])) && t == Units("[") + Commas(texts) + Units("]")
    case Object(members) =>
      exists order: seq<nat>, texts: seq<Text> ::
        && InKeyOrder(order, members) && |texts| == |members|
        && (forall i :: 0 <= i < |members| ==> Written(members[order[i]].value, texts[i]))
        && t == Units("{") + Commas(Pairs(order, members, texts)) + Units("}")
  }

  /** Quoted key, colon, text of the value. */
  function Pairs(order: seq<nat>, members: seq<Member>, texts: seq<Text>): seq<Text>
    requires Rearranges(order, |members|) && |texts| == |members|
  {
    seq(|members|, i requires 0 <= i < |members| => Quoted(members[order[i]].key) + Units(":") + texts[i])
  }

  lemma {:induction false} LeqIsBefore(a: Text, b: Text)
    requires TextLeq(a, b) && a != b
    ensures Before(a, b)
    decreases |a|
  {
    if a != [] {
      if a[0] < b[0] {
        assert DiffersAt(a, b, 0);
      } else {
        assert a == [a[0]] + a[1..] && b == [b[0]] + b[1..];
        LeqIsBefore(a[1..], b[1..]);
        if |a[1..]| < |b[1..]| && a[1..] == b[1..][..|a| - 1] {
          assert b[..|a|] == [b[0]] + b[1..][..|a| - 1];
        } else {
          var k: nat :| DiffersAt(a[1..], b[1..], k) && a[1..][k] < b[1..][k];
          assert a[..k + 1] == [a[0]] + a[1..][..k] && b[..k + 1] == [b[0]] + b[1..][..k];
          assert DiffersAt(a, b, k + 1);
        }
      }
    }
  }

  lemma {:induction false} JoinIsCommas(texts: seq<Text>)
    ensures Join(texts, COMMA) == Commas(texts)
  {
    if |texts| > 1 {
      JoinIsCommas(texts[1..]);
      assert Units(",") == [COMMA];
    }
  }

  // ----- the order of the keys -----

  lemma {:induction false} BeforeIsLeq(a: Text, b: Text)
    requires Before(a, b)
    ensures TextLeq(a, b) && a != b
    decreases |a|
  {
    if a != [] {
      if |a| < |b| && a == b[..|a|] {
        assert a[1..] == b[1..][..|a| - 1] && a[0] == b[0];
        BeforeIsLeq(a[1..], b[1..]);
      } else {
        var k: nat :| DiffersAt(a, b, k) && a[k] < b[k];
        if k > 0 {
          assert a[0] == a[..k][0] && b[0] == b[..k][0];
          assert a[1..][..k - 1] == a[..k][1..] && b[1..][..k - 1] == b[..k][1..];
          assert DiffersAt(a[1..], b[1..], k - 1);
          BeforeIsLeq(a[1..], b[1..]);
        }
      }
    }
  }

  function KeysIn(order: seq<nat>, members: seq<Member>): seq<Text>
    requires Rearranges(order, |members|)
  {
    seq(|members|, i requires 0 <= i < |members| => members[order[i]].key)
  }

  function ByUnits(): (Text, Text) -> bool {
    (a: Text, b: Text) => TextLeq(a, b)
  }

  lemma ByUnitsIsTotal(s: seq<Text>)
    ensures TotalPreorder(ByUnits()) && NoTies(ByUnits(), s)
  {
    hide TextLeq;
    forall a: Text, b: Text, c: Text
      ensures (ByUnits()(a, b) || ByUnits()(b, a)) && (ByUnits()(a, b) && ByUnits()(b, a) ==> a == b)
      ensures ByUnits()(a, b) && ByUnits()(b, c) ==> ByUnits()(a, c)
    {
      TextLeqIsTotal(a, b, c);
    }
  }

  lemma KeysInOrder(order: seq<nat>, members: seq<Member>)
    requires DistinctKeys(members) && InKeyOrder(order, members)
    ensures Sorted(ByUnits(), KeysIn(order, members)) && Distinct(KeysIn(order, members))
  {
    hide TextLeq, Before;
    var keys := KeysIn(order, members);
    forall i, j | 0 <= i < j < |keys|
      ensures ByUnits()(keys[i], keys[j]) && keys[i] != keys[j]
    {
      BeforeIsLeq(keys[i], keys[j]);
    }
  }

  /** There is only one rearrangement with the keys in order. */
  lemma OrderIsUnique(a: seq<nat>, b: seq<nat>, members: seq<Member>)
    requires DistinctKeys(members) && InKeyOrder(a, members) && InKeyOrder(b, members)
    ensures a == b
  {
    hide TextLeq, Before;
    var x, y := KeysIn(a, members), KeysIn(b, members);
    KeysInOrder(a, members);
    KeysInOrder(b, members);
    ByUnitsIsTotal(x);
    SameKeys(a, b, members);
    SameMultiset(x, y);
    SortedIsUnique(ByUnits(), x, y);
    forall i | 0 <= i < |members|
      ensures a[i] == b[i]
    {
      assert x[i] == y[i];
    }
  }

  lemma SameKeys(a: seq<nat>, b: seq<nat>, members: seq<Member>)
    requires Rearranges(a, |members|) && Rearranges(b, |members|)
    ensures forall key :: key in KeysIn(a, members) <==> key in KeysIn(b, members)
  {
    KeysAreAll(a, members);
    KeysAreAll(b, members);
  }

  lemma KeysAreAll(order: seq<nat>, members: seq<Member>)
    requires Rearranges(order, |members|)
    ensures forall key :: key in KeysIn(order, members) <==> exists k :: 0 <= k < |members| && members[k].key == key
  {
    var keys := KeysIn(order, members);
    forall k: nat | k < |members|
      ensures members[k].key in keys
    {
      assert k in order;
      var i :| 0 <= i < |order| && order[i] == k;
      assert keys[i] == members[k].key;
    }
  }

  // ----- what is written -----

  /** Sorting the properties puts the members in key order. */
  lemma KeyOrder(members: seq<Member>) returns (order: seq<nat>)
    requires DistinctKeys(members)
    ensures InKeyOrder(order, members) && Picks(Sort(ByKey(), Properties(members)), Properties(members), order)
  {
    hide TextLeq, Before, StableStringify, Sort, ByKey;
    var ps := Properties(members);
    ByKeyIsTotal();
    order := SortOrder(ByKey(), ps);
    forall i, j | 0 <= i < j < |members|
      ensures Before(members[order[i]].key, members[order[j]].key)
    {
      ByKeyIsLeq(ps[order[i]], ps[order[j]]);
      assert order[i] != order[j];
      LeqIsBefore(members[order[i]].key, members[order[j]].key);
    }
  }

  lemma ByKeyIsLeq(p: Property, q: Property)
    ensures ByKey()(p, q) <==> TextLeq(p.key, q.key)
  {
  }

  /** The serialization of a well-formed value is its canonical text. */
  lemma {:induction false} StringifyIsWritten(v: Value)
    requires WellFormed(v)
    ensures Written(v, StableStringify(v))
  {
    match v
    case Null => assert Units("null") == NULL_TEXT;
    case Bool(_) => assert Units("true") == TRUE_TEXT && Units("false") == FALSE_TEXT;
    case Number(n) => DecimalIsInDecimal(n);
    case String(s) => QuoteIsQuoted(s);
    case Array(items) =>
      var texts := ItemTexts(items);
      forall i | 0 <= i < |items|
        ensures Written(items[i], texts[i])
      {
        StringifyIsWritten(items[i]);
      }
      ArrayText(items);
      JoinIsCommas(texts);
      assert Units("[") == [OPEN_BRACKET] && Units("]") == [CLOSE_BRACKET];
    case Object(members) =>
      var order := KeyOrder(members);
      var texts := seq(|members|, i requires 0 <= i < |members| => StableStringify(members[order[i]].value));
      forall i | 0 <= i < |members|
        ensures Written(members[order[i]].value, texts[i])
      {
        StringifyIsWritten(members[order[i]].value);
      }
      ObjectText(members);
      PairsAreProperties(order, members, texts);
      JoinIsCommas(Pairs(order, members, texts));
      assert Units("{") == [OPEN_BRACE] && Units("}") == [CLOSE_BRACE];
  }

  lemma PairsAreProperties(order: seq<nat>, members: seq<Member>, texts: seq<Text>)
    requires Rearranges(order, |members|) && |texts| == |members|
    requires forall i :: 0 <= i < |members| ==> texts[i] == StableStringify(members[order[i]].value)
    requires Picks(Sort(ByKey(), Properties(members)), Properties(members), order)
    ensures PropertyTexts(Sort(ByKey(), Properties(members))) == Pairs(order, members, texts)
  {
    hide StableStringify, Sort, Quote, Quoted;
    assert Units(":") == [COLON];
    forall i | 0 <= i < |members|
      ensures PropertyTexts(Sort(ByKey(), Properties(members)))[i] == Pairs(order, members, texts)[i]
    {
      QuoteIsQuoted(members[order[i]].key);
    }
  }

  /** What is hashed: the canonical text, and each file hash on a line of its own. */
  lemma HashInputIsLines(body: Value, hashes: seq<Text>)
    ensures HashInput(body, hashes) == StableStringify(body) + Units("\n") + Feeds(hashes)
  {
    FeedsAreJoined(hashes);
    assert Units("\n") == [LINE_FEED];
  }

  function Feeds(hashes: seq<Text>): Text {
    if hashes == [] then []
    else if |hashes| == 1 then hashes[0]
    else hashes[0] + Units("\n") + Feeds(hashes[1..])
  }

  lemma {:induction false} FeedsAreJoined(hashes: seq<Text>)
    ensures Join(hashes, LINE_FEED) == Feeds(hashes)
  {
    if |hashes| > 1 {
      FeedsAreJoined(hashes[1..]);
      assert Units("\n") == [LINE_FEED];
    }
  }
}
