/** Stable serialization: one text for every ordering of the keys, and different texts for different values. */
module Canonical {
  import opened Bytes
  import opened Sorting
  import opened JsonText


  type SafeInteger = x: int | -0x1F_FFFF_FFFF_FFFF <= x <= 0x1F_FFFF_FFFF_FFFF

  datatype Member = Member(key: Text, value: Value)

  datatype Value =
    | Null
    | Bool(b: bool)
    | Number(n: SafeInteger)
    | String(s: Text)
    | Array(items: seq<Value>)
    | Object(members: seq<Member>)

  const COMMA: CodeUnit := 0x2c
  const COLON: CodeUnit := 0x3a
  const OPEN_BRACKET: CodeUnit := 0x5b
  const CLOSE_BRACKET: CodeUnit := 0x5d
  const OPEN_BRACE: CodeUnit := 0x7b
  const CLOSE_BRACE: CodeUnit := 0x7d
  const NULL_TEXT: Text := [0x6e, 0x75, 0x6c, 0x6c]
  const TRUE_TEXT: Text := [0x74, 0x72, 0x75, 0x65]
  const FALSE_TEXT: Text := [0x66, 0x61, 0x6c, 0x73, 0x65]

  /** Array.join. */
  function Join(parts: seq<Text>, separator: CodeUnit): Text {
    if parts == [] then []
    else if |parts| == 1 then parts[0]
    else parts[0] + [separator] + Join(parts[1..], separator)
  }

  /** Comparison by UTF-16 code units, as the default sort compares strings. */
  predicate TextLeq(a: Text, b: Text) {
    a == [] || (b != [] && (a[0] < b[0] || (a[0] == b[0] && TextLeq(a[1..], b[1..]))))
  }

  /** A member with its value already serialized. */
  datatype Property = Property(key: Text, text: Text)

  function ByKey(): (Property, Property) -> bool {
    (a: Property, b: Property) => TextLeq(a.key, b.key)
  }

  function PropertyText(p: Property): Text {
    Quote(p.key) + [COLON] + p.text
  }

  function PropertyTexts(ps: seq<Property>): seq<Text> {
    seq(|ps|, i requires 0 <= i < |ps| => PropertyText(ps[i]))
  }

  function StableStringify(v: Value): Text {
    match v
    case Null => NULL_TEXT
    case Bool(b) => if b then TRUE_TEXT else FALSE_TEXT
    case Number(n) => Decimal(n)
    case String(s) => Quote(s)
    case Array(items) =>
      [OPEN_BRACKET] + Join(seq(|items|, i requires 0 <= i < |items| => StableStringify(items[i])), COMMA) + [CLOSE_BRACKET]
    case Object(members) =>
      var properties := seq(|members|, i requires 0 <= i < |members| => Property(members[i].key, StableStringify(members[i].value)));
      [OPEN_BRACE] + Join(PropertyTexts(Sort(ByKey(), properties)), COMMA) + [CLOSE_BRACE]
  }

  /** No object repeats a key, at any depth. */
  predicate WellFormed(v: Value) {
    match v
    case Array(items) => forall i :: 0 <= i < |items| ==> WellFormed(items[i])
    case Object(members) =>
      && DistinctKeys(members)
      && (forall i :: 0 <= i < |members| ==> WellFormed(members[i].value))
    case _ => true
  }

  predicate DistinctKeys(members: seq<Member>) {
    forall i, j :: 0 <= i < j < |members| ==> members[i].key != members[j].key
  }

  function Keys(members: seq<Member>): set<Text> {
    set i | 0 <= i < |members| :: members[i].key
  }

  /** The same JSON value: objects compare as maps from key to value, whatever the order of their members. */
  ghost predicate Same(a: Value, b: Value) {
    match (a, b)
    case (Array(xs), Array(ys)) =>
      |xs| == |ys| && forall i :: 0 <= i < |xs| ==> Same(xs[i], ys[i])
    case (Object(ms), Object(ns)) =>
      && Keys(ms) == Keys(ns)
      && (forall i, j :: 0 <= i < |ms| && 0 <= j < |ns| && ms[i].key == ns[j].key ==> Same(ms[i].value, ns[j].value))
    case _ => a == b
  }

  // ----- the order of keys -----

  lemma {:induction false} TextLeqIsTotal(a: Text, b: Text, c: Text)
    ensures TextLeq(a, b) || TextLeq(b, a)
    ensures TextLeq(a, b) && TextLeq(b, a) ==> a == b
    ensures TextLeq(a, b) && TextLeq(b, c) ==> TextLeq(a, c)
    decreases |a| + |b| + |c|
  {
    if a != [] && b != [] {
      TextLeqIsTotal(a[1..], b[1..], if c == [] then [] else c[1..]);
      assert a == [a[0]] + a[1..] && b == [b[0]] + b[1..];
    }
  }

  lemma ByKeyIsTotal()
    ensures TotalPreorder(ByKey())
  {
    hide TextLeq;
    forall a: Property, b: Property
      ensures ByKey()(a, b) || ByKey()(b, a)
    {
      TextLeqIsTotal(a.key, b.key, []);
    }
    forall a: Property, b: Property, c: Property | ByKey()(a, b) && ByKey()(b, c)
      ensures ByKey()(a, c)
    {
      TextLeqIsTotal(a.key, b.key, c.key);
    }
  }

  // ----- reading a list of parts back -----

  /** Each part ends where a separator or a closing mark begins, so the parts can be told apart. */
  ghost predicate Decodes(x: Text, y: Text) {
    forall r, t :: Delimited(r) && Delimited(t) && x + r == y + t ==> x == y && r == t
  }

  /** Every part of one list can be told from every part of the other, and none looks like the end of a list. */
  ghost predicate PartsDecode(xs: seq<Text>, ys: seq<Text>) {
    && (forall i, j :: 0 <= i < |xs| && 0 <= j < |ys| ==> Decodes(xs[i], ys[j]))
    && (forall i :: 0 <= i < |xs| ==> StartsAPart(xs[i]))
    && (forall j :: 0 <= j < |ys| ==> StartsAPart(ys[j]))
  }

  predicate StartsAPart(x: Text) {
    x != [] && x[0] != CLOSE_BRACKET && x[0] != CLOSE_BRACE && x[0] != COMMA
  }

  lemma JoinCons(parts: seq<Text>, close: CodeUnit, r: Text)
    requires parts != []
    ensures |parts| == 1 ==> Join(parts, COMMA) + ([close] + r) == parts[0] + ([close] + r)
    ensures |parts| > 1 ==> Join(parts, COMMA) + ([close] + r) == parts[0] + ([COMMA] + (Join(parts[1..], COMMA) + ([close] + r)))
  {
    if |parts| > 1 {
      var tail := Join(parts[1..], COMMA);
      Assoc(parts[0], [COMMA], tail);
      Assoc(parts[0], [COMMA] + tail, [close] + r);
      Assoc([COMMA], tail, [close] + r);
    }
  }

  lemma {:induction false} JoinInjective(xs: seq<Text>, ys: seq<Text>, close: CodeUnit, r: Text, t: Text)
    requires close == CLOSE_BRACKET || close == CLOSE_BRACE
    requires PartsDecode(xs, ys) && Join(xs, COMMA) + ([close] + r) == Join(ys, COMMA) + ([close] + t)
    ensures xs == ys && r == t
    decreases |xs|
  {
    hide Join, Decodes, StartsAPart;
    JoinStart(xs, close, r);
    JoinStart(ys, close, t);
    if xs == [] {
      NothingJoined(close, r);
      NothingJoined(close, t);
    } else {
      JoinCons(xs, close, r);
      JoinCons(ys, close, t);
      var xr := if |xs| == 1 then [close] + r else [COMMA] + (Join(xs[1..], COMMA) + ([close] + r));
      var yt := if |ys| == 1 then [close] + t else [COMMA] + (Join(ys[1..], COMMA) + ([close] + t));
      UseDecodes(xs[0], ys[0], xr, yt);
      assert xr[0] == yt[0];
      assert |xs| == 1 <==> |ys| == 1;
      if |xs| == 1 {
        ConsTail(close, r);
        ConsTail(close, t);
      } else {
        ConsTail(COMMA, Join(xs[1..], COMMA) + ([close] + r));
        ConsTail(COMMA, Join(ys[1..], COMMA) + ([close] + t));
        JoinInjective(xs[1..], ys[1..], close, r, t);
      }
      assert xs == [xs[0]] + xs[1..] && ys == [ys[0]] + ys[1..];
    }
  }

  lemma UseDecodes(x: Text, y: Text, r: Text, t: Text)
    requires Decodes(x, y) && Delimited(r) && Delimited(t) && x + r == y + t
    ensures x == y && r == t
  {
  }

  lemma NothingJoined(close: CodeUnit, r: Text)
    ensures |Join([], COMMA) + ([close] + r)| > 0 && (Join([], COMMA) + ([close] + r))[1..] == r
  {
  }

  /** A joined list starts with a closing mark exactly when it is empty. */
  lemma JoinStart(parts: seq<Text>, close: CodeUnit, r: Text)
    requires close == CLOSE_BRACKET || close == CLOSE_BRACE
    requires forall i :: 0 <= i < |parts| ==> StartsAPart(parts[i])
    ensures var out := Join(parts, COMMA) + ([close] + r);
            out != [] && (out[0] == close <==> parts == [])
  {
    if parts != [] {
      JoinCons(parts, close, r);
      assert StartsAPart(parts[0]);
    }
  }

  // ----- injectivity -----

  lemma QuoteDecodes(s: Text, u: Text, r: Text, t: Text)
    requires Quote(s) + r == Quote(u) + t
    ensures s == u && r == t
  {
    hide Escape;
    Assoc([QUOTE], Escape(s), [QUOTE]);
    Assoc([QUOTE], Escape(s) + [QUOTE], r);
    Assoc(Escape(s), [QUOTE], r);
    ConsTail(QUOTE, Escape(s) + ([QUOTE] + r));
    Assoc([QUOTE], Escape(u), [QUOTE]);
    Assoc([QUOTE], Escape(u) + [QUOTE], t);
    Assoc(Escape(u), [QUOTE], t);
    ConsTail(QUOTE, Escape(u) + ([QUOTE] + t));
    EscapeInjective(s, u, r, t);
  }

  /** What the first character of a serialization says about the value. */
  lemma FirstCharacter(v: Value)
    ensures var x := StableStringify(v);
            && StartsAPart(x)
            && (x[0] == 0x6e <==> v.Null?)
            && (x[0] == 0x74 <==> v == Bool(true))
            && (x[0] == 0x66 <==> v == Bool(false))
            && (x[0] == QUOTE <==> v.String?)
            && (x[0] == OPEN_BRACKET <==> v.Array?)
            && (x[0] == OPEN_BRACE <==> v.Object?)
  {
    hide Join, Sort, Escape, PropertyTexts;
  }

  lemma PropertyDecodes(p: Property, q: Property)
    requires Decodes(p.text, q.text)
    ensures Decodes(PropertyText(p), PropertyText(q))
    ensures StartsAPart(PropertyText(p))
    ensures PropertyText(p) == PropertyText(q) ==> p == q
  {
    hide Quote, Escape, Decodes;
    forall r, t | Delimited(r) && Delimited(t) && PropertyText(p) + r == PropertyText(q) + t
      ensures p == q && r == t
    {
      PropertyFromText(p, q, r, t);
    }
    assert Decodes(PropertyText(p), PropertyText(q)) by {
      DecodesIntro(p, q);
    }
    QuoteStarts(p);
    if PropertyText(p) == PropertyText(q) {
      assert PropertyText(p) + [] == PropertyText(q) + [];
      PropertyFromText(p, q, [], []);
    }
  }

  lemma DecodesIntro(p: Property, q: Property)
    requires forall r, t :: Delimited(r) && Delimited(t) && PropertyText(p) + r == PropertyText(q) + t ==> p == q && r == t
    ensures Decodes(PropertyText(p), PropertyText(q))
  {
  }

  lemma QuoteStarts(p: Property)
    ensures StartsAPart(PropertyText(p))
  {
  }

  lemma PropertyFromText(p: Property, q: Property, r: Text, t: Text)
    requires Decodes(p.text, q.text) && Delimited(r) && Delimited(t) && PropertyText(p) + r == PropertyText(q) + t
    ensures p == q && r == t
  {
    hide Quote, Decodes;
    PropertyApart(p, r);
    PropertyApart(q, t);
    QuoteDecodes(p.key, q.key, [COLON] + (p.text + r), [COLON] + (q.text + t));
    ConsTail(COLON, p.text + r);
    ConsTail(COLON, q.text + t);
    UseDecodes(p.text, q.text, r, t);
  }

  lemma PropertyApart(p: Property, r: Text)
    ensures PropertyText(p) + r == Quote(p.key) + ([COLON] + (p.text + r))
  {
    hide Quote;
    Assoc(Quote(p.key), [COLON], p.text);
    Assoc(Quote(p.key), [COLON] + p.text, r);
    Assoc([COLON], p.text, r);
  }

  function ItemTexts(items: seq<Value>): seq<Text> {
    seq(|items|, i requires 0 <= i < |items| => StableStringify(items[i]))
  }

  function Properties(members: seq<Member>): seq<Property> {
    seq(|members|, i requires 0 <= i < |members| => Property(members[i].key, StableStringify(members[i].value)))
  }

  lemma ArrayText(items: seq<Value>)
    ensures StableStringify(Array(items)) == [OPEN_BRACKET] + Join(ItemTexts(items), COMMA) + [CLOSE_BRACKET]
  {
    assert ItemTexts(items) == seq(|items|, i requires 0 <= i < |items| => StableStringify(items[i]));
  }

  lemma ObjectText(members: seq<Member>)
    ensures StableStringify(Object(members)) == [OPEN_BRACE] + Join(PropertyTexts(Sort(ByKey(), Properties(members))), COMMA) + [CLOSE_BRACE]
  {
    assert Properties(members)
           == seq(|members|, i requires 0 <= i < |members| => Property(members[i].key, StableStringify(members[i].value)));
  }

  lemma Unwrap(open: CodeUnit, inner: Text, close: CodeUnit, r: Text)
    ensures ([open] + inner + [close] + r)[1..] == inner + ([close] + r)
  {
  }

  /** Serializations can be read back off the front of any text: two that agree, with something that ends a value behind them, are one. */
  lemma {:induction false} StringifyDecodes(a: Value, b: Value)
    ensures Decodes(StableStringify(a), StableStringify(b))
    decreases a
  {
    hide StableStringify, Join, Sort, Quote, Decimal, PropertyTexts, ItemTexts, Properties, PropertyText;
    forall r, t | Delimited(r) && Delimited(t) && StableStringify(a) + r == StableStringify(b) + t
      ensures StableStringify(a) == StableStringify(b) && r == t
    {
      FirstCharacter(a);
      FirstCharacter(b);
      assert (StableStringify(a) + r)[0] == StableStringify(a)[0] && (StableStringify(b) + t)[0] == StableStringify(b)[0];
      match a
      case Array(xs) => ArraysDecode(xs, b.items, a, r, t);
      case Object(ms) => ObjectsDecode(ms, b.members, a, r, t);
      case _ => LeavesDecode(a, b, r, t);
    }
  }

  lemma LeavesDecode(a: Value, b: Value, r: Text, t: Text)
    requires !a.Array? && !a.Object? && !b.Array? && !b.Object?
    requires a.Null? <==> b.Null?
    requires a.String? <==> b.String?
    requires a == Bool(true) <==> b == Bool(true)
    requires a == Bool(false) <==> b == Bool(false)
    requires Delimited(r) && Delimited(t) && StableStringify(a) + r == StableStringify(b) + t
    ensures a == b && r == t
  {
    hide Quote, Decimal;
    match a
    case Null => Behind(NULL_TEXT, r, t);
    case Bool(x) => Behind(if x then TRUE_TEXT else FALSE_TEXT, r, t);
    case Number(n) => DecimalInjective(n, b.n, r, t);
    case String(s) => QuoteDecodes(s, b.s, r, t);
  }

  lemma Behind(x: Text, r: Text, t: Text)
    requires x + r == x + t
    ensures r == t
  {
    assert (x + r)[|x|..] == r && (x + t)[|x|..] == t;
  }

  lemma ArraysDecode(xs: seq<Value>, ys: seq<Value>, a: Value, r: Text, t: Text)
    requires a == Array(xs)
    requires StableStringify(Array(xs)) + r == StableStringify(Array(ys)) + t
    ensures ItemTexts(xs) == ItemTexts(ys) && r == t
    ensures StableStringify(Array(xs)) == StableStringify(Array(ys))
    decreases a, 0
  {
    hide StableStringify, Join, Decodes, StartsAPart;
    ArrayText(xs);
    ArrayText(ys);
    Unwrap(OPEN_BRACKET, Join(ItemTexts(xs), COMMA), CLOSE_BRACKET, r);
    Unwrap(OPEN_BRACKET, Join(ItemTexts(ys), COMMA), CLOSE_BRACKET, t);
    forall i, j | 0 <= i < |xs| && 0 <= j < |ys|
      ensures Decodes(ItemTexts(xs)[i], ItemTexts(ys)[j])
    {
      StringifyDecodes(xs[i], ys[j]);
    }
    forall i | 0 <= i < |xs|
      ensures StartsAPart(ItemTexts(xs)[i])
    {
      FirstCharacter(xs[i]);
    }
    forall i | 0 <= i < |ys|
      ensures StartsAPart(ItemTexts(ys)[i])
    {
      FirstCharacter(ys[i]);
    }
    JoinInjective(ItemTexts(xs), ItemTexts(ys), CLOSE_BRACKET, r, t);
  }

  lemma ObjectsDecode(ms: seq<Member>, ns: seq<Member>, a: Value, r: Text, t: Text)
    requires a == Object(ms)
    requires StableStringify(Object(ms)) + r == StableStringify(Object(ns)) + t
    ensures Sort(ByKey(), Properties(ms)) == Sort(ByKey(), Properties(ns)) && r == t
    ensures StableStringify(Object(ms)) == StableStringify(Object(ns))
    decreases a, 0
  {
    hide StableStringify, Join, Decodes, StartsAPart, Sort, PropertyText;
    ObjectText(ms);
    ObjectText(ns);
    var ps, qs := Sort(ByKey(), Properties(ms)), Sort(ByKey(), Properties(ns));
    Unwrap(OPEN_BRACE, Join(PropertyTexts(ps), COMMA), CLOSE_BRACE, r);
    Unwrap(OPEN_BRACE, Join(PropertyTexts(qs), COMMA), CLOSE_BRACE, t);
    SortMembers(ByKey(), Properties(ms));
    SortMembers(ByKey(), Properties(ns));
    forall i, j | 0 <= i < |ps| && 0 <= j < |qs|
      ensures Decodes(PropertyText(ps[i]), PropertyText(qs[j])) && (PropertyText(ps[i]) == PropertyText(qs[j]) ==> ps[i] == qs[j])
    {
      assert ps[i] in Properties(ms) && qs[j] in Properties(ns);
      var k :| 0 <= k < |ms| && Properties(ms)[k] == ps[i];
      var l :| 0 <= l < |ns| && Properties(ns)[l] == qs[j];
      StringifyDecodes(ms[k].value, ns[l].value);
      PropertyDecodes(ps[i], qs[j]);
    }
    forall i | 0 <= i < |ps|
      ensures StartsAPart(PropertyText(ps[i]))
    {
      QuoteStarts(ps[i]);
    }
    forall i | 0 <= i < |qs|
      ensures StartsAPart(PropertyText(qs[i]))
    {
      QuoteStarts(qs[i]);
    }
    JoinInjective(PropertyTexts(ps), PropertyTexts(qs), CLOSE_BRACE, r, t);
    forall i | 0 <= i < |ps|
      ensures ps[i] == qs[i]
    {
      assert PropertyTexts(ps)[i] == PropertyTexts(qs)[i];
    }
  }

  // ----- equal text, same value -----

  lemma PropertiesDistinct(members: seq<Member>)
    requires DistinctKeys(members)
    ensures Distinct(Properties(members)) && NoTies(ByKey(), Properties(members))
  {
    hide StableStringify, TextLeq;
    var ps := Properties(members);
    forall x, y | x in ps && y in ps && ByKey()(x, y) && ByKey()(y, x)
      ensures x == y
    {
      TextLeqIsTotal(x.key, y.key, []);
    }
  }

  /**
   * The text depends on nothing but the JSON value, and determines it: two well-formed values
   * serialize alike exactly when they are the same value.
   */
  lemma {:induction false} StringifyIsCanonical(a: Value, b: Value)
    requires WellFormed(a) && WellFormed(b)
    ensures StableStringify(a) == StableStringify(b) <==> Same(a, b)
    decreases a
  {
    hide StableStringify, Join, Sort, Quote, Decimal, PropertyTexts, ItemTexts, Properties, PropertyText;
    if a.Array? && b.Array? {
      ArraysAreCanonical(a.items, b.items, a, b);
    } else if a.Object? && b.Object? {
      ObjectsAreCanonical(a.members, b.members, a, b);
    } else if StableStringify(a) == StableStringify(b) {
      FirstCharacter(a);
      FirstCharacter(b);
      LeavesDecode(a, b, [], []);
    }
  }

  lemma ArraysAreCanonical(xs: seq<Value>, ys: seq<Value>, a: Value, b: Value)
    requires a == Array(xs) && b == Array(ys) && WellFormed(a) && WellFormed(b)
    ensures StableStringify(a) == StableStringify(b) <==> Same(a, b)
    decreases a, 0
  {
    hide StableStringify, Join;
    forall i | 0 <= i < |xs| && i < |ys|
      ensures StableStringify(xs[i]) == StableStringify(ys[i]) <==> Same(xs[i], ys[i])
    {
      StringifyIsCanonical(xs[i], ys[i]);
    }
    ArrayText(xs);
    ArrayText(ys);
    if Same(a, b) {
      assert ItemTexts(xs) == ItemTexts(ys);
    }
    if StableStringify(a) == StableStringify(b) {
      ArraysDecode(xs, ys, a, [], []);
      assert |xs| == |ItemTexts(xs)| == |ys|;
      forall i | 0 <= i < |xs|
        ensures Same(xs[i], ys[i])
      {
        assert ItemTexts(xs)[i] == ItemTexts(ys)[i];
      }
    }
  }

  lemma ObjectsAreCanonical(ms: seq<Member>, ns: seq<Member>, a: Value, b: Value)
    requires a == Object(ms) && b == Object(ns) && WellFormed(a) && WellFormed(b)
    ensures StableStringify(a) == StableStringify(b) <==> Same(a, b)
    decreases a, 0
  {
    hide StableStringify, Join, Sort, TextLeq;
    var ps, qs := Properties(ms), Properties(ns);
    forall i, j | 0 <= i < |ms| && 0 <= j < |ns|
      ensures ms[i].key == ns[j].key ==> (Meets(ms[i], ns[j]) <==> Same(ms[i].value, ns[j].value))
    {
      StringifyIsCanonical(ms[i].value, ns[j].value);
    }
    assert Same(a, b) <==> AllMeet(ms, ns);
    MeetingIsSharing(ms, ns);
    PropertiesDistinct(ms);
    PropertiesDistinct(ns);
    ByKeyIsTotal();
    SortMembers(ByKey(), ps);
    SortMembers(ByKey(), qs);
    ObjectText(ms);
    ObjectText(ns);
    if Same(a, b) {
      SameMultiset(ps, qs);
      SortIgnoresOrder(ByKey(), ps, qs);
    }
    if StableStringify(a) == StableStringify(b) {
      ObjectsDecode(ms, ns, a, [], []);
    }
  }

  ghost predicate SameProperties(ps: seq<Property>, qs: seq<Property>) {
    forall p :: p in ps <==> p in qs
  }

  predicate Meets(m: Member, n: Member) {
    m.key == n.key && StableStringify(m.value) == StableStringify(n.value)
  }

  /** The same keys, each with the same text on both sides. */
  predicate AllMeet(ms: seq<Member>, ns: seq<Member>) {
    Keys(ms) == Keys(ns) && forall i, j :: 0 <= i < |ms| && 0 <= j < |ns| && ms[i].key == ns[j].key ==> Meets(ms[i], ns[j])
  }

  lemma PropertiesMeet(ms: seq<Member>, ns: seq<Member>, i: nat, j: nat)
    requires i < |ms| && j < |ns|
    ensures Properties(ms)[i].key == ms[i].key && Properties(ns)[j].key == ns[j].key
    ensures Properties(ms)[i] == Properties(ns)[j] <==> Meets(ms[i], ns[j])
  {
    hide StableStringify;
  }

  /** Every property of one object is a property of the other. */
  lemma MeetingShares(ms: seq<Member>, ns: seq<Member>, p: Property)
    requires AllMeet(ms, ns) && p in Properties(ms)
    ensures p in Properties(ns)
  {
    hide StableStringify, Meets;
    var i :| 0 <= i < |Properties(ms)| && Properties(ms)[i] == p;
    assert ms[i].key in Keys(ms);
    var j :| 0 <= j < |ns| && ns[j].key == ms[i].key;
    PropertiesMeet(ms, ns, i, j);
  }

  lemma AllMeetIsSymmetric(ms: seq<Member>, ns: seq<Member>)
    requires AllMeet(ms, ns)
    ensures AllMeet(ns, ms)
  {
    hide StableStringify, Keys;
    forall i, j | 0 <= i < |ns| && 0 <= j < |ms| && ns[i].key == ms[j].key
      ensures Meets(ns[i], ms[j])
    {
      assert Meets(ms[j], ns[i]);
    }
  }

  lemma SharingKeys(ms: seq<Member>, ns: seq<Member>, key: Text)
    requires SameProperties(Properties(ms), Properties(ns)) && key in Keys(ms)
    ensures key in Keys(ns)
  {
    hide StableStringify;
    var i :| 0 <= i < |ms| && ms[i].key == key;
    assert Properties(ms)[i] in Properties(ns);
    var j :| 0 <= j < |ns| && Properties(ns)[j] == Properties(ms)[i];
    assert ns[j].key == key;
  }

  lemma SharingMeets(ms: seq<Member>, ns: seq<Member>, i: nat, j: nat)
    requires SameProperties(Properties(ms), Properties(ns)) && DistinctKeys(ns)
    requires i < |ms| && j < |ns| && ms[i].key == ns[j].key
    ensures Meets(ms[i], ns[j])
  {
    hide StableStringify, Meets;
    assert Properties(ms)[i] in Properties(ns);
    var k :| 0 <= k < |ns| && Properties(ns)[k] == Properties(ms)[i];
    PropertiesMeet(ms, ns, i, k);
    assert k == j;
  }

  /** Two objects meet member by member exactly when they have the same properties. */
  lemma MeetingIsSharing(ms: seq<Member>, ns: seq<Member>)
    requires DistinctKeys(ms) && DistinctKeys(ns)
    ensures AllMeet(ms, ns) <==> SameProperties(Properties(ms), Properties(ns))
  {
    hide StableStringify, Meets, Keys, Properties, DistinctKeys;
    if AllMeet(ms, ns) {
      AllMeetIsSymmetric(ms, ns);
      forall p
        ensures p in Properties(ms) <==> p in Properties(ns)
      {
        if p in Properties(ms) {
          MeetingShares(ms, ns, p);
        }
        if p in Properties(ns) {
          MeetingShares(ns, ms, p);
        }
      }
    }
    if SameProperties(Properties(ms), Properties(ns)) {
      forall key
        ensures key in Keys(ms) <==> key in Keys(ns)
      {
        if key in Keys(ms) {
          SharingKeys(ms, ns, key);
        }
        if key in Keys(ns) {
          SharingKeys(ns, ms, key);
        }
      }
      forall i, j | 0 <= i < |ms| && 0 <= j < |ns| && ms[i].key == ns[j].key
        ensures Meets(ms[i], ns[j])
      {
        SharingMeets(ms, ns, i, j);
      }
    }
  }

  // ----- the content identifier -----

  /** What `computeContentId` hashes: the body, then a line for every file hash. */
  function HashInput(body: Value, hashes: seq<Text>): Text {
    StableStringify(body) + [LINE_FEED] + Join(hashes, LINE_FEED)
  }

  predicate Printable(x: Text) {
    forall i :: 0 <= i < |x| ==> x[i] >= 0x20
  }

  lemma {:induction false} JoinIsPrintable(parts: seq<Text>)
    requires forall i :: 0 <= i < |parts| ==> Printable(parts[i])
    ensures Printable(Join(parts, COMMA))
  {
    if |parts| > 1 {
      JoinIsPrintable(parts[1..]);
    }
  }

  /** A serialization is one line. */
  lemma {:induction false} StringifyIsPrintable(v: Value)
    ensures Printable(StableStringify(v))
    decreases v
  {
    hide Join, Sort, Escape, Digits;
    match v
    case String(s) => EscapeIsPrintable(s);
    case Array(items) =>
      forall i | 0 <= i < |items|
        ensures Printable(ItemTexts(items)[i])
      {
        StringifyIsPrintable(items[i]);
      }
      JoinIsPrintable(ItemTexts(items));
      ArrayText(items);
    case Object(members) =>
      var ps := Sort(ByKey(), Properties(members));
      SortMembers(ByKey(), Properties(members));
      forall i | 0 <= i < |ps|
        ensures Printable(PropertyTexts(ps)[i])
      {
        assert ps[i] in Properties(members);
        var k :| 0 <= k < |members| && Properties(members)[k] == ps[i];
        StringifyIsPrintable(members[k].value);
        EscapeIsPrintable(ps[i].key);
      }
      JoinIsPrintable(PropertyTexts(ps));
      ObjectText(members);
    case _ =>
  }

  predicate IsLine(x: Text) {
    x != [] && LINE_FEED !in x
  }

  lemma {:induction false} SplitAtLineFeed(x: Text, y: Text, r: Text, t: Text)
    requires LINE_FEED !in x && LINE_FEED !in y
    requires r == [] || r[0] == LINE_FEED
    requires t == [] || t[0] == LINE_FEED
    requires x + r == y + t
    ensures x == y && r == t
  {
    if x == [] || y == [] {
      assert x + r == if x == [] then r else x + r;
      NoFeedUntil(x, r);
      NoFeedUntil(y, t);
    } else {
      AppendTail(x, r);
      AppendTail(y, t);
      SplitAtLineFeed(x[1..], y[1..], r, t);
      assert x == [x[0]] + x[1..] && y == [y[0]] + y[1..];
    }
  }

  lemma NoFeedUntil(x: Text, r: Text)
    requires LINE_FEED !in x && (r == [] || r[0] == LINE_FEED)
    ensures x == [] <==> x + r == [] || (x + r)[0] == LINE_FEED
    ensures x == [] ==> x + r == r
  {
  }

  lemma {:induction false} LinesJoinInjective(xs: seq<Text>, ys: seq<Text>)
    requires forall i :: 0 <= i < |xs| ==> IsLine(xs[i])
    requires forall i :: 0 <= i < |ys| ==> IsLine(ys[i])
    requires Join(xs, LINE_FEED) == Join(ys, LINE_FEED)
    ensures xs == ys
  {
    hide *;
    if xs == [] || ys == [] {
      LineStarts(xs);
      LineStarts(ys);
    } else {
      LineThenRest(xs);
      LineThenRest(ys);
      LineAfter(xs);
      LineAfter(ys);
      SplitAtLineFeed(xs[0], ys[0], AfterFirst(xs), AfterFirst(ys));
      RestsAgree(xs, ys);
      LinesJoinInjective(xs[1..], ys[1..]);
      assert xs == [xs[0]] + xs[1..] && ys == [ys[0]] + ys[1..];
    }
  }

  lemma RestsAgree(xs: seq<Text>, ys: seq<Text>)
    requires xs != [] && ys != [] && AfterFirst(xs) == AfterFirst(ys)
    ensures Join(xs[1..], LINE_FEED) == Join(ys[1..], LINE_FEED)
  {
    hide Join;
    LineThenRest(xs);
    LineThenRest(ys);
  }

  function AfterFirst(xs: seq<Text>): Text {
    if |xs| <= 1 then [] else [LINE_FEED] + Join(xs[1..], LINE_FEED)
  }

  lemma LineThenRest(xs: seq<Text>)
    requires xs != []
    ensures Join(xs, LINE_FEED) == xs[0] + AfterFirst(xs)
    ensures |xs| > 1 ==> AfterFirst(xs) != [] && AfterFirst(xs)[1..] == Join(xs[1..], LINE_FEED)
    ensures |xs| == 1 ==> AfterFirst(xs) == [] && xs[1..] == [] && Join(xs[1..], LINE_FEED) == []
  {
    if |xs| == 1 {
      assert xs[0] + [] == xs[0];
    } else {
      Assoc(xs[0], [LINE_FEED], Join(xs[1..], LINE_FEED));
    }
  }

  lemma LineAfter(xs: seq<Text>)
    requires xs != [] && forall i :: 0 <= i < |xs| ==> IsLine(xs[i])
    ensures LINE_FEED !in xs[0]
    ensures AfterFirst(xs) == [] || AfterFirst(xs)[0] == LINE_FEED
  {
    hide Join;
    assert IsLine(xs[0]);
  }

  lemma LineStarts(xs: seq<Text>)
    requires forall i :: 0 <= i < |xs| ==> IsLine(xs[i])
    ensures Join(xs, LINE_FEED) == [] <==> xs == []
  {
    if xs != [] {
      assert IsLine(xs[0]);
      LineThenRest(xs);
    }
  }

  /** The hash input determines the manifest body, up to the order of keys, and the list of file hashes. */
  lemma HashInputDetermines(a: Value, b: Value, xs: seq<Text>, ys: seq<Text>)
    requires WellFormed(a) && WellFormed(b)
    requires forall i :: 0 <= i < |xs| ==> IsLine(xs[i])
    requires forall i :: 0 <= i < |ys| ==> IsLine(ys[i])
    ensures HashInput(a, xs) == HashInput(b, ys) <==> Same(a, b) && xs == ys
  {
    hide StableStringify, Join, WellFormed, Same;
    StringifyIsCanonical(a, b);
    if HashInput(a, xs) == HashInput(b, ys) {
      StringifyIsPrintable(a);
      StringifyIsPrintable(b);
      var r, t := [LINE_FEED] + Join(xs, LINE_FEED), [LINE_FEED] + Join(ys, LINE_FEED);
      Assoc(StableStringify(a), [LINE_FEED], Join(xs, LINE_FEED));
      Assoc(StableStringify(b), [LINE_FEED], Join(ys, LINE_FEED));
      SplitAtLineFeed(StableStringify(a), StableStringify(b), r, t);
      ConsTail(LINE_FEED, Join(xs, LINE_FEED));
      ConsTail(LINE_FEED, Join(ys, LINE_FEED));
      LinesJoinInjective(xs, ys);
    }
  }
}
