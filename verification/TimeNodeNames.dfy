// The names of time nodes: opencog/spacetime/Temporal.cc:158-206.
module TimeNodeNames {
  import opened Basics
  import opened Decimals
  import opened Temporals

  /** The text behind its leading blanks. */
  function Unblanked(s: Text): Text {
    if s != [] && IsSpace(s[0]) then Unblanked(s[1..]) else s
  }

  function Signed(s: Text): bool {
    s != [] && (s[0] == '-' || s[0] == '+')
  }

  /** The magnitude strtoull and atoi find at the start of a text, 0 when there is none. */
  function Magnitude(s: Text): nat {
    var t := Unblanked(s);
    var digits := if Signed(t) then t[1..] else t;
    ValueOf(digits[..DigitCount(digits)])
  }

  function Negative(s: Text): bool {
    var t := Unblanked(s);
    t != [] && t[0] == '-'
  }

  /** Too large a number is the largest there is; a minus sign wraps around. */
  function Strtoull(s: Text): octime_t {
    if Magnitude(s) >= OCTIME_LIMIT then OCTIME_MAX
    else if Negative(s) then WrapSub(0, Magnitude(s)) else Magnitude(s)
  }

  /** atoi, a long cut down to 32 bits. */
  function Atoi(s: Text): nat {
    var limit := 0x7FFF_FFFF_FFFF_FFFF + if Negative(s) then 1 else 0;
    (if Magnitude(s) > limit then limit else Magnitude(s)) % 0x1_0000_0000
  }

  /** The text behind the first colon. */
  function BehindColon(s: Text): Option<Text> {
    if s == [] then None else if s[0] == ':' then Some(s[1..]) else BehindColon(s[1..])
  }

  /** getTimeNodeName. */
  function NameOf(t: Temporal): Text {
    if t.normal then Decimal(t.a) + ":" + Decimal(t.b) + ":1"
    else if t.a == t.b then Decimal(t.a)
    else Decimal(t.a) + ":" + Decimal(t.b)
  }

  /** What a name stands for. */
  function Named(name: Text): InitResult {
    var a := Strtoull(name);
    match BehindColon(name)
    case None => Init(a, a, false)
    case Some(s) =>
      var b := Strtoull(s);
      match BehindColon(s)
      case None => Init(a, b, false)
      case Some(s') => Init(a, b, Atoi(s') != 0)
  }

  /** Moves on to the next colon, or to the end. */
  method NextColon(s: Text, from: nat) returns (nextToken: nat)
    requires from <= |s|
    ensures from <= nextToken <= |s| && (nextToken < |s| ==> s[nextToken] == ':')
    ensures BehindColon(s[from..]) == if nextToken < |s| then Some(s[nextToken + 1..]) else None
  {
    nextToken := from;
    while nextToken < |s| && s[nextToken] != ':'
      invariant from <= nextToken <= |s|
      invariant BehindColon(s[from..]) == BehindColon(s[nextToken..])
    {
      assert s[nextToken..][1..] == s[nextToken + 1..];
      nextToken := nextToken + 1;
    }
    if nextToken < |s| {
      assert s[nextToken..][1..] == s[nextToken + 1..];
    }
  }

  method GetFromTimeNodeName(timeNodeName: Text) returns (r: InitResult)
    ensures r == Named(timeNodeName)
  {
    assert timeNodeName[0..] == timeNodeName;
    var a := Strtoull(timeNodeName);
    var nextToken := NextColon(timeNodeName, 0);
    if nextToken == |timeNodeName| {
      return Init(a, a, false);
    }
    nextToken := nextToken + 1;
    var b := Strtoull(timeNodeName[nextToken..]);
    nextToken := NextColon(timeNodeName, nextToken);
    if nextToken == |timeNodeName| {
      return Init(a, b, false);
    }
    nextToken := nextToken + 1;
    var normal := Atoi(timeNodeName[nextToken..]) != 0;
    return Init(a, b, normal);
  }

  lemma {:induction false} ColonBehindDigits(s: Text, rest: Text)
    requires AllDigits(s)
    ensures BehindColon(s + rest) == BehindColon(rest)
  {
    if s == [] {
      assert s + rest == rest;
    } else {
      assert (s + rest)[1..] == s[1..] + rest;
      ColonBehindDigits(s[1..], rest);
    }
  }

  /** A printed number is read back, up to what follows, unless that is another digit. */
  lemma NumberIsRead(n: octime_t, rest: Text)
    requires rest == [] || rest[0] == ':'
    ensures Strtoull(Decimal(n) + rest) == n
    ensures BehindColon(Decimal(n) + rest) == if rest == [] then None else Some(rest[1..])
  {
    hide Decimal;
    var s := Decimal(n) + rest;
    DecimalIsRead(n);
    DigitCountOf(Decimal(n), rest);
    ColonBehindDigits(Decimal(n), rest);
    assert Digit(s[0]);
  }

  lemma FlagIsRead()
    ensures Atoi("1") == 1
  {
    DigitCountOf("1", []);
    assert "1" + [] == "1" && "1"[..0] == [];
    assert ValueOf("1") == 1;
  }

  /** The name of an interval is read as that interval just when it is valid; of any other, reading complains. */
  lemma NameIsRead(t: Temporal)
    ensures Named(NameOf(t)) == Created(t) <==> t.Valid()
    ensures !t.Valid() ==> Named(NameOf(t)) == InvalidParam
  {
    hide Decimal;
    hide Strtoull;
    hide Atoi;
    hide BehindColon;
    hide Init;
    var (a, b) := (Decimal(t.a), Decimal(t.b));
    InitAcceptsTheValid(t.a, t.b, t.normal);
    if t.normal {
      NumberIsRead(t.a, ":" + (b + ":1"));
      NumberIsRead(t.b, ":1");
      assert NameOf(t) == a + (":" + (b + ":1")) && (":" + (b + ":1"))[1..] == b + ":1" && ":1"[1..] == "1";
      FlagIsRead();
    } else if t.a == t.b {
      NumberIsRead(t.a, []);
      assert a + [] == a;
    } else {
      NumberIsRead(t.a, ":" + b);
      NumberIsRead(t.b, []);
      assert NameOf(t) == a + (":" + b) && (":" + b)[1..] == b && b + [] == b;
    }
  }

  // ---------------------------------------------------------------- the shapes of names

  function Colons(s: Text): nat {
    if s == [] then 0 else Colons(s[1..]) + if s[0] == ':' then 1 else 0
  }

  lemma {:induction false} ColonsAppend(s: Text, t: Text)
    ensures Colons(s + t) == Colons(s) + Colons(t)
  {
    if s == [] {
      assert s + t == t;
    } else {
      ColonsAppend(s[1..], t);
      assert (s + t)[1..] == s[1..] + t;
    }
  }

  lemma {:induction false} NoColons(s: Text)
    requires AllDigits(s)
    ensures Colons(s) == 0
  {
    if s != [] {
      NoColons(s[1..]);
    }
  }

  /**
   * A time point is named by one number, an interval by two numbers with a colon between them; the name of a normal
   * interval ends with another colon and the flag.
   */
  lemma ColonsOfName(t: Temporal)
    ensures Colons(NameOf(t)) == if t.normal then 2 else if t.a == t.b then 0 else 1
    ensures t.normal ==> |NameOf(t)| >= 2 && NameOf(t)[|NameOf(t)| - 2..] == ":1"
  {
    hide Decimal;
    var (a, b) := (Decimal(t.a), Decimal(t.b));
    DecimalIsRead(t.a);
    DecimalIsRead(t.b);
    NoColons(a);
    NoColons(b);
    ColonsAppend(a, ":");
    ColonsAppend(a + ":", b);
    ColonsAppend(a + ":" + b, ":1");
    assert Colons(":") == 1 && Colons(":1") == 1 by {
      assert ":"[1..] == [] && ":1"[1..] == "1" && "1"[1..] == [];
    }
  }

  lemma {:induction false} BlanksAreSkipped(blanks: Text, rest: Text)
    requires forall i :: 0 <= i < |blanks| ==> IsSpace(blanks[i])
    requires rest == [] || !IsSpace(rest[0])
    ensures Unblanked(blanks + rest) == rest
  {
    if blanks == [] {
      assert blanks + rest == rest;
    } else {
      assert (blanks + rest)[1..] == blanks[1..] + rest;
      BlanksAreSkipped(blanks[1..], rest);
    }
  }

  /**
   * What strtoull and atoi make of any text: blanks, a sign or none, and digits up to something else. No digits are 0,
   * a
   * minus sign is taken modulo two to the power of 64, and a number beyond that is the largest there is.
   */
  lemma AnyNumberIsRead(blanks: Text, sign: Text, digits: Text, rest: Text)
    requires forall i :: 0 <= i < |blanks| ==> IsSpace(blanks[i])
    requires (sign == [] || sign == "+" || sign == "-") && AllDigits(digits)
    requires rest == [] || !Digit(rest[0])
    requires sign + digits == [] ==> rest == [] || !(IsSpace(rest[0]) || rest[0] == '+' || rest[0] == '-')
    ensures var (n, s) := (ValueOf(digits), blanks + (sign + (digits + rest)));
      && Strtoull(s) == (if n >= OCTIME_LIMIT then OCTIME_MAX
                         else if sign == "-" then (OCTIME_LIMIT - n) % OCTIME_LIMIT else n)
      && (n < 0x1_0000_0000 ==> Atoi(s) == n)
  {
    hide DigitCount;
    hide ValueOf;
    hide Unblanked;
    hide Strtoull;
    hide Atoi;
    var u := sign + (digits + rest);
    AfterSign(sign, digits, rest);
    BlanksAreSkipped(blanks, u);
    MagnitudeOnly(blanks + u, ValueOf(digits), sign == "-");
  }

  lemma AfterSign(sign: Text, digits: Text, rest: Text)
    requires (sign == [] || sign == "+" || sign == "-") && AllDigits(digits)
    requires rest == [] || !Digit(rest[0])
    requires sign + digits == [] ==> rest == [] || !(IsSpace(rest[0]) || rest[0] == '+' || rest[0] == '-')
    ensures var u := sign + (digits + rest);
      && (u == [] || !IsSpace(u[0])) && (u != [] && u[0] == '-' <==> sign == "-")
      && (if Signed(u) then u[1..] else u) == digits + rest
    ensures DigitCount(digits + rest) == |digits| && (digits + rest)[..|digits|] == digits
  {
    hide DigitCount;
    DigitCountOf(digits, rest);
    NoDigitFirst(rest);
    var u := sign + (digits + rest);
    assert sign == [] ==> u == digits + rest;
    assert sign != [] ==> u[1..] == digits + rest;
    assert digits != [] ==> u != [] && Digit(digits[0]) && (digits + rest)[0] == digits[0];
    assert digits == [] ==> digits + rest == rest;
  }

  lemma NoDigitFirst(s: Text)
    requires s == [] || !Digit(s[0])
    ensures DigitCount(s) == 0
  {
  }

  lemma MagnitudeOnly(s: Text, n: nat, negative: bool)
    requires Magnitude(s) == n && Negative(s) == negative
    ensures Strtoull(s) == (if n >= OCTIME_LIMIT then OCTIME_MAX
                            else if negative then (OCTIME_LIMIT - n) % OCTIME_LIMIT else n)
    ensures n < 0x1_0000_0000 ==> Atoi(s) == n
  {
    hide Magnitude;
    hide Negative;
  }
}
