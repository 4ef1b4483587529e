// What the skipper and the productions of numbers and strings take from a text: lib/json_spirit/
// json_spirit_reader_template.h:490-506, 564-569.
module JsonTokens {
  import opened Basics
  import opened Decimals
  import opened JsonEscapes
  import opened JsonValues
  import opened JsonActions
  import opened JsonReader
  import opened JsonGrammar

  // ---------------------------------------------------------------- blanks

  /** The white space of space_p. */
  lemma WhiteSpace(c: Char8)
    ensures IsSpace(c) <==> c == ' ' || c == '\t' || c == '\n' || c == '\U{b}' || c == '\U{c}' || c == '\r'
  {
  }

  lemma {:induction false} LineIsSkipped(text: Text, rest: Text)
    requires forall i :: 0 <= i < |text| ==> text[i] != '\n' && text[i] != '\r'
    ensures AfterLine(text + rest) == AfterLine(rest)
  {
    if text == [] {
      assert text + rest == rest;
    } else {
      assert (text + rest)[1..] == text[1..] + rest;
      LineIsSkipped(text[1..], rest);
    }
  }

  lemma {:induction false} BlockIsSkipped(text: Text, rest: Text)
    requires BlankOk(BlockComment(text))
    ensures AfterBlock(text + ("*/" + rest)) == Some(rest)
  {
    var s := text + ("*/" + rest);
    if text == [] {
      assert s[2..] == rest;
    } else {
      assert s[1..] == text[1..] + ("*/" + rest);
      BlockIsSkipped(text[1..], rest);
      assert s[0] == '*' && s[1] == '/' ==> |text| > 1;
    }
  }

  lemma BlankIsSkipped(b: Blank, rest: Text)
    requires BlankOk(b)
    ensures Skip(BlankText(b) + rest) == Skip(rest)
  {
    hide Skip;
    hide AfterBlock;
    hide AfterLine;
    BlankShape(b, rest);
    hide BlankText;
    SkipOne(BlankText(b) + rest);
    match b {
      case White(c) =>
        WhiteSpace(c);
      case LineComment(text, end) =>
        LineIsSkipped(text, end + rest);
        LineEnds(end, rest);
      case BlockComment(text) =>
        BlockIsSkipped(text, rest);
    }
  }

  lemma BlankShape(b: Blank, rest: Text)
    ensures b.White? ==> BlankText(b) + rest == [b.c] + rest && (BlankText(b) + rest)[1..] == rest
    ensures b.LineComment? ==> BlankText(b) + rest == "//" + (b.text + (b.end + rest))
    ensures b.LineComment? ==> (BlankText(b) + rest)[2..] == b.text + (b.end + rest)
    ensures b.BlockComment? ==> BlankText(b) + rest == "/*" + (b.text + ("*/" + rest))
    ensures b.BlockComment? ==> (BlankText(b) + rest)[2..] == b.text + ("*/" + rest)
  {
  }

  /** A comment that is not complete is not one; that of a line may end with the text. */
  predicate StartsComment(s: Text) {
    |s| >= 2 && s[0] == '/' && (s[1] == '/' || (s[1] == '*' && AfterBlock(s[2..]).Some?))
  }

  lemma SkipOne(s: Text)
    ensures s != [] && IsSpace(s[0]) ==> Skip(s) == Skip(s[1..])
    ensures |s| >= 2 && s[0] == '/' && s[1] == '/' ==> Skip(s) == Skip(AfterLine(s[2..]))
    ensures |s| >= 2 && s[0] == '/' && s[1] == '*' && AfterBlock(s[2..]).Some? ==>
      Skip(s) == Skip(AfterBlock(s[2..]).value)
    ensures s == [] || !(IsSpace(s[0]) || StartsComment(s)) ==> Skip(s) == s
  {
  }

  lemma LineEnds(end: Text, rest: Text)
    requires end == "\n" || end == "\r" || end == "\r\n"
    ensures Skip(AfterLine(end + rest)) == Skip(rest)
  {
    assert end == "\r\n" ==> (end + rest)[2..] == rest;
    assert end != "\r\n" ==> (end + rest)[1..] == rest;
    if end == "\r" && rest != [] && rest[0] == '\n' {
      assert (end + rest)[2..] == rest[1..];
    }
  }

  /** The reader is indifferent to any white space and any complete comments. */
  lemma {:induction false} BlanksAreSkipped(bs: seq<Blank>, rest: Text)
    requires BlanksOk(bs)
    ensures Skip(BlanksText(bs) + rest) == Skip(rest)
  {
    hide BlankOk;
    hide BlankText;
    hide Skip;
    if bs == [] {
      assert BlanksText(bs) + rest == rest;
    } else {
      BlanksAreSkipped(bs[1..], rest);
      BlankIsSkipped(bs[0], BlanksText(bs[1..]) + rest);
      assert BlanksText(bs) + rest == BlankText(bs[0]) + (BlanksText(bs[1..]) + rest);
    }
  }

  lemma {:induction false} LineTaken(s: Text) returns (text: Text, end: Text)
    ensures s == text + end + AfterLine(s)
    ensures AfterLine(s) != [] ==> BlankOk(LineComment(text, end))
  {
    text, end := [], [];
    if s != [] {
      if s[0] == '\n' {
        end := "\n";
      } else if s[0] == '\r' {
        end := if |s| > 1 && s[1] == '\n' then "\r\n" else "\r";
      } else {
        text, end := LineTaken(s[1..]);
        text := [s[0]] + text;
      }
    }
  }

  lemma {:induction false} BlockTaken(s: Text) returns (text: Text)
    ensures AfterBlock(s).Some? ==> s == text + "*/" + AfterBlock(s).value && BlankOk(BlockComment(text))
  {
    text := [];
    if |s| >= 2 && !(s[0] == '*' && s[1] == '/') {
      var t := BlockTaken(s[1..]);
      text := [s[0]] + t;
      if AfterBlock(s).Some? && |text| > 1 {
        assert s[1] == t[0];
      }
    }
  }

  lemma WithOneBlank(b: Blank, bs: seq<Blank>, rest: Text)
    ensures BlanksText([b] + bs) + rest == BlankText(b) + (BlanksText(bs) + rest)
    ensures BlanksOk([b] + bs) <==> BlankOk(b) && BlanksOk(bs)
  {
    hide BlankText;
    hide BlankOk;
    assert ([b] + bs)[1..] == bs;
    assert forall x :: x in [b] + bs <==> x == b || x in bs;
  }

  /** The first blank of a text that goes on behind its blanks. */
  lemma FirstBlank(s: Text) returns (b: Blank, rest: Text)
    requires s != [] && (IsSpace(s[0]) || StartsComment(s)) && Skip(s) != []
    ensures BlankOk(b) && s == BlankText(b) + rest && |rest| < |s| && Skip(s) == Skip(rest)
  {
    hide BlankOk;
    hide AfterLine;
    hide AfterBlock;
    hide Skip;
    SkipOne(s);
    SkipOne([]);
    if IsSpace(s[0]) {
      b, rest := White(s[0]), s[1..];
      WhiteIsOk(s[0]);
    } else if s[1] == '/' {
      rest := AfterLine(s[2..]);
      var text, end := LineTaken(s[2..]);
      b := LineComment(text, end);
      assert s == "//" + s[2..] && text + end + rest == text + (end + rest);
    } else {
      rest := AfterBlock(s[2..]).value;
      var text := BlockTaken(s[2..]);
      b := BlockComment(text);
      assert s == "/*" + s[2..] && text + "*/" + rest == text + ("*/" + rest);
    }
    BlankShape(b, rest);
  }

  /** Nothing else is skipped in front of what is read. */
  lemma {:induction false} OnlyBlanksAreSkipped(s: Text) returns (bs: seq<Blank>)
    ensures BlanksOk(bs) && (Skip(s) != [] ==> s == BlanksText(bs) + Skip(s))
    decreases |s|
  {
    hide BlankOk;
    hide BlanksText;
    hide BlankText;
    hide Skip;
    bs := [];
    NoBlanks(s);
    SkipOne(s);
    if s != [] && (IsSpace(s[0]) || StartsComment(s)) && Skip(s) != [] {
      var b, rest := FirstBlank(s);
      var more := OnlyBlanksAreSkipped(rest);
      bs := [b] + more;
      WithOneBlank(b, more, Skip(s));
    }
  }

  lemma WhiteIsOk(c: Char8)
    ensures BlankOk(White(c)) <==> IsSpace(c)
  {
    WhiteSpace(c);
  }

  lemma NoBlanks(s: Text)
    ensures BlanksText([]) + s == s
  {
  }

  // ---------------------------------------------------------------- numbers

  /** How much of a text makes the digits before it a real: a point and digits, an exponent, or both. */
  function RealTail(s: Text): nat {
    var dot := s != [] && s[0] == '.';
    var frac := if dot then DigitCount(s[1..]) else 0;
    var m := if dot then 1 + frac else 0;
    var exp := ExponentLength(s[m..]);
    if exp < 0 || (!dot && exp == 0) then 0 else m + exp
  }

  /** Text that would be taken for more of a number in front of it. */
  predicate ExtendsNumber(s: Text) {
    s != [] && (Digit(s[0]) || RealTail(s) > 0)
  }

  /** Whether a text ends a number in front of it. */
  predicate Stops(n: Numeral, s: Text) {
    if !n.Real?() then !ExtendsNumber(s)
    else s == [] || !(Digit(s[0]) || (n.exponent.None? && (s[0] == 'e' || s[0] == 'E')))
  }

  /** What ends any number: the end of the text, and all characters but digits, points and the letters of exponents. */
  predicate Ends(s: Text) {
    s == [] || !(Digit(s[0]) || s[0] == '.' || s[0] == 'e' || s[0] == 'E')
  }

  lemma EndsStopsAll(n: Numeral, s: Text)
    requires Ends(s)
    ensures Stops(n, s)
  {
  }

  /** Digits in front of a point. */
  predicate NoDigits(s: Text) {
    s == [] || s[0] != '.' || DigitCount(s[1..]) == 0
  }

  lemma RealBehindDigits(s: Text)
    ensures var k := SignLength(s) + DigitCount(s[SignLength(s)..]);
      RealLength(s) == if RealTail(s[k..]) == 0 || (k == SignLength(s) && NoDigits(s[k..])) then 0
        else k + RealTail(s[k..])
  {
    hide DigitCount;
    hide ExponentLength;
    hide SignLength;
    var k := SignLength(s) + DigitCount(s[SignLength(s)..]);
    var rest := s[k..];
    assert rest[0..] == rest;
    if rest != [] && rest[0] == '.' {
      assert s[k + 1..] == rest[1..];
      assert s[k + 1 + DigitCount(rest[1..])..] == rest[1 + DigitCount(rest[1..])..];
    }
  }

  lemma DigitsCount(s: Text)
    ensures DigitCount(s) > 0 <==> s != [] && Digit(s[0])
  {
  }

  lemma DigitsThenEnd(s: Text, rest: Text)
    requires AllDigits(s) && (rest == [] || !Digit(rest[0]))
    ensures DigitCount(s + rest) == |s| && (s + rest)[..|s|] == s && (s + rest)[|s|..] == rest
  {
    DigitCountOf(s, rest);
    DigitsCount(rest);
  }

  lemma SignThen(sign: Text, rest: Text)
    requires IsSign(sign) && (sign == [] ==> rest == [] || (rest[0] != '+' && rest[0] != '-'))
    ensures SignLength(sign + rest) == |sign| && (sign + rest)[|sign|..] == rest
    ensures sign + rest != [] ==> ((sign + rest)[0] == '-' <==> sign == "-")
  {
    assert sign == [] ==> sign + rest == rest;
  }

  lemma ExponentIsRead(x: Exponent, rest: Text)
    requires (x.e == 'e' || x.e == 'E') && IsSign(x.sign) && AllDigits(x.digits) && x.digits != []
    requires rest == [] || !Digit(rest[0])
    ensures ExponentLength(ExponentText(Some(x)) + rest) == |ExponentText(Some(x))|
  {
    hide ExponentLength;
    hide DigitCount;
    hide SignLength;
    var s := ExponentText(Some(x)) + rest;
    var u := x.digits + rest;
    SignThen(x.sign, u);
    DigitsThenEnd(x.digits, rest);
    hide IsSign;
    hide AllDigits;
    hide Digit;
    Regroup([x.e], x.sign, x.digits, rest);
    ExponentParts([x.e], x.sign, u);
    assert |s| == |[x.e] + x.sign + x.digits| + |rest|;
  }

  lemma Regroup(a: Text, b: Text, c: Text, d: Text)
    ensures a + b + c + d == a + (b + (c + d))
  {
  }

  lemma ExponentParts(e: Text, sign: Text, u: Text)
    requires e == "e" || e == "E"
    requires SignLength(sign + u) == |sign|
    ensures ExponentLength(e + (sign + u)) == if DigitCount(u) == 0 then -1 else 1 + |sign| + DigitCount(u)
  {
    hide DigitCount;
    hide SignLength;
    var s := e + (sign + u);
    assert s[1..] == sign + u && s[1 + |sign|..] == u;
  }

  lemma NoExponent(s: Text)
    requires s == [] || (s[0] != 'e' && s[0] != 'E')
    ensures ExponentLength(s) == 0
  {
  }

  lemma ExponentPart(n: Numeral, rest: Text)
    requires n.WellFormed() && n.Real?() && Stops(n, rest)
    ensures ExponentLength(ExponentText(n.exponent) + rest) == |ExponentText(n.exponent)|
    ensures ExponentText(n.exponent) + rest == [] || !Digit((ExponentText(n.exponent) + rest)[0])
  {
    if n.exponent.None? {
      assert ExponentText(n.exponent) + rest == rest;
      NoExponent(rest);
    } else {
      ExponentIsRead(n.exponent.value, rest);
    }
  }

  /** What is behind the digits of a real is taken as a whole. */
  lemma TailIsRead(n: Numeral, rest: Text)
    requires n.WellFormed() && n.Real?() && Stops(n, rest)
    ensures RealTail(n.Tail() + rest) == |n.Tail()| > 0 && !Digit((n.Tail() + rest)[0])
    ensures n.whole == [] ==> !NoDigits(n.Tail() + rest)
  {
    hide DigitCount;
    hide ExponentLength;
    hide Stops;
    hide ExponentText;
    hide RealTail;
    hide NoDigits;
    hide AllDigits;
    var e := ExponentText(n.exponent);
    ExponentPart(n, rest);
    if n.point {
      Regroup(".", n.fraction, e, rest);
      assert n.Tail() + rest == "." + (n.fraction + (e + rest));
      PointTail(n.fraction, e, rest);
    } else {
      assert n.Tail() == e;
      ExponentIsThere(n);
      ExponentTail(e, rest);
    }
  }

  lemma PointTail(f: Text, e: Text, rest: Text)
    requires AllDigits(f) && ExponentLength(e + rest) == |e| && (e + rest == [] || !Digit((e + rest)[0]))
    ensures RealTail("." + (f + (e + rest))) == 1 + |f| + |e| && (NoDigits("." + (f + (e + rest))) <==> f == [])
  {
    hide DigitCount;
    hide ExponentLength;
    var s := "." + (f + (e + rest));
    assert s[1..] == f + (e + rest);
    DigitsThenEnd(f, e + rest);
    assert s[1 + |f|..] == e + rest;
  }

  lemma ExponentTail(e: Text, rest: Text)
    requires e != [] && e[0] != '.' && ExponentLength(e + rest) == |e|
    ensures RealTail(e + rest) == |e|
  {
    hide ExponentLength;
    assert (e + rest)[0..] == e + rest;
  }

  lemma ExponentIsThere(n: Numeral)
    requires n.WellFormed() && n.exponent.Some?
    ensures |ExponentText(n.exponent)| > 0 && !Digit(ExponentText(n.exponent)[0]) && ExponentText(n.exponent)[0] != '.'
  {
  }

  lemma NumeralShape(n: Numeral, rest: Text)
    requires n.WellFormed() && (n.Tail() + rest == [] || !Digit((n.Tail() + rest)[0]))
    requires n.whole == [] ==> n.Tail() != [] && n.Tail()[0] == '.'
    ensures var s := n.ToText() + rest;
      && SignLength(s) == |n.sign| && DigitCount(s[|n.sign|..]) == |n.whole|
      && s[|n.sign|..][..|n.whole|] == n.whole && s[|n.sign| + |n.whole|..] == n.Tail() + rest
      && s != [] && (s[0] == '-' <==> n.sign == "-")
  {
    hide DigitCount;
    hide Numeral.Tail;
    var s := n.ToText() + rest;
    var u := n.whole + (n.Tail() + rest);
    assert s == n.sign + u;
    SignThen(n.sign, u);
    DigitsThenEnd(n.whole, n.Tail() + rest);
    assert s[|n.sign| + |n.whole|..] == u[|n.whole|..];
  }

  lemma RealIsRead(n: Numeral, rest: Text)
    requires n.Ok() && n.Real?() && Stops(n, rest)
    ensures ReadNumber(n.ToText() + rest) == Hit([n.ToAction()], rest)
  {
    hide DigitCount;
    hide RealTail;
    hide NoDigits;
    hide Stops;
    hide RealLength;
    hide JsonReader.Int64;
    hide JsonReader.Uint64;
    var s := n.ToText() + rest;
    TailIsRead(n, rest);
    WholeOrPoint(n);
    NumeralShape(n, rest);
    RealBehindDigits(s);
    assert RealLength(s) == |n.ToText()|;
    assert s[..|n.ToText()|] == n.ToText() && s[|n.ToText()|..] == rest;
  }

  lemma WholeOrPoint(n: Numeral)
    requires n.WellFormed()
    ensures n.whole == [] && n.exponent.None? ==> n.point
    ensures n.whole == [] ==> n.Tail() != [] && n.Tail()[0] == '.'
  {
  }

  /** What the productions of integers make of a sign and digits. */
  lemma IntegerOutcome(s: Text, sign: Text, whole: Text, rest: Text)
    requires IsSign(sign) && AllDigits(whole) && whole != [] && s != [] && (s[0] == '-' <==> sign == "-")
    requires SignLength(s) == |sign| && DigitCount(s[|sign|..]) == |whole|
    requires s[|sign|..][..|whole|] == whole && s[|sign| + |whole|..] == rest
    ensures var u: int := ValueOf(whole);
      var i := if sign == "-" then -u else u;
      && JsonReader.Int64(s) == (if INT64_MIN <= i <= INT64_MAX then Hit([NewInt(i)], rest) else Miss)
      && (sign == [] ==>
          JsonReader.Uint64(s) == if u <= 0xFFFF_FFFF_FFFF_FFFF then Hit([NewUint64(u)], rest) else Miss)
  {
    hide DigitCount;
    hide ValueOf;
    hide SignLength;
    if sign == [] {
      assert s[0..] == s;
    }
  }

  lemma IntegerIsRead(n: Numeral, rest: Text)
    requires n.Ok() && !n.Real?() && Stops(n, rest)
    ensures ReadNumber(n.ToText() + rest) == Hit([n.ToAction()], rest)
  {
    hide DigitCount;
    hide ValueOf;
    hide RealTail;
    hide NoDigits;
    hide RealLength;
    hide JsonReader.Int64;
    hide JsonReader.Uint64;
    hide SignLength;
    IntegerText(n, rest);
    hide Numeral.ToText;
    hide Numeral.Tail;
    var s := n.ToText() + rest;
    NumeralShape(n, rest);
    DigitsCount(rest);
    RealBehindDigits(s);
    IntegerOutcome(s, n.sign, n.whole, rest);
  }

  lemma IntegerText(n: Numeral, rest: Text)
    requires n.WellFormed() && !n.Real?()
    ensures n.Tail() + rest == rest && n.whole != []
  {
  }

  lemma NumeralIsRead(n: Numeral, rest: Text)
    requires n.Ok() && Stops(n, rest)
    ensures ReadNumber(n.ToText() + rest) == Hit([n.ToAction()], rest)
  {
    if n.Real?() {
      RealIsRead(n, rest);
    } else {
      IntegerIsRead(n, rest);
    }
  }

  lemma ExponentTaken(s: Text) returns (x: Option<Exponent>)
    requires ExponentLength(s) >= 0
    ensures s == ExponentText(x) + s[ExponentLength(s)..] && (ExponentLength(s) > 0 <==> x.Some?)
    ensures x.Some? ==>
      var y := x.value;
      (y.e == 'e' || y.e == 'E') && IsSign(y.sign) && AllDigits(y.digits) && y.digits != []
    ensures var rest := s[ExponentLength(s)..];
      rest == [] || !(if x.Some? then Digit(rest[0]) else rest[0] == 'e' || rest[0] == 'E')
  {
    hide DigitCount;
    x := None;
    if ExponentLength(s) > 0 {
      var sign := SignLength(s[1..]);
      var u := s[1 + sign..];
      var n := DigitCount(u);
      x := Some(Exponent(s[0], s[1..1 + sign], u[..n]));
      assert s == [s[0]] + s[1..1 + sign] + u[..n] + u[n..];
    }
  }

  lemma SignTaken(s: Text)
    ensures IsSign(s[..SignLength(s)])
    ensures s[..SignLength(s)] == "-" <==> SignLength(s) == 1 && s[0] == '-'
  {
  }

  /** The numeral of what makes a real of the digits before it, without those digits. */
  lemma TailTaken(t: Text) returns (n: Numeral)
    requires RealTail(t) > 0
    ensures n.sign == [] && n.whole == [] && n.Real?() && TailOk(n)
    ensures t == n.Tail() + t[RealTail(t)..] && Stops(n, t[RealTail(t)..])
    ensures !NoDigits(t) ==> n.fraction != []
  {
    hide DigitCount;
    hide ExponentLength;
    hide IsSign;
    hide ExponentText;
    var point := t[0] == '.';
    var frac := if point then DigitCount(t[1..]) else 0;
    var u := if point then t[1 + frac..] else t;
    assert t[0..] == t;
    var x := ExponentTaken(u);
    var rest := u[ExponentLength(u)..];
    n := Numeral([], [], point, if point then t[1..][..frac] else [], x);
    if point {
      assert t[1..][frac..] == u;
      EndOfDigits(t[1..], x);
      Split(t, 1, frac, ExponentText(x), rest);
      PointAndFraction(n, t[..1]);
    }
  }

  lemma PointAndFraction(n: Numeral, point: Text)
    requires n.point && point == "."
    ensures n.Tail() == point + n.fraction + ExponentText(n.exponent)
    ensures n.exponent.None? ==> n.Tail() == point + n.fraction
  {
  }

  lemma EndOfDigits(s: Text, x: Option<Exponent>)
    ensures var u := s[DigitCount(s)..]; u == [] || !Digit(u[0])
    ensures x.None? ==> ExponentText(x) == []
  {
  }

  /** All of a numeral but the sign and the digits in front of the point. */
  predicate TailOk(n: Numeral) {
    && AllDigits(n.fraction) && (n.point || n.fraction == [])
    && (n.exponent.Some? ==>
        var x := n.exponent.value;
        (x.e == 'e' || x.e == 'E') && IsSign(x.sign) && AllDigits(x.digits) && x.digits != [])
  }

  lemma WithDigits(tail: Numeral, sign: Text, whole: Text, rest: Text)
    requires tail.Real?() && TailOk(tail) && Stops(tail, rest)
    requires IsSign(sign) && AllDigits(whole) && whole + tail.fraction != []
    ensures var n := tail.(sign := sign, whole := whole);
      n.Ok() && n.Real?() && Stops(n, rest) && n.ToText() == sign + whole + tail.Tail()
  {
  }

  lemma Split(s: Text, i: nat, j: nat, tail: Text, rest: Text)
    requires i + j <= |s| && s[i + j..] == tail + rest
    ensures s == s[..i] + s[i..][..j] + tail + rest
    ensures s[..i] + s[i..][..j] + tail == s[..i + j + |tail|] && rest == s[i + j + |tail|..]
  {
    assert s == s[..i] + s[i..][..j] + s[i + j..];
  }

  lemma RealIsNumeral(s: Text) returns (n: Numeral)
    requires RealLength(s) > 0
    ensures n.Ok() && n.Real?() && s == n.ToText() + s[RealLength(s)..] && Stops(n, s[RealLength(s)..])
    ensures n.ToText() == s[..RealLength(s)]
  {
    hide DigitCount;
    hide RealLength;
    hide RealTail;
    hide NoDigits;
    hide IsSign;
    hide AllDigits;
    hide Stops;
    hide Numeral.Tail;
    hide Numeral.ToText;
    hide Numeral.Ok;
    hide TailOk;
    var sign := SignLength(s);
    var whole := DigitCount(s[sign..]);
    var t := s[sign + whole..];
    RealBehindDigits(s);
    SignTaken(s);
    var tail := TailTaken(t);
    var rest := t[RealTail(t)..];
    Split(s, sign, whole, tail.Tail(), rest);
    WithDigits(tail, s[..sign], s[sign..][..whole], rest);
    n := tail.(sign := s[..sign], whole := s[sign..][..whole]);
    assert |t| == |tail.Tail()| + |rest|;
  }

  lemma IntegerNumeral(sign: Text, whole: Text)
    requires IsSign(sign) && AllDigits(whole) && whole != []
    ensures var n := Numeral(sign, whole, false, [], None);
      n.WellFormed() && !n.Real?() && n.ToText() == sign + whole
  {
    assert sign + whole + [] == sign + whole;
    assert whole + [] == whole;
  }

  lemma IntegerHasDigits(s: Text)
    requires RealLength(s) == 0 && ReadNumber(s).Hit?
    ensures DigitCount(s[SignLength(s)..]) > 0
    ensures !JsonReader.Int64(s).Hit? ==> SignLength(s) == 0 && s[0..] == s
  {
    hide RealLength;
    DigitsCount(s);
    assert s[0..] == s;
  }

  lemma IntegerIsNumeral(s: Text) returns (n: Numeral)
    requires RealLength(s) == 0 && ReadNumber(s).Hit?
    ensures n.Ok() && s == n.ToText() + ReadNumber(s).rest && Stops(n, ReadNumber(s).rest)
    ensures ReadNumber(s).actions == [n.ToAction()]
  {
    hide DigitCount;
    hide RealLength;
    hide RealTail;
    hide ValueOf;
    hide NoDigits;
    hide Numeral.ToText;
    hide Numeral.WellFormed;
    hide Numeral.Tail;
    hide AllDigits;
    hide JsonReader.Int64;
    hide JsonReader.Uint64;
    var sign := SignLength(s);
    var u := s[sign..];
    var whole := DigitCount(u);
    IntegerHasDigits(s);
    SignTaken(s);
    RealBehindDigits(s);
    n := Numeral(s[..sign], u[..whole], false, [], None);
    EndOfDigits(u, None);
    assert u[whole..] == s[sign + whole..] && s == s[..sign] + u[..whole] + u[whole..];
    IntegerNumeral(s[..sign], u[..whole]);
    IntegerOutcome(s, s[..sign], u[..whole], u[whole..]);
  }

  lemma NumberIsNumeral(s: Text) returns (n: Numeral)
    requires ReadNumber(s).Hit?
    ensures n.Ok() && s == n.ToText() + ReadNumber(s).rest && Stops(n, ReadNumber(s).rest)
    ensures ReadNumber(s).actions == [n.ToAction()]
  {
    hide RealLength;
    hide JsonReader.Int64;
    hide JsonReader.Uint64;
    hide Numeral.Ok;
    hide Stops;
    if RealLength(s) > 0 {
      n := RealIsNumeral(s);
    } else {
      n := IntegerIsNumeral(s);
    }
  }

  // ---------------------------------------------------------------- strings

  lemma {:induction false} BodyIsLexed(body: Text, rest: Text)
    requires StringBody(body)
    ensures LexChars(body + ("\"" + rest)) == |body|
    decreases |body|
  {
    hide LexEscape;
    hide StringBody;
    hide LexChars;
    var s := body + ("\"" + rest);
    LexStep(s);
    if body != [] {
      OneLexed(body, rest);
      var n := LexEscape(s);
      BodyIsLexed(body[n..], rest);
      assert s[n..] == body[n..] + ("\"" + rest);
    }
  }

  lemma LexStep(s: Text)
    requires s != []
    ensures s[0] == '"' ==> LexChars(s) == 0
    ensures s[0] != '"' && LexEscape(s) > 0 ==> LexChars(s) == LexEscape(s) + LexChars(s[LexEscape(s)..])
  {
  }

  /** The first character, or escape, of a string. */
  lemma OneLexed(body: Text, rest: Text)
    requires body != [] && StringBody(body)
    ensures var n := LexEscape(body + ("\"" + rest)); 0 < n <= |body| && StringBody(body[n..]) && body[0] != '"'
  {
    var s := body + ("\"" + rest);
    assert forall i :: 0 <= i < |body| ==> s[i] == body[i];
    assert s[|body|] == '"';
  }

  /** A string is read up to the first quote that is not escaped. */
  lemma StringIsRead(body: Text, rest: Text)
    requires StringBody(body)
    ensures StringLength(Quoted(body) + rest) == |Quoted(body)|
    ensures (Quoted(body) + rest)[..|Quoted(body)|] == Quoted(body) && (Quoted(body) + rest)[|Quoted(body)|..] == rest
    ensures GetStr(Quoted(body)) == Substitute(body)
  {
    hide StringBody;
    hide LexChars;
    hide Substitute;
    var s := Quoted(body) + rest;
    assert s[1..] == body + ("\"" + rest);
    BodyIsLexed(body, rest);
    assert Quoted(body)[1..|Quoted(body)| - 1] == body;
  }

  lemma {:induction false} LexedIsBody(s: Text)
    ensures StringBody(s[..LexChars(s)])
    decreases |s|
  {
    if LexChars(s) > 0 {
      var n := LexEscape(s);
      var u := s[n..];
      LexedIsBody(u);
      assert s[..LexChars(s)][n..] == u[..LexChars(u)];
      OneTaken(s, u[..LexChars(u)]);
    }
  }

  lemma OneTaken(s: Text, more: Text)
    requires LexChars(s) > 0 && StringBody(more) && s[..LexChars(s)][LexEscape(s)..] == more
    ensures StringBody(s[..LexChars(s)])
  {
    hide LexChars;
    var t := s[..LexChars(s)];
    NotEmpty(s);
    assert t[0] == s[0] && t == s[..LexEscape(s)] + more;
  }

  lemma NotEmpty(s: Text)
    requires LexChars(s) > 0
    ensures 0 < LexEscape(s) <= LexChars(s) && s[0] != '"'
  {
  }

  lemma StringIsBody(s: Text) returns (body: Text)
    requires StringLength(s) > 0
    ensures StringBody(body) && s[..StringLength(s)] == Quoted(body) && s == Quoted(body) + s[StringLength(s)..]
  {
    hide StringBody;
    hide LexChars;
    body := s[1..][..LexChars(s[1..])];
    LexedIsBody(s[1..]);
    assert s[..StringLength(s)] == Quoted(body);
  }

  // ---------------------------------------------------------------- what the escapes in a string stand for

  /** A character, or an escape; the digits of hexadecimal ones come with their values. */
  datatype Piece = Plain(c: Char8) | Short(c: Char8) | Hex(digits: Text, values: seq<nat>)
                 | Unicode(digits: Text, values: seq<nat>)

  /** A hexadecimal digit in either case. */
  predicate DigitIs(c: Char8, n: nat) {
    n < 16 && (c == "0123456789abcdef"[n] || c == "0123456789ABCDEF"[n])
  }

  predicate DigitsAre(s: Text, ns: seq<nat>) {
    |s| == |ns| && forall i :: 0 <= i < |s| ==> DigitIs(s[i], ns[i])
  }

  predicate PieceOk(p: Piece) {
    match p
    case Plain(c) => c != '"' && c != '\\'
    case Short(c) =>
      c == '"' || c == '\\' || c == '/' || c == 'b' || c == 'f' || c == 'n' || c == 'r' || c == 't'
    case Hex(s, ns) => |s| == 2 && DigitsAre(s, ns) && ns[0] < 8
    case Unicode(s, ns) => |s| == 4 && DigitsAre(s, ns)
  }

  function PieceText(p: Piece): Text {
    match p
    case Plain(c) => [c]
    case Short(c) => ['\\', c]
    case Hex(s, _) => "\\x" + s
    case Unicode(s, _) => "\\u" + s
  }

  /** Of a number beyond 8 bits the lower ones are taken. */
  function PieceValue(p: Piece): Char8
    requires PieceOk(p)
  {
    match p
    case Plain(c) => c
    case Short('b') => '\U{8}'
    case Short('f') => '\U{c}'
    case Short('n') => '\n'
    case Short('r') => '\r'
    case Short('t') => '\t'
    case Short(c) => c
    case Hex(_, ns) => (ns[0] * 16 + ns[1]) as char
    case Unicode(_, ns) => ((ns[0] * 4096 + ns[1] * 256 + ns[2] * 16 + ns[3]) % 256) as char
  }

  function PiecesText(ps: seq<Piece>): Text {
    if ps == [] then [] else PieceText(ps[0]) + PiecesText(ps[1..])
  }

  predicate PiecesOk(ps: seq<Piece>) {
    forall i :: 0 <= i < |ps| ==> PieceOk(ps[i])
  }

  function PiecesValue(ps: seq<Piece>): Text
    requires PiecesOk(ps)
  {
    if ps == [] then [] else [PieceValue(ps[0])] + PiecesValue(ps[1..])
  }

  lemma DigitIsRead(c: Char8, n: nat)
    requires DigitIs(c, n)
    ensures HexDigit(c) && HexToNum(c) == n && c != '"' && c != '\\' && (n < 8 ==> c <= '7')
  {
  }

  lemma DigitsAreOrdinary(s: Text, rest: Text)
    requires forall i :: 0 <= i < |s| ==> HexDigit(s[i])
    ensures StringBody(s + rest) == StringBody(rest)
  {
    if s == [] {
      assert s + rest == rest;
    } else {
      DigitsAreOrdinary(s[1..], rest);
      assert (s + rest)[1..] == s[1..] + rest;
    }
  }

  lemma PieceIsRead(p: Piece, rest: Text)
    requires PieceOk(p)
    ensures Substitute(PieceText(p) + rest) == [PieceValue(p)] + Substitute(rest)
    ensures StringBody(rest) ==> StringBody(PieceText(p) + rest)
  {
    match p {
      case Plain(c) =>
        PlainIsRead(c, rest);
        assert (PieceText(p) + rest)[1..] == rest;
      case Short(c) => ShortIsRead(c, rest);
      case Hex(s, ns) => HexIsRead(s, ns, rest);
      case Unicode(s, ns) => UnicodeEscapeIsRead(s, ns, rest);
    }
  }

  lemma ShortIsRead(c: Char8, rest: Text)
    requires PieceOk(Short(c))
    ensures Substitute(['\\', c] + rest) == [PieceValue(Short(c))] + Substitute(rest)
    ensures StringBody(rest) ==> StringBody(['\\', c] + rest)
  {
    hide Substitute;
    var t := ['\\', c] + rest;
    assert t[2..] == rest && t[0..] == t && t[1..][0] == c;
    SubstituteOne(t, 0);
  }

  lemma HexIsRead(s: Text, ns: seq<nat>, rest: Text)
    requires PieceOk(Hex(s, ns))
    ensures Substitute("\\x" + s + rest) == [PieceValue(Hex(s, ns))] + Substitute(rest)
    ensures StringBody(rest) ==> StringBody("\\x" + s + rest)
  {
    hide Substitute;
    var t := "\\x" + s + rest;
    DigitIsRead(s[0], ns[0]);
    DigitIsRead(s[1], ns[1]);
    assert t[4..] == rest && t[0..] == t && t[1..][0] == 'x' && t[1..][1] == s[0] && t[1..][2] == s[1];
    SubstituteOne(t, 0);
  }

  lemma UnicodeEscapeIsRead(s: Text, ns: seq<nat>, rest: Text)
    requires PieceOk(Unicode(s, ns))
    ensures Substitute("\\u" + s + rest) == [PieceValue(Unicode(s, ns))] + Substitute(rest)
    ensures StringBody(rest) ==> StringBody("\\u" + s + rest)
  {
    hide Substitute;
    hide UnicodeChar;
    hide HexDigit;
    var t := "\\u" + s + rest;
    NumberOfDigits(s, ns);
    DigitsAreOrdinary(s, rest);
    hide DigitIs;
    assert t[6..] == rest && t[0..] == t && t[1..][0] == 'u' && t[1..][1..5] == s && t[2..] == s + rest;
    SubstituteOne(t, 0);
  }

  lemma NumberOfDigits(s: Text, ns: seq<nat>)
    requires PieceOk(Unicode(s, ns))
    ensures UnicodeChar(s) == PieceValue(Unicode(s, ns)) && forall i :: 0 <= i < |s| ==> HexDigit(s[i])
  {
    hide HexToNum;
    hide HexDigit;
    forall i | 0 <= i < 4 ensures HexDigit(s[i]) && HexToNum(s[i]) == ns[i] {
      DigitIsRead(s[i], ns[i]);
    }
    hide DigitIs;
    hide DigitsAre;
  }

  /**
   * Of an escape that is none of these, or that the end of the string cuts off, nothing is read but the text behind.
   */
  lemma OtherEscapes(c: Char8, rest: Text)
    requires (c != 'x' && c != 'u' && !PieceOk(Short(c))) || (c == 'x' && |rest| < 2) || (c == 'u' && |rest| < 4)
    ensures Substitute(['\\', c] + rest) == Substitute(rest)
  {
    hide Substitute;
    var t := ['\\', c] + rest;
    assert t[2..] == rest && t[0..] == t && t[1..] == [c] + rest;
    SubstituteOne(t, 0);
  }

  /** What is no hexadecimal digit counts as 0. */
  lemma OtherDigits(c: Char8)
    ensures HexToNum(c) > 0 ==> HexDigit(c) && c != '0'
    ensures HexDigit(c) <==> exists n: nat :: DigitIs(c, n)
  {
    if HexDigit(c) {
      assert DigitIs(c, HexToNum(c));
    }
  }

  /** Every string of characters and escapes is read as the characters they stand for. */
  lemma {:induction false} PiecesAreRead(ps: seq<Piece>)
    requires PiecesOk(ps)
    ensures StringBody(PiecesText(ps)) && Substitute(PiecesText(ps)) == PiecesValue(ps)
  {
    hide Substitute;
    hide StringBody;
    hide PieceOk;
    hide PieceText;
    hide PieceValue;
    if ps == [] {
      SubstituteShort([]);
      EmptyBody();
    } else {
      PiecesAreRead(ps[1..]);
      PieceIsRead(ps[0], PiecesText(ps[1..]));
    }
  }

  lemma EmptyBody()
    ensures StringBody([])
  {
  }
}
