// The texts of JSON values as trees, white space and comments included: what the productions of
// lib/json_spirit/json_spirit_reader_template.h:446-506 and the skipper at 564-569 stand for, without parsing.
module JsonGrammar {
  import opened Basics
  import opened Decimals
  import opened JsonEscapes
  import opened JsonValues
  import opened JsonActions

  // ---------------------------------------------------------------- between the tokens

  /** A white-space character or a whole comment; the comment of a line has the end of the line with it. */
  datatype Blank = White(c: Char8) | LineComment(text: Text, end: Text) | BlockComment(text: Text)

  predicate BlankOk(b: Blank) {
    match b
    case White(c) => c == ' ' || c == '\t' || c == '\n' || c == '\U{b}' || c == '\U{c}' || c == '\r'
    case LineComment(text, end) =>
      (forall i :: 0 <= i < |text| ==> text[i] != '\n' && text[i] != '\r')
        && (end == "\n" || end == "\r" || end == "\r\n")
    case BlockComment(text) => forall i :: 0 < i < |text| ==> !(text[i - 1] == '*' && text[i] == '/')
  }

  function BlankText(b: Blank): Text {
    match b
    case White(c) => [c]
    case LineComment(text, end) => "//" + text + end
    case BlockComment(text) => "/*" + text + "*/"
  }

  predicate BlanksOk(bs: seq<Blank>) {
    forall b <- bs :: BlankOk(b)
  }

  function BlanksText(bs: seq<Blank>): Text {
    if bs == [] then [] else BlankText(bs[0]) + BlanksText(bs[1..])
  }

  // ---------------------------------------------------------------- numbers

  datatype Exponent = Exponent(e: Char8, sign: Text, digits: Text)

  datatype Numeral = Numeral(sign: Text, whole: Text, point: bool, fraction: Text, exponent: Option<Exponent>) {
    /** With a point or an exponent a number is a real. */
    predicate Real?() {
      point || exponent.Some?
    }

    predicate WellFormed() {
      && IsSign(sign) && AllDigits(whole) && AllDigits(fraction) && (point || fraction == [])
      && whole + fraction != []
      && (exponent.Some? ==>
          var x := exponent.value;
          (x.e == 'e' || x.e == 'E') && IsSign(x.sign) && AllDigits(x.digits) && x.digits != [])
    }

    /** The integer without a point and an exponent. */
    function Integer(): int
      requires WellFormed()
    {
      var u: int := ValueOf(whole);
      if sign == "-" then -u else u
    }

    /** Integers fit 64 bits, and with a sign 63. */
    predicate Ok() {
      && WellFormed()
      && (Real?() || INT64_MIN <= Integer() <= INT64_MAX || (sign == [] && Integer() <= 0xFFFF_FFFF_FFFF_FFFF))
    }

    /** What is behind the digits in front of the point. */
    function Tail(): Text {
      (if point then "." + fraction else []) + ExponentText(exponent)
    }

    function ToText(): Text {
      sign + whole + Tail()
    }

    function ToValue(): Value
      requires Ok()
    {
      if Real?() then Real(ToText()) else if Integer() <= INT64_MAX then Int64(Integer()) else Uint64(Integer())
    }

    function ToAction(): Action
      requires Ok()
    {
      if Real?() then NewReal(ToText())
      else if Integer() <= INT64_MAX then NewInt(Integer())
      else NewUint64(Integer())
    }
  }

  predicate IsSign(s: Text) {
    s == [] || s == "+" || s == "-"
  }

  function ExponentText(x: Option<Exponent>): Text {
    match x
    case None => []
    case Some(y) => [y.e] + y.sign + y.digits
  }

  // ---------------------------------------------------------------- strings

  /** Text that may stand between two quotes: every quote in it, and every backslash, is behind a backslash. */
  predicate StringBody(s: Text)
    decreases |s|
  {
    if s == [] then true
    else if s[0] == '"' then false
    else if s[0] != '\\' then StringBody(s[1..])
    else if |s| < 2 then false
    else if s[1] != 'x' && s[1] != 'X' then StringBody(s[2..])
    else if |s| < 3 || !HexDigit(s[2]) then false
    else if |s| < 4 || !HexDigit(s[3]) then StringBody(s[3..])
    else s[2] <= '7' && StringBody(s[4..])
  }

  function Quoted(body: Text): Text {
    "\"" + body + "\""
  }

  // ---------------------------------------------------------------- values

  datatype Tree =
    | StringTree(body: Text)
    | NumberTree(n: Numeral)
    | TrueTree
    | FalseTree
    | NullTree
    | ArrayTree(items: seq<Item>, close: seq<Blank>)
    | ObjectTree(pairs: seq<Pair>, close: seq<Blank>)

  /** A value in an array and the blanks on both sides of it. */
  datatype Item = Item(before: seq<Blank>, tree: Tree, after: seq<Blank>)

  /** A name, a colon and a value in an object, with the blanks on both sides of each. */
  datatype Pair = Pair(before: seq<Blank>, name: Text, colonBefore: seq<Blank>, colonAfter: seq<Blank>, tree: Tree,
                       after: seq<Blank>)

  predicate TreeOk(t: Tree) {
    match t
    case StringTree(body) => StringBody(body)
    case NumberTree(n) => n.Ok()
    case ArrayTree(items, close) => ItemsOk(items) && BlanksOk(close)
    case ObjectTree(pairs, close) => PairsOk(pairs) && BlanksOk(close)
    case _ => true
  }

  predicate ItemsOk(items: seq<Item>) {
    items == [] || (BlanksAroundOk(items[0]) && TreeOk(items[0].tree) && ItemsOk(items[1..]))
  }

  predicate PairsOk(pairs: seq<Pair>) {
    pairs == [] || (NameOk(pairs[0]) && TreeOk(pairs[0].tree) && PairsOk(pairs[1..]))
  }

  predicate BlanksAroundOk(x: Item) {
    BlanksOk(x.before) && BlanksOk(x.after)
  }

  /** All of a pair but its value. */
  predicate NameOk(p: Pair) {
    && BlanksOk(p.before) && StringBody(p.name) && BlanksOk(p.colonBefore) && BlanksOk(p.colonAfter)
    && BlanksOk(p.after)
  }

  function TreeText(t: Tree): Text {
    match t
    case StringTree(body) => Quoted(body)
    case NumberTree(n) => n.ToText()
    case TrueTree => "true"
    case FalseTree => "false"
    case NullTree => "null"
    case ArrayTree(items, close) => "[" + ItemsText(items) + (BlanksText(close) + "]")
    case ObjectTree(pairs, close) => "{" + PairsText(pairs) + (BlanksText(close) + "}")
  }

  function ItemText(x: Item): Text {
    BlanksText(x.before) + TreeText(x.tree) + BlanksText(x.after)
  }

  function PairText(p: Pair): Text {
    BlanksText(p.before) + Quoted(p.name) + BlanksText(p.colonBefore) + ":" + BlanksText(p.colonAfter)
    + TreeText(p.tree) + BlanksText(p.after)
  }

  /** Items with commas between them. */
  function ItemsText(items: seq<Item>): Text {
    if items == [] then [] else ItemText(items[0]) + MoreItemsText(items[1..])
  }

  /** Items with a comma in front of each. */
  function MoreItemsText(items: seq<Item>): Text {
    if items == [] then [] else "," + ItemText(items[0]) + MoreItemsText(items[1..])
  }

  function PairsText(pairs: seq<Pair>): Text {
    if pairs == [] then [] else PairText(pairs[0]) + MorePairsText(pairs[1..])
  }

  function MorePairsText(pairs: seq<Pair>): Text {
    if pairs == [] then [] else "," + PairText(pairs[0]) + MorePairsText(pairs[1..])
  }

  // ---------------------------------------------------------------- what a tree stands for

  function TreeValue(t: Tree): Value
    requires TreeOk(t)
  {
    match t
    case StringTree(body) => Str(Substitute(body))
    case NumberTree(n) => n.ToValue()
    case TrueTree => Bool(true)
    case FalseTree => Bool(false)
    case NullTree => Null
    case ArrayTree(items, close) => Arr(ItemsValue(items))
    case ObjectTree(pairs, close) => Obj(PairsValue(pairs))
  }

  function ItemsValue(items: seq<Item>): (vs: seq<Value>)
    requires ItemsOk(items)
  {
    if items == [] then [] else [TreeValue(items[0].tree)] + ItemsValue(items[1..])
  }

  function PairsValue(pairs: seq<Pair>): seq<Member>
    requires PairsOk(pairs)
  {
    if pairs == [] then []
    else [Member(Substitute(pairs[0].name), TreeValue(pairs[0].tree))] + PairsValue(pairs[1..])
  }

  /** The actions of the parts of a tree, in the order of the text. */
  function TreeActions(t: Tree): seq<Action>
    requires TreeOk(t)
  {
    match t
    case StringTree(body) => [NewStr(Quoted(body))]
    case NumberTree(n) => [n.ToAction()]
    case TrueTree => [NewTrue]
    case FalseTree => [NewFalse]
    case NullTree => [NewNull]
    case ArrayTree(items, close) => [BeginArray] + ItemsActions(items) + [EndArray]
    case ObjectTree(pairs, close) => [BeginObj] + PairsActions(pairs) + [EndObj]
  }

  function ItemsActions(items: seq<Item>): seq<Action>
    requires ItemsOk(items)
  {
    if items == [] then [] else TreeActions(items[0].tree) + ItemsActions(items[1..])
  }

  function PairsActions(pairs: seq<Pair>): seq<Action>
    requires PairsOk(pairs)
  {
    if pairs == [] then [] else [NewName(Quoted(pairs[0].name))] + TreeActions(pairs[0].tree) + PairsActions(pairs[1..])
  }
}
