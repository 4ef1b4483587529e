// The grammar of the JSON reader, as a recursive-descent parser: lib/json_spirit/json_spirit_reader_template.h:359-560.
// A production gives the actions it fires and the text that is left, does not match, or throws.
module JsonReader {
  import opened Basics
  import opened Decimals
  import opened JsonEscapes
  import opened JsonValues
  import opened JsonActions

  datatype Outcome = Hit(actions: seq<Action>, rest: Text) | Miss | Throw(reason: string)

  // ---------------------------------------------------------------- the skipper

  /** The text behind the end of a line. */
  function AfterLine(s: Text): (r: Text)
    ensures |r| <= |s|
  {
    if s == [] then s
    else if s[0] == '\n' then s[1..]
    else if s[0] == '\r' then if |s| > 1 && s[1] == '\n' then s[2..] else s[1..]
    else AfterLine(s[1..])
  }

  /** The text behind the end of a block comment; none when it has no end. */
  function AfterBlock(s: Text): (r: Option<Text>)
    ensures r.Some? ==> |r.value| <= |s|
  {
    if |s| < 2 then None
    else if s[0] == '*' && s[1] == '/' then Some(s[2..])
    else AfterBlock(s[1..])
  }

  /** Skips white space and comments. */
  function Skip(s: Text): (r: Text)
    ensures |r| <= |s|
    decreases |s|
  {
    if s == [] then s
    else if IsSpace(s[0]) then Skip(s[1..])
    else if |s| >= 2 && s[0] == '/' && s[1] == '/' then Skip(AfterLine(s[2..]))
    else if |s| >= 2 && s[0] == '/' && s[1] == '*' && AfterBlock(s[2..]).Some? then Skip(AfterBlock(s[2..]).value)
    else s
  }

  // ---------------------------------------------------------------- numbers

  function SignLength(s: Text): (n: nat)
    ensures n <= |s| && n <= 1
  {
    if s != [] && (s[0] == '+' || s[0] == '-') then 1 else 0
  }

  /** The length of the exponent a text starts with; 0 when there is none, negative when it has no digits. */
  function ExponentLength(s: Text): (n: int)
    ensures n <= |s|
  {
    if s == [] || (s[0] != 'e' && s[0] != 'E') then 0
    else
      var sign := SignLength(s[1..]);
      var n := DigitCount(s[1 + sign..]);
      if n == 0 then -1 else 1 + sign + n
  }

  /** The length of the number with a point or an exponent a text starts with; 0 when there is none. */
  function RealLength(s: Text): (r: nat)
    ensures r <= |s|
  {
    var sign := SignLength(s);
    var n := DigitCount(s[sign..]);
    var dot := sign + n < |s| && s[sign + n] == '.';
    var frac := if dot then DigitCount(s[sign + n + 1..]) else 0;
    var m := sign + n + if dot then 1 + frac else 0;
    var exp := ExponentLength(s[m..]);
    if n + frac == 0 || exp < 0 || (!dot && exp == 0) then 0 else m + exp
  }

  function Uint64(s: Text): Outcome {
    var n := DigitCount(s);
    if n > 0 && ValueOf(s[..n]) < 0x1_0000_0000_0000_0000 then Hit([NewUint64(ValueOf(s[..n]))], s[n..]) else Miss
  }

  function Int64(s: Text): Outcome {
    var sign := SignLength(s);
    var n := DigitCount(s[sign..]);
    var u: int := ValueOf(s[sign..][..n]);
    var i := if sign == 1 && s[0] == '-' then -u else u;
    if n > 0 && INT64_MIN <= i <= INT64_MAX then Hit([NewInt(i)], s[sign + n..]) else Miss
  }

  function ReadNumber(s: Text): (r: Outcome)
    ensures r.Hit? ==> |r.rest| < |s|
  {
    if RealLength(s) > 0 then Hit([NewReal(s[..RealLength(s)])], s[RealLength(s)..])
    else if Int64(s).Hit? then Int64(s)
    else Uint64(s)
  }

  // ---------------------------------------------------------------- values

  function ReadValue(s: Text): (r: Outcome)
    ensures r.Hit? ==> |r.rest| < |s|
    decreases |s|, 0
  {
    var t := Skip(s);
    if t == [] then Miss
    else if StringLength(t) > 0 then Hit([NewStr(t[..StringLength(t)])], t[StringLength(t)..])
    else if ReadNumber(t).Hit? then ReadNumber(t)
    else if t[0] == '{' then ReadObject(t[1..])
    else if t[0] == '[' then ReadArray(t[1..])
    else if "true" <= t then Hit([NewTrue], t[4..])
    else if "false" <= t then Hit([NewFalse], t[5..])
    else if "null" <= t then Hit([NewNull], t[4..])
    else Miss
  }

  /** The closing bracket behind some actions. */
  function Close(s: Text, actions: seq<Action>, c: Char8, end: Action, reason: string): (r: Outcome)
    ensures r.Hit? ==> |r.rest| < |s|
  {
    var t := Skip(s);
    if t != [] && t[0] == c then Hit(actions + [end], t[1..]) else Throw(reason)
  }

  /** The rest of an array, behind its opening bracket. */
  function ReadArray(s: Text): (r: Outcome)
    ensures r.Hit? ==> |r.rest| < |s|
    decreases |s|, 2
  {
    match ReadValue(s)
    case Throw(reason) => Throw(reason)
    case Miss => Close(s, [BeginArray], ']', EndArray, "not an array")
    case Hit(a, rest) => ReadElements(rest, [BeginArray] + a)
  }

  /** The rest of an array, behind an element. */
  function ReadElements(s: Text, actions: seq<Action>): (r: Outcome)
    ensures r.Hit? ==> |r.rest| < |s|
    decreases |s|, 1
  {
    var t := Skip(s);
    if t != [] && t[0] == ',' then
      match ReadValue(t[1..])
      case Throw(reason) => Throw(reason)
      case Miss => Close(s, actions, ']', EndArray, "not an array")
      case Hit(a, rest) => ReadElements(rest, actions + a)
    else Close(s, actions, ']', EndArray, "not an array")
  }

  function ReadPair(s: Text): (r: Outcome)
    ensures r.Hit? ==> |r.rest| < |s|
    decreases |s|, 1
  {
    var t := Skip(s);
    var n := StringLength(t);
    if n == 0 then Miss
    else
      var u := Skip(t[n..]);
      if u == [] || u[0] != ':' then Throw("no colon in pair")
      else match ReadValue(u[1..])
        case Throw(reason) => Throw(reason)
        case Miss => Throw("not a value")
        case Hit(a, rest) => Hit([NewName(t[..n])] + a, rest)
  }

  function ReadObject(s: Text): (r: Outcome)
    ensures r.Hit? ==> |r.rest| < |s|
    decreases |s|, 2
  {
    match ReadPair(s)
    case Throw(reason) => Throw(reason)
    case Miss => Close(s, [BeginObj], '}', EndObj, "not an object")
    case Hit(a, rest) => ReadMembers(rest, [BeginObj] + a)
  }

  function ReadMembers(s: Text, actions: seq<Action>): (r: Outcome)
    ensures r.Hit? ==> |r.rest| < |s|
    decreases |s|, 1
  {
    var t := Skip(s);
    if t != [] && t[0] == ',' then
      match ReadPair(t[1..])
      case Throw(reason) => Throw(reason)
      case Miss => Close(s, actions, '}', EndObj, "not an object")
      case Hit(a, rest) => ReadMembers(rest, actions + a)
    else Close(s, actions, '}', EndObj, "not an object")
  }

  /** A whole text: json_, and the skipper once more behind it. */
  function Read(s: Text): Outcome {
    match ReadValue(s)
    case Throw(reason) => Throw(reason)
    case Miss => Throw("not a value")
    case Hit(a, rest) => Hit(a, Skip(rest))
  }
}
