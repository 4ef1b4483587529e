// JSON values, and what the text of a value is: lib/json_spirit/json_spirit_value.h,
// json_spirit_writer_template.h:153-294.
module JsonValues {
  import opened Decimals
  import opened JsonEscapes

  const INT64_MAX: int := 0x7FFF_FFFF_FFFF_FFFF
  const INT64_MIN: int := -0x8000_0000_0000_0000

  type int64_t = x: int | -0x8000_0000_0000_0000 <= x <= 0x7FFF_FFFF_FFFF_FFFF
  type uint64_t = x: int | 0 <= x <= 0xFFFF_FFFF_FFFF_FFFF

  /** Objects keep their members in order, duplicates included. A real is known by its text only. */
  datatype Value =
    | Obj(members: seq<Member>)
    | Arr(elements: seq<Value>)
    | Str(s: Text)
    | Bool(b: bool)
    | Int64(i: int64_t)
    | Uint64(u: uint64_t)
    | Real(text: Text)
    | Null

  datatype Member = Member(name: Text, value: Value)

  /** No reals anywhere in a value. */
  predicate NoReals(v: Value) {
    match v
    case Obj(ms) => forall m <- ms :: NoReals(m.value)
    case Arr(vs) => forall x <- vs :: NoReals(x)
    case Real(_) => false
    case _ => true
  }

  /** The value with every integer in the type the reader tries first. */
  function Normal(v: Value): Value {
    match v
    case Obj(ms) => Obj(NormalMembers(ms))
    case Arr(vs) => Arr(NormalElements(vs))
    case Uint64(u) => if u <= INT64_MAX then Int64(u) else v
    case _ => v
  }

  function NormalElements(vs: seq<Value>): seq<Value> {
    if vs == [] then [] else [Normal(vs[0])] + NormalElements(vs[1..])
  }

  function NormalMembers(ms: seq<Member>): seq<Member> {
    if ms == [] then [] else [Member(ms[0].name, Normal(ms[0].value))] + NormalMembers(ms[1..])
  }

  // ---------------------------------------------------------------- layout

  predicate Pretty(o: Options) {
    o.pretty_print || o.single_line_arrays
  }

  function Space(o: Options): Text {
    if Pretty(o) then " " else ""
  }

  function NewLine(o: Options): Text {
    if Pretty(o) then "\n" else ""
  }

  function Spaces(n: nat): Text {
    if n == 0 then "" else Spaces(n - 1) + "    "
  }

  function Indent(o: Options, level: nat): Text {
    if Pretty(o) then Spaces(level) else ""
  }

  predicate Composite(v: Value) {
    v.Obj? || v.Arr?
  }

  /** The arrays that go on a single line. */
  predicate Inline(vs: seq<Value>, o: Options) {
    o.single_line_arrays && forall v <- vs :: !Composite(v)
  }

  /** What goes before and after each item of an array or object, and before the closing bracket. */
  datatype Layout = Layout(open: Text, before: Text, after: Text, close: Text)

  function LayoutOf(o: Options, level: nat, inline: bool): Layout {
    if inline then Layout(Space(o), "", Space(o), "")
    else Layout(NewLine(o), Indent(o, level + 1), NewLine(o), Indent(o, level))
  }

  // ---------------------------------------------------------------- the text of a value

  function Number(n: int): Text {
    if n < 0 then "-" + Decimal(-n) else Decimal(n)
  }

  function Output(v: Value, o: Options, level: nat): Text {
    match v
    case Obj(ms) =>
      var y := LayoutOf(o, level, false);
      "{" + y.open + OutputMembers(ms, o, level + 1, y) + y.close + "}"
    case Arr(vs) =>
      var inline := Inline(vs, o);
      var y := LayoutOf(o, level, inline);
      "[" + y.open + OutputElements(vs, o, if inline then level else level + 1, y) + y.close + "]"
    case Str(s) => Quote(s, o)
    case Bool(b) => if b then "true" else "false"
    case Int64(i) => Number(i)
    case Uint64(u) => Number(u)
    case Real(text) => text
    case Null => "null"
  }

  function OutputElements(vs: seq<Value>, o: Options, level: nat, y: Layout): Text {
    if vs == [] then ""
    else
      y.before + Output(vs[0], o, level) + (if |vs| > 1 then "," else "") + y.after
        + OutputElements(vs[1..], o, level, y)
  }

  function OutputMember(m: Member, o: Options, level: nat): Text {
    Quote(m.name, o) + Space(o) + ":" + Space(o) + Output(m.value, o, level)
  }

  function OutputMembers(ms: seq<Member>, o: Options, level: nat, y: Layout): Text {
    if ms == [] then ""
    else
      var comma := if |ms| > 1 then "," else "";
      y.before + OutputMember(ms[0], o, level) + comma + y.after + OutputMembers(ms[1..], o, level, y)
  }
}
