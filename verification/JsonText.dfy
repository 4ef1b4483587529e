// The text the writer writes for a value: a tree in the layout the options ask for, and how it is read.
module JsonTexts {
  import opened Basics
  import opened Decimals
  import opened JsonEscapes
  import opened JsonValues
  import opened JsonActions
  import opened JsonReader
  import opened JsonGrammar
  import opened JsonTokens
  import opened JsonParsing
  import opened JsonRoundTrip

  // ---------------------------------------------------------------- layout

  /** White space as blanks between tokens. */
  function Whites(s: Text): (bs: seq<Blank>)
    ensures |bs| == |s| && forall i :: 0 <= i < |s| ==> bs[i] == White(s[i])
  {
    seq(|s|, i requires 0 <= i < |s| => White(s[i]))
  }

  /** A new line, indented by four spaces for every level; nothing in compact text. */
  function Line(o: Options, level: nat): Text {
    if o.pretty_print || o.single_line_arrays then ['\n'] + seq(4 * level, _ => ' ') else []
  }

  function NumeralOf(n: int): Numeral {
    Numeral(if n < 0 then "-" else [], Decimal(if n < 0 then -n else n), false, [], None)
  }

  /**
   * A value as it is laid out: every item on a line of its own, one level deeper than the brackets, but for the arrays
   * that go on a single line; a space on both sides of the colons; no blanks at all in compact text.
   */
  function TreeOf(v: Value, o: Options, level: nat): Tree
    requires NoReals(v)
  {
    match v
    case Obj(ms) => ObjectTree(PairsOf(ms, o, level + 1), Whites(Line(o, level)))
    case Arr(vs) =>
      if o.single_line_arrays && forall v <- vs :: !v.Obj? && !v.Arr? then
        ArrayTree(ItemsOf(vs, o, level, Whites(" ")), Whites(" "))
      else
        ArrayTree(ItemsOf(vs, o, level + 1, Whites(Line(o, level + 1))), Whites(Line(o, level)))
    case Str(s) => StringTree(EscapeAll(s, o))
    case Bool(b) => if b then TrueTree else FalseTree
    case Int64(i) => NumberTree(NumeralOf(i))
    case Uint64(u) => NumberTree(NumeralOf(u))
    case Null => NullTree
  }

  function ItemsOf(vs: seq<Value>, o: Options, level: nat, before: seq<Blank>): seq<Item>
    requires ElementsNoReals(vs)
  {
    if vs == [] then [] else [Item(before, TreeOf(vs[0], o, level), [])] + ItemsOf(vs[1..], o, level, before)
  }

  function PairsOf(ms: seq<Member>, o: Options, level: nat): seq<Pair>
    requires MembersNoReals(ms)
  {
    if ms == [] then []
    else
      var space := Whites(if o.pretty_print || o.single_line_arrays then " " else []);
      [Pair(Whites(Line(o, level)), EscapeAll(ms[0].name, o), space, space, TreeOf(ms[0].value, o, level), [])]
      + PairsOf(ms[1..], o, level)
  }

  predicate ElementsNoReals(vs: seq<Value>) {
    forall v <- vs :: NoReals(v)
  }

  predicate MembersNoReals(ms: seq<Member>) {
    forall m <- ms :: NoReals(m.value)
  }

  lemma {:induction false} WhitesText(s: Text)
    requires forall i :: 0 <= i < |s| ==> s[i] == ' ' || s[i] == '\n'
    ensures BlanksText(Whites(s)) == s && BlanksOk(Whites(s))
  {
    if s != [] {
      WhitesText(s[1..]);
      assert Whites(s)[1..] == Whites(s[1..]);
      assert Whites(s) == [White(s[0])] + Whites(s[1..]);
    }
  }

  lemma {:induction false} SpacesAre(n: nat)
    ensures Spaces(n) == seq(4 * n, _ => ' ')
  {
    if n > 0 {
      SpacesAre(n - 1);
    }
  }

  lemma LineText(o: Options, level: nat)
    ensures Line(o, level) == NewLine(o) + Indent(o, level)
    ensures BlanksText(Whites(Line(o, level))) == Line(o, level) && BlanksOk(Whites(Line(o, level)))
  {
    SpacesAre(level);
    WhitesText(Line(o, level));
  }

  lemma SpaceText(o: Options)
    ensures BlanksText(Whites(JsonValues.Space(o))) == JsonValues.Space(o) && BlanksOk(Whites(JsonValues.Space(o)))
    ensures BlanksText(Whites(" ")) == " " && BlanksOk(Whites(" "))
  {
    WhitesText(JsonValues.Space(o));
    WhitesText(" ");
  }

  // ---------------------------------------------------------------- what is written is a tree

  lemma NumberText(n: int)
    requires INT64_MIN <= n <= 0xFFFF_FFFF_FFFF_FFFF
    ensures NumeralOf(n).Ok() && NumeralOf(n).ToText() == Number(n) && !NumeralOf(n).Real?()
    ensures NumeralOf(n).Integer() == n
  {
    hide Decimal;
    DecimalIsRead(if n < 0 then -n else n);
    var d := Decimal(if n < 0 then -n else n);
    assert d + [] == d && "-" + d + [] == "-" + d && [] + d == d;
  }

  lemma StringText(s: Text, o: Options)
    ensures StringBody(EscapeAll(s, o)) && Quoted(EscapeAll(s, o)) == Quote(s, o)
    ensures Substitute(EscapeAll(s, o)) == s
  {
    hide LexChars;
    var e := EscapeAll(s, o);
    EscapesAreLexed(s, o, []);
    LexedIsBody(e);
    assert e + [] == e && e[..|e|] == e;
    LexNothing();
    EscapesAreRead(s, o);
  }

  lemma LexNothing()
    ensures LexChars([]) == 0
  {
  }

  /** What the tree of a value has to do with the value and with its text. */
  ghost predicate IsTreeOf(t: Tree, v: Value, o: Options, level: nat) {
    && TreeOk(t) && TreeText(t) == Output(v, o, level)
    && TreeValue(t) == Normal(v) && TreeActions(t) == Events(Normal(v), o)
  }

  lemma LeafIsTree(v: Value, o: Options, level: nat)
    requires NoReals(v) && !Composite(v)
    ensures IsTreeOf(TreeOf(v, o, level), v, o, level)
  {
    hide Quote;
    hide Quoted;
    hide EscapeAll;
    hide StringBody;
    hide Substitute;
    hide Numeral.Ok;
    hide Numeral.ToText;
    hide Number;
    match v
    case Str(s) => StringText(s, o);
    case Int64(i) => NumberText(i);
    case Uint64(u) => NumberText(u);
    case _ =>
  }

  /** What the writer writes is a tree in that layout; its value is the value, integers by their number. */
  lemma {:induction false} OutputIsTree(v: Value, o: Options, level: nat)
    requires NoReals(v)
    ensures IsTreeOf(TreeOf(v, o, level), v, o, level)
    decreases v
  {
    match v {
      case Arr(vs) => ArrayIsTree(vs, o, level);
      case Obj(ms) => ObjectIsTree(ms, o, level);
      case _ => LeafIsTree(v, o, level);
    }
  }

  lemma {:induction false} ArrayIsTree(vs: seq<Value>, o: Options, level: nat)
    requires ElementsNoReals(vs)
    ensures IsTreeOf(TreeOf(Arr(vs), o, level), Arr(vs), o, level)
    decreases vs, 1
  {
    hide ItemsOf;
    hide BlanksText;
    hide BlanksOk;
    hide ItemsText;
    hide OutputElements;
    hide EventsOfElements;
    hide NormalElements;
    var y := LayoutOf(o, level, Inline(vs, o));
    LineText(o, level);
    LineText(o, level + 1);
    SpaceText(o);
    if o.single_line_arrays && forall v <- vs :: !v.Obj? && !v.Arr? {
      ElementsAreItems(vs, o, level, y, " ");
      Joined("[", y.after, OutputElements(vs, o, level, y), ItemsText(ItemsOf(vs, o, level, Whites(" "))), y.close,
             "]");
    } else {
      var before := Line(o, level + 1);
      ElementsAreItems(vs, o, level + 1, y, before);
      Joined("[", y.after, OutputElements(vs, o, level + 1, y), ItemsText(ItemsOf(vs, o, level + 1, Whites(before))),
             y.close, "]");
    }
  }

  lemma Joined(begin: Text, after: Text, items: Text, joined: Text, close: Text, end: Text)
    requires after + items == joined + after
    ensures begin + after + items + close + end == begin + joined + (after + close + end)
  {
    assert begin + after + items == begin + (after + items);
    assert begin + (joined + after) + close + end == begin + joined + (after + close + end);
  }

  lemma MoreItems(items: seq<Item>)
    ensures MoreItemsText(items) == (if items != [] then "," else "") + ItemsText(items)
  {
    hide ItemText;
    if items != [] {
      Assoc(",", ItemText(items[0]), MoreItemsText(items[1..]));
    }
  }

  lemma MorePairs(pairs: seq<Pair>)
    ensures MorePairsText(pairs) == (if pairs != [] then "," else "") + PairsText(pairs)
  {
    hide PairText;
    if pairs != [] {
      Assoc(",", PairText(pairs[0]), MorePairsText(pairs[1..]));
    }
  }

  /** Whether white space is blanks, and what it is in front of. */
  ghost predicate InFront(before: Text, y: Layout) {
    BlanksText(Whites(before)) == before == y.after + y.before && BlanksOk(Whites(before))
  }

  lemma {:induction false} ElementsAreItems(vs: seq<Value>, o: Options, level: nat, y: Layout, before: Text)
    requires ElementsNoReals(vs) && InFront(before, y)
    ensures var items := ItemsOf(vs, o, level, Whites(before));
      && ItemsOk(items) && ItemsValue(items) == NormalElements(vs)
      && ItemsActions(items) == EventsOfElements(NormalElements(vs), o)
      && y.after + OutputElements(vs, o, level, y) == ItemsText(items) + y.after
    decreases vs, 0
  {
    hide TreeOf;
    hide Output;
    hide TreeText;
    hide TreeValue;
    hide TreeActions;
    hide TreeOk;
    hide Events;
    hide Normal;
    hide BlanksText;
    hide BlanksOk;
    var items := ItemsOf(vs, o, level, Whites(before));
    if vs == [] {
      assert y.after + OutputElements(vs, o, level, y) == ItemsText(items) + y.after;
    } else {
      var more := ItemsOf(vs[1..], o, level, Whites(before));
      OutputIsTree(vs[0], o, level);
      ElementsAreItems(vs[1..], o, level, y, before);
      assert items[0] == Item(Whites(before), TreeOf(vs[0], o, level), []) && items[1..] == more;
      ItemOfValue(items[0], before, Output(vs[0], o, level));
      MoreItems(more);
      NoItems(more, vs[1..]);
      NormalHead(vs);
      hide MoreItemsText;
      hide ItemText;
      Shifted(y, Output(vs[0], o, level), if |vs| > 1 then "," else "", OutputElements(vs[1..], o, level, y),
              ItemsText(more));
    }
  }

  lemma NoItems(items: seq<Item>, vs: seq<Value>)
    requires ItemsOk(items) && |ItemsValue(items)| == |NormalElements(vs)|
    ensures items == [] <==> vs == []
  {
  }

  lemma ItemOfValue(x: Item, before: Text, output: Text)
    requires BlanksText(x.before) == before && TreeText(x.tree) == output && x.after == []
    ensures ItemText(x) == before + output && (BlanksOk(x.before) ==> BlanksAroundOk(x))
  {
    hide TreeText;
    assert BlanksText([]) == [] && before + output + [] == before + output;
  }

  lemma Shifted(y: Layout, output: Text, comma: Text, more: Text, joined: Text)
    requires y.after + more == joined + y.after
    ensures y.after + (y.before + output + comma + y.after + more)
      == y.after + y.before + output + (comma + joined) + y.after
  {
    assert y.after + (y.before + output + comma + y.after + more)
        == y.after + y.before + output + comma + (y.after + more);
    assert y.after + y.before + output + (comma + joined) + y.after
        == y.after + y.before + output + comma + (joined + y.after);
  }

  lemma NormalHead(vs: seq<Value>)
    requires vs != []
    ensures NormalElements(vs)[0] == Normal(vs[0]) && NormalElements(vs)[1..] == NormalElements(vs[1..])
      && NormalElements(vs) != []
  {
    hide Normal;
  }

  lemma {:induction false} ObjectIsTree(ms: seq<Member>, o: Options, level: nat)
    requires MembersNoReals(ms)
    ensures IsTreeOf(TreeOf(Obj(ms), o, level), Obj(ms), o, level)
    decreases ms, 1
  {
    hide PairsOf;
    hide BlanksText;
    hide BlanksOk;
    hide PairsText;
    hide OutputMembers;
    hide EventsOfMembers;
    hide NormalMembers;
    var y := LayoutOf(o, level, false);
    LineText(o, level);
    LineText(o, level + 1);
    MembersArePairs(ms, o, level + 1, y);
    Joined("{", y.after, OutputMembers(ms, o, level + 1, y), PairsText(PairsOf(ms, o, level + 1)), y.close, "}");
  }

  lemma {:induction false} MembersArePairs(ms: seq<Member>, o: Options, level: nat, y: Layout)
    requires MembersNoReals(ms) && InFront(Line(o, level), y)
    ensures var pairs := PairsOf(ms, o, level);
      && PairsOk(pairs) && PairsValue(pairs) == NormalMembers(ms)
      && PairsActions(pairs) == EventsOfMembers(NormalMembers(ms), o)
      && y.after + OutputMembers(ms, o, level, y) == PairsText(pairs) + y.after
    decreases ms, 0
  {
    hide TreeOf;
    hide Output;
    hide OutputMember;
    hide TreeText;
    hide TreeValue;
    hide TreeActions;
    hide TreeOk;
    hide Events;
    hide Normal;
    hide BlanksText;
    hide BlanksOk;
    hide Line;
    hide Quote;
    hide Quoted;
    hide StringBody;
    hide EscapeAll;
    hide Substitute;
    var pairs := PairsOf(ms, o, level);
    if ms == [] {
      assert y.after + OutputMembers(ms, o, level, y) == PairsText(pairs) + y.after;
    } else {
      var more := PairsOf(ms[1..], o, level);
      OutputIsTree(ms[0].value, o, level);
      MembersArePairs(ms[1..], o, level, y);
      assert pairs[1..] == more;
      StringText(ms[0].name, o);
      PairOfMember(pairs[0], ms[0], o, level);
      MorePairs(more);
      NoPairs(more, ms[1..]);
      NormalMembersHead(ms);
      hide MorePairsText;
      hide PairText;
      Shifted(y, OutputMember(ms[0], o, level), if |ms| > 1 then "," else "", OutputMembers(ms[1..], o, level, y),
              PairsText(more));
    }
  }

  lemma NoPairs(pairs: seq<Pair>, ms: seq<Member>)
    requires PairsOk(pairs) && |PairsValue(pairs)| == |NormalMembers(ms)|
    ensures pairs == [] <==> ms == []
  {
  }

  lemma {:induction false} PairOfMember(p: Pair, m: Member, o: Options, level: nat)
    requires NoReals(m.value) && p == PairsOf([m], o, level)[0]
    requires TreeText(TreeOf(m.value, o, level)) == Output(m.value, o, level)
    ensures PairText(p) == Line(o, level) + OutputMember(m, o, level) && NameOk(p)
  {
    hide TreeText;
    hide TreeOf;
    hide Output;
    hide EscapeAll;
    hide Quote;
    hide Quoted;
    hide StringBody;
    LineText(o, level);
    hide Line;
    SpaceText(o);
    StringText(m.name, o);
    Nothing([]);
    assert BlanksOk([]);
    hide BlanksText;
    hide BlanksOk;
    var (b, q, s, t) := (Line(o, level), Quote(m.name, o), JsonValues.Space(o), Output(m.value, o, level));
    assert b + q + s + ":" + s + t + [] == b + (q + s + ":" + s + t);
  }

  lemma NormalMembersHead(ms: seq<Member>)
    requires ms != []
    ensures NormalMembers(ms) != [] && NormalMembers(ms)[0] == Member(ms[0].name, Normal(ms[0].value))
    ensures NormalMembers(ms)[1..] == NormalMembers(ms[1..])
  {
    hide Normal;
  }

  /** A tree without any blanks; inside strings there may be some. */
  predicate Bare(t: Tree) {
    match t
    case ArrayTree(items, close) => ItemsBare(items) && close == []
    case ObjectTree(pairs, close) => PairsBare(pairs) && close == []
    case _ => true
  }

  predicate ItemsBare(items: seq<Item>) {
    items == [] || (items[0].before == items[0].after == [] && Bare(items[0].tree) && ItemsBare(items[1..]))
  }

  predicate PairsBare(pairs: seq<Pair>) {
    pairs == [] ||
    (var p := pairs[0];
     p.before == p.colonBefore == p.colonAfter == p.after == [] && Bare(p.tree) && PairsBare(pairs[1..]))
  }

  /** Compact text has no blanks. */
  lemma {:induction false} CompactIsBare(v: Value, o: Options, level: nat)
    requires NoReals(v) && !o.pretty_print && !o.single_line_arrays
    ensures Bare(TreeOf(v, o, level))
    decreases v
  {
    match v {
      case Arr(vs) => ItemsAreBare(vs, o, level + 1);
      case Obj(ms) => PairsAreBare(ms, o, level + 1);
      case _ =>
    }
  }

  lemma {:induction false} ItemsAreBare(vs: seq<Value>, o: Options, level: nat)
    requires ElementsNoReals(vs) && !o.pretty_print && !o.single_line_arrays
    ensures ItemsBare(ItemsOf(vs, o, level, []))
    decreases vs
  {
    hide TreeOf;
    if vs != [] {
      CompactIsBare(vs[0], o, level);
      ItemsAreBare(vs[1..], o, level);
    }
  }

  lemma {:induction false} PairsAreBare(ms: seq<Member>, o: Options, level: nat)
    requires MembersNoReals(ms) && !o.pretty_print && !o.single_line_arrays
    ensures PairsBare(PairsOf(ms, o, level))
    decreases ms
  {
    hide TreeOf;
    if ms != [] {
      CompactIsBare(ms[0].value, o, level);
      PairsAreBare(ms[1..], o, level);
    }
  }

  // ---------------------------------------------------------------- and is read as one

  /** The type the reader tries first for an integer. */
  function IntegerOf(n: int): Value
    requires INT64_MIN <= n <= 0xFFFF_FFFF_FFFF_FFFF
  {
    if n <= INT64_MAX then Value.Int64(n) else Value.Uint64(n)
  }

  /** A number is read back, up to the text behind it, just when that text does not extend it. */
  lemma NumberIsRead(n: int, rest: Text, o: Options)
    requires INT64_MIN <= n <= 0xFFFF_FFFF_FFFF_FFFF
    ensures ReadNumber(Number(n) + rest) == Hit(Events(IntegerOf(n), o), rest) <==> !ExtendsNumber(rest)
  {
    hide ReadNumber;
    hide Number;
    hide ExtendsNumber;
    hide Numeral.ToText;
    hide Decimal;
    NumberText(n);
    if !ExtendsNumber(rest) {
      NumeralIsRead(NumeralOf(n), rest);
    }
    if ReadNumber(Number(n) + rest).Hit? {
      var m := NumberIsNumeral(Number(n) + rest);
    }
  }

  /** The text of a value is read as its depth-first actions, and nothing behind it is. */
  lemma ValueIsRead(v: Value, o: Options, level: nat, rest: Text)
    requires NoReals(v) && (v.Int64? || v.Uint64? ==> !ExtendsNumber(rest))
    ensures ReadValue(Output(v, o, level) + rest) == Hit(Events(Normal(v), o), rest)
  {
    hide ReadValue;
    hide Output;
    hide Events;
    hide Normal;
    hide TreeText;
    hide TreeActions;
    hide TreeValue;
    hide ExtendsNumber;
    OutputIsTree(v, o, level);
    TreeIsRead(TreeOf(v, o, level), rest);
  }
}
