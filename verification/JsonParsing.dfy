// What the reader reads: the texts of trees, and nothing else.
module JsonParsing {
  import opened Decimals
  import opened JsonEscapes
  import opened JsonValues
  import opened JsonActions
  import opened JsonReader
  import opened JsonGrammar
  import opened JsonTokens

  // ---------------------------------------------------------------- the text of a tree is read

  lemma BehindBlanks(bs: seq<Blank>, t: Text, actions: seq<Action>)
    requires BlanksOk(bs)
    ensures ReadValue(BlanksText(bs) + t) == ReadValue(t) && ReadPair(BlanksText(bs) + t) == ReadPair(t)
    ensures ReadElements(BlanksText(bs) + t, actions) == ReadElements(t, actions)
    ensures ReadMembers(BlanksText(bs) + t, actions) == ReadMembers(t, actions)
  {
    hide Skip;
    hide BlanksText;
    hide StringLength;
    hide ReadNumber;
    hide ReadArray;
    hide ReadObject;
    BlanksAreSkipped(bs, t);
  }

  /** Text that starts with neither white space nor what may be a comment. */
  predicate NoBlank(s: Text) {
    s == [] || !(IsSpace(s[0]) || s[0] == '/')
  }

  lemma NothingSkipped(s: Text)
    requires NoBlank(s)
    ensures Skip(s) == s
  {
    SkipOne(s);
  }

  /** A text that starts neither a string nor a number. */
  lemma NoScalar(s: Text)
    requires s != [] && s[0] != '"' && !Digit(s[0]) && s[0] != '-' && s[0] != '+' && s[0] != '.'
    ensures StringLength(s) == 0 && ReadNumber(s) == Miss
  {
    assert s[0..] == s;
  }

  lemma NoString(s: Text)
    requires s == [] || s[0] != '"'
    ensures StringLength(s) == 0
  {
  }

  /** Whether a text ends a value in front of it, with some blanks between them. */
  predicate EndsValue(t: Tree, after: seq<Blank>, u: Text) {
    t.NumberTree? && after == [] ==> Stops(t.n, u)
  }

  lemma BlanksEndValue(t: Tree, after: seq<Blank>, u: Text)
    requires BlanksOk(after) && EndsValue(t, after, u)
    ensures t.NumberTree? ==> Stops(t.n, BlanksText(after) + u)
  {
    hide Stops;
    if t.NumberTree? {
      if after == [] {
        assert BlanksText(after) + u == u;
      } else {
        BlanksEnd(after, u);
        EndsStopsAll(t.n, BlanksText(after) + u);
      }
    }
  }

  lemma EndsAnyValue(t: Tree, after: seq<Blank>, u: Text)
    requires Ends(u)
    ensures EndsValue(t, after, u)
  {
  }

  lemma BlanksEnd(bs: seq<Blank>, u: Text)
    requires BlanksOk(bs) && (bs == [] ==> Ends(u))
    ensures Ends(BlanksText(bs) + u)
  {
    if bs == [] {
      assert BlanksText(bs) + u == u;
    } else {
      assert BlankOk(bs[0]) && BlankText(bs[0]) != [];
      assert (BlanksText(bs) + u)[0] == BlankText(bs[0])[0];
    }
  }

  lemma ItemTextThen(x: Item, u: Text)
    ensures ItemText(x) + u == BlanksText(x.before) + (TreeText(x.tree) + (BlanksText(x.after) + u))
  {
    hide BlanksText;
    hide TreeText;
    Regroup(BlanksText(x.before), TreeText(x.tree), BlanksText(x.after), u);
  }

  lemma PairTextThen(p: Pair, u: Text)
    ensures PairText(p) + u
      == BlanksText(p.before) + (Quoted(p.name) + (BlanksText(p.colonBefore) + (":" + (BlanksText(p.colonAfter)
         + (TreeText(p.tree) + (BlanksText(p.after) + u))))))
  {
    hide BlanksText;
    hide TreeText;
    hide Quoted;
    var (b, n, c, d) := (BlanksText(p.before), Quoted(p.name), BlanksText(p.colonBefore), BlanksText(p.colonAfter));
    Regroup(b + n + c + ":", d, TreeText(p.tree), BlanksText(p.after));
    Assoc(b + n + c + ":", d + (TreeText(p.tree) + BlanksText(p.after)), u);
    Regroup(d, TreeText(p.tree), BlanksText(p.after), u);
    Assoc(d, TreeText(p.tree), BlanksText(p.after));
    Regroup(b, n, c, ":");
    Assoc(b, n + (c + ":"), d + (TreeText(p.tree) + (BlanksText(p.after) + u)));
    Assoc(n, c + ":", d + (TreeText(p.tree) + (BlanksText(p.after) + u)));
    Assoc(c, ":", d + (TreeText(p.tree) + (BlanksText(p.after) + u)));
  }

  lemma Assoc(a: Text, b: Text, c: Text)
    ensures a + b + c == a + (b + c)
  {
  }

  /** The text of a tree is read as its actions, and nothing behind it is. */
  lemma {:induction false} TreeIsRead(t: Tree, rest: Text)
    requires TreeOk(t) && (t.NumberTree? ==> Stops(t.n, rest))
    ensures ReadValue(TreeText(t) + rest) == Hit(TreeActions(t), rest)
    decreases t, 1
  {
    hide ReadValue;
    hide StringBody;
    hide Stops;
    hide Numeral.Ok;
    hide Numeral.ToText;
    hide Quoted;
    hide ItemsText;
    hide PairsText;
    hide BlanksText;
    hide ItemsActions;
    hide PairsActions;
    match t {
      case StringTree(body) => TextOfString(body, rest);
      case NumberTree(n) => TextOfNumber(n, rest);
      case ArrayTree(items, close) =>
        Enclosed("[", ItemsText(items), BlanksText(close) + "]", rest);
        BracketStarts("[", ItemsText(items) + (BlanksText(close) + "]") + rest);
        ArrayIsRead(items, close, rest);
      case ObjectTree(pairs, close) =>
        Enclosed("{", PairsText(pairs), BlanksText(close) + "}", rest);
        BracketStarts("{", PairsText(pairs) + (BlanksText(close) + "}") + rest);
        ObjectIsRead(pairs, close, rest);
      case _ => WordIsRead(t, rest);
    }
  }

  lemma Enclosed(begin: Text, items: Text, end: Text, rest: Text)
    ensures begin + items + end + rest == begin + (items + end + rest)
  {
  }

  lemma TextOfString(body: Text, rest: Text)
    requires StringBody(body)
    ensures ReadValue(Quoted(body) + rest) == Hit([NewStr(Quoted(body))], rest)
  {
    hide Skip;
    hide StringLength;
    hide ReadNumber;
    hide ReadArray;
    hide ReadObject;
    StringIsRead(body, rest);
    QuotedHead(body, rest);
    QuotedLength(body);
    hide Quoted;
  }

  lemma TextOfNumber(n: Numeral, rest: Text)
    requires n.Ok() && Stops(n, rest)
    ensures ReadValue(n.ToText() + rest) == Hit([n.ToAction()], rest)
  {
    hide Skip;
    hide StringLength;
    hide ReadNumber;
    hide ReadArray;
    hide ReadObject;
    hide Stops;
    hide Numeral.Ok;
    NumeralHead(n, rest);
    NoString(n.ToText() + rest);
    NumeralIsRead(n, rest);
  }

  /** A text that starts like a number is read as one, or not at all. */
  lemma NumberOrNothing(s: Text)
    requires s != [] && (Digit(s[0]) || s[0] == '-' || s[0] == '+' || s[0] == '.')
    ensures ReadValue(s) == if ReadNumber(s).Hit? then ReadNumber(s) else Miss
  {
    hide Skip;
    hide StringLength;
    hide ReadNumber;
    hide ReadArray;
    hide ReadObject;
    NothingSkipped(s);
    NoString(s);
  }

  lemma BracketStarts(bracket: Text, s: Text)
    requires bracket == "[" || bracket == "{"
    ensures ReadValue(bracket + s) == if bracket == "[" then ReadArray(s) else ReadObject(s)
  {
    hide Skip;
    hide StringLength;
    hide ReadNumber;
    hide ReadArray;
    hide ReadObject;
    NoScalar(bracket + s);
    NothingSkipped(bracket + s);
    assert (bracket + s)[1..] == s;
  }

  lemma WordIsRead(t: Tree, rest: Text)
    requires t.TrueTree? || t.FalseTree? || t.NullTree?
    ensures ReadValue(TreeText(t) + rest) == Hit(TreeActions(t), rest)
  {
    hide Skip;
    hide StringLength;
    hide ReadNumber;
    hide ReadArray;
    hide ReadObject;
    NoScalar(TreeText(t) + rest);
    NothingSkipped(TreeText(t) + rest);
  }

  lemma QuotedHead(body: Text, rest: Text)
    ensures Quoted(body) + rest != [] && (Quoted(body) + rest)[0] == '"'
    ensures Skip(Quoted(body) + rest) == Quoted(body) + rest
  {
    NothingSkipped(Quoted(body) + rest);
  }

  lemma NumeralHead(n: Numeral, rest: Text)
    requires n.Ok()
    ensures var s := n.ToText() + rest;
      s != [] && (Digit(s[0]) || s[0] == '-' || s[0] == '+' || s[0] == '.') && Skip(s) == s
  {
    WholeOrPoint(n);
    NothingSkipped(n.ToText() + rest);
  }

  lemma {:induction false} ArrayIsRead(items: seq<Item>, close: seq<Blank>, rest: Text)
    requires ItemsOk(items) && BlanksOk(close)
    ensures ReadArray(ItemsText(items) + (BlanksText(close) + "]") + rest)
         == Hit([BeginArray] + ItemsActions(items) + [EndArray], rest)
    decreases items, 2
  {
    hide ReadElements;
    hide ReadArray;
    hide ItemsText;
    hide ItemsActions;
    hide BlanksText;
    var u := BlanksText(close) + ("]" + rest);
    assert ItemsText(items) + (BlanksText(close) + "]") + rest == ItemsText(items) + u;
    BlanksEnd(close, "]" + rest);
    EndsAnyItems(items, [], u);
    if items == [] {
      EmptyArray(u);
      BehindBlanks(close, "]" + rest, []);
      BracketIsNoValue("]" + rest);
      CloseAt(close, rest, [BeginArray], ']', EndArray, "not an array");
    } else {
      FirstItemIsRead(items, u);
      ElementsClose(close, rest, [BeginArray] + ItemsActions(items));
    }
  }

  lemma EndsAnyItems(items: seq<Item>, pairs: seq<Pair>, u: Text)
    requires Ends(u)
    ensures EndsItems(items, u) && EndsPairs(pairs, u)
  {
  }

  lemma EmptyArray(u: Text)
    ensures ItemsText([]) + u == u && [BeginArray] + ItemsActions([]) == [BeginArray]
    ensures ReadValue(u) == Miss ==> ReadArray(u) == Close(u, [BeginArray], ']', EndArray, "not an array")
  {
  }

  /** Text that cannot be the start of a value, nor of a name. */
  predicate StartsNoValue(s: Text) {
    NoBlank(s) && (s == [] ||
      !(s[0] == '"' || s[0] == '{' || s[0] == '[' || s[0] == 't' || s[0] == 'f' || s[0] == 'n' || Digit(s[0])
        || s[0] == '-' || s[0] == '+' || s[0] == '.'))
  }

  lemma BracketIsNoValue(s: Text)
    requires StartsNoValue(s)
    ensures ReadValue(s) == Miss && ReadPair(s) == Miss
  {
    NothingSkipped(s);
    if s != [] {
      NoScalar(s);
    }
  }

  lemma CloseAt(bs: seq<Blank>, rest: Text, actions: seq<Action>, c: Char8, end: Action, reason: string)
    requires BlanksOk(bs) && (c == ']' || c == '}')
    ensures Close(BlanksText(bs) + ([c] + rest), actions, c, end, reason) == Hit(actions + [end], rest)
  {
    hide Skip;
    BlanksAreSkipped(bs, [c] + rest);
    NothingSkipped([c] + rest);
    assert ([c] + rest)[1..] == rest;
  }

  lemma ElementsClose(close: seq<Blank>, rest: Text, actions: seq<Action>)
    requires BlanksOk(close)
    ensures ReadElements(BlanksText(close) + ("]" + rest), actions) == Hit(actions + [EndArray], rest)
  {
    hide Skip;
    hide Close;
    BlanksAreSkipped(close, "]" + rest);
    NothingSkipped("]" + rest);
    CloseAt(close, rest, actions, ']', EndArray, "not an array");
  }

  /** One element behind its comma, or first in its array. */
  lemma {:induction false} ItemIsRead(x: Item, u: Text)
    requires BlanksAroundOk(x) && TreeOk(x.tree) && EndsValue(x.tree, x.after, u)
    ensures ReadValue(ItemText(x) + u) == Hit(TreeActions(x.tree), BlanksText(x.after) + u)
    decreases x, 2
  {
    hide EndsValue;
    hide ReadValue;
    hide ItemText;
    hide Stops;
    hide Ends;
    hide BlanksText;
    ItemTextThen(x, u);
    BehindBlanks(x.before, TreeText(x.tree) + (BlanksText(x.after) + u), []);
    BlanksEndValue(x.tree, x.after, u);
    TreeIsRead(x.tree, BlanksText(x.after) + u);
  }

  lemma {:induction false} FirstItemIsRead(items: seq<Item>, tail: Text)
    requires ItemsOk(items) && items != [] && EndsItems(items, tail)
    ensures ReadArray(ItemsText(items) + tail) == ReadElements(tail, [BeginArray] + ItemsActions(items))
    decreases items, 1
  {
    hide EndsValue;
    hide ReadValue;
    hide ReadElements;
    hide ItemText;
    hide TreeActions;
    hide BlanksText;
    var x := items[0];
    var u := MoreItemsText(items[1..]) + tail;
    assert ItemsText(items) + tail == ItemText(x) + u;
    MoreItemsEnd(items, tail);
    ItemIsRead(x, u);
    BehindBlanks(x.after, u, [BeginArray] + TreeActions(x.tree));
    ItemsAreRead(items[1..], tail, [BeginArray] + TreeActions(x.tree));
    assert [BeginArray] + ItemsActions(items) == [BeginArray] + TreeActions(x.tree) + ItemsActions(items[1..]);
  }

  /** Whether a text ends the last of some items. */
  predicate EndsItems(items: seq<Item>, tail: Text) {
    items == [] || EndsValue(items[|items| - 1].tree, items[|items| - 1].after, tail)
  }

  predicate EndsPairs(pairs: seq<Pair>, tail: Text) {
    pairs == [] || EndsValue(pairs[|pairs| - 1].tree, pairs[|pairs| - 1].after, tail)
  }

  lemma MoreItemsEnd(items: seq<Item>, tail: Text)
    requires items != [] && EndsItems(items, tail)
    ensures EndsValue(items[0].tree, items[0].after, MoreItemsText(items[1..]) + tail) && EndsItems(items[1..], tail)
  {
    hide Stops;
    if |items| == 1 {
      assert MoreItemsText(items[1..]) + tail == tail;
    } else {
      EndsAnyValue(items[0].tree, items[0].after, MoreItemsText(items[1..]) + tail);
    }
  }

  lemma NextElement(s: Text, actions: seq<Action>)
    requires ReadValue(s).Hit?
    ensures ReadElements("," + s, actions) == ReadElements(ReadValue(s).rest, actions + ReadValue(s).actions)
  {
    hide ReadValue;
    hide Close;
    NothingSkipped("," + s);
    assert ("," + s)[1..] == s;
  }

  lemma NextMember(s: Text, actions: seq<Action>)
    requires ReadPair(s).Hit?
    ensures ReadMembers("," + s, actions) == ReadMembers(ReadPair(s).rest, actions + ReadPair(s).actions)
  {
    hide ReadPair;
    hide Close;
    NothingSkipped("," + s);
    assert ("," + s)[1..] == s;
  }

  /** Elements with commas in front of them are read one after the other, whatever follows. */
  lemma {:induction false} ItemsAreRead(items: seq<Item>, tail: Text, actions: seq<Action>)
    requires ItemsOk(items) && EndsItems(items, tail)
    ensures ReadElements(MoreItemsText(items) + tail, actions) == ReadElements(tail, actions + ItemsActions(items))
    decreases items, 0
  {
    hide EndsValue;
    hide ReadValue;
    hide ItemText;
    hide TreeActions;
    hide BlanksText;
    hide ReadElements;
    if items == [] {
      assert MoreItemsText(items) + tail == tail && actions + ItemsActions(items) == actions;
    } else {
      var x := items[0];
      var u := MoreItemsText(items[1..]) + tail;
      var s := MoreItemsText(items) + tail;
      assert s == "," + (ItemText(x) + u);
      MoreItemsEnd(items, tail);
      ItemIsRead(x, u);
      NextElement(ItemText(x) + u, actions);
      BehindBlanks(x.after, u, actions + TreeActions(x.tree));
      ItemsAreRead(items[1..], tail, actions + TreeActions(x.tree));
      assert actions + ItemsActions(items) == actions + TreeActions(x.tree) + ItemsActions(items[1..]);
    }
  }

  // the same for objects

  lemma {:induction false} ObjectIsRead(pairs: seq<Pair>, close: seq<Blank>, rest: Text)
    requires PairsOk(pairs) && BlanksOk(close)
    ensures ReadObject(PairsText(pairs) + (BlanksText(close) + "}") + rest)
         == Hit([BeginObj] + PairsActions(pairs) + [EndObj], rest)
    decreases pairs, 3
  {
    hide ReadMembers;
    hide ReadObject;
    hide PairsText;
    hide PairsActions;
    hide BlanksText;
    var u := BlanksText(close) + ("}" + rest);
    assert PairsText(pairs) + (BlanksText(close) + "}") + rest == PairsText(pairs) + u;
    BlanksEnd(close, "}" + rest);
    EndsAnyItems([], pairs, u);
    if pairs == [] {
      EmptyObject(u);
      BehindBlanks(close, "}" + rest, []);
      BracketIsNoValue("}" + rest);
      CloseAt(close, rest, [BeginObj], '}', EndObj, "not an object");
    } else {
      FirstPairIsRead(pairs, u);
      MembersClose(close, rest, [BeginObj] + PairsActions(pairs));
    }
  }

  lemma EmptyObject(u: Text)
    ensures PairsText([]) + u == u && [BeginObj] + PairsActions([]) == [BeginObj]
    ensures ReadPair(u) == Miss ==> ReadObject(u) == Close(u, [BeginObj], '}', EndObj, "not an object")
  {
  }

  lemma MembersClose(close: seq<Blank>, rest: Text, actions: seq<Action>)
    requires BlanksOk(close)
    ensures ReadMembers(BlanksText(close) + ("}" + rest), actions) == Hit(actions + [EndObj], rest)
  {
    hide Skip;
    hide Close;
    BlanksAreSkipped(close, "}" + rest);
    NothingSkipped("}" + rest);
    CloseAt(close, rest, actions, '}', EndObj, "not an object");
  }

  lemma {:induction false} PairIsRead(p: Pair, u: Text)
    requires NameOk(p) && TreeOk(p.tree) && EndsValue(p.tree, p.after, u)
    ensures ReadPair(PairText(p) + u) == Hit([NewName(Quoted(p.name))] + TreeActions(p.tree), BlanksText(p.after) + u)
    decreases p, 2
  {
    hide EndsValue;
    hide ReadValue;
    hide PairText;
    hide Stops;
    hide Ends;
    hide BlanksText;
    hide Quoted;
    hide StringBody;
    hide StringLength;
    hide Skip;
    var v := TreeText(p.tree) + (BlanksText(p.after) + u);
    var w := BlanksText(p.colonBefore) + (":" + (BlanksText(p.colonAfter) + v));
    PairTextThen(p, u);
    BehindBlanks(p.before, Quoted(p.name) + w, []);
    QuotedHead(p.name, w);
    StringIsRead(p.name, w);
    QuotedLength(p.name);
    BlanksAreSkipped(p.colonBefore, ":" + (BlanksText(p.colonAfter) + v));
    NothingSkipped(":" + (BlanksText(p.colonAfter) + v));
    assert (":" + (BlanksText(p.colonAfter) + v))[1..] == BlanksText(p.colonAfter) + v;
    BehindBlanks(p.colonAfter, v, []);
    BlanksEndValue(p.tree, p.after, u);
    TreeIsRead(p.tree, BlanksText(p.after) + u);
  }

  lemma QuotedLength(body: Text)
    ensures |Quoted(body)| >= 2
  {
  }

  lemma MorePairsEnd(pairs: seq<Pair>, tail: Text)
    requires pairs != [] && EndsPairs(pairs, tail)
    ensures EndsValue(pairs[0].tree, pairs[0].after, MorePairsText(pairs[1..]) + tail) && EndsPairs(pairs[1..], tail)
  {
    hide Stops;
    if |pairs| == 1 {
      assert MorePairsText(pairs[1..]) + tail == tail;
    } else {
      EndsAnyValue(pairs[0].tree, pairs[0].after, MorePairsText(pairs[1..]) + tail);
    }
  }

  lemma {:induction false} FirstPairIsRead(pairs: seq<Pair>, tail: Text)
    requires PairsOk(pairs) && pairs != [] && EndsPairs(pairs, tail)
    ensures ReadObject(PairsText(pairs) + tail) == ReadMembers(tail, [BeginObj] + PairsActions(pairs))
    decreases pairs, 1
  {
    hide EndsValue;
    hide ReadPair;
    hide ReadMembers;
    hide PairText;
    hide TreeActions;
    hide BlanksText;
    hide Quoted;
    var p := pairs[0];
    var a := [NewName(Quoted(p.name))] + TreeActions(p.tree);
    var u := MorePairsText(pairs[1..]) + tail;
    assert PairsText(pairs) + tail == PairText(p) + u;
    MorePairsEnd(pairs, tail);
    PairIsRead(p, u);
    BehindBlanks(p.after, u, [BeginObj] + a);
    PairsAreRead(pairs[1..], tail, [BeginObj] + a);
    assert [BeginObj] + PairsActions(pairs) == [BeginObj] + a + PairsActions(pairs[1..]);
  }

  lemma {:induction false} PairsAreRead(pairs: seq<Pair>, tail: Text, actions: seq<Action>)
    requires PairsOk(pairs) && EndsPairs(pairs, tail)
    ensures ReadMembers(MorePairsText(pairs) + tail, actions) == ReadMembers(tail, actions + PairsActions(pairs))
    decreases pairs, 0
  {
    hide EndsValue;
    hide ReadPair;
    hide PairText;
    hide TreeActions;
    hide BlanksText;
    hide Quoted;
    hide ReadMembers;
    if pairs == [] {
      assert MorePairsText(pairs) + tail == tail && actions + PairsActions(pairs) == actions;
    } else {
      var p := pairs[0];
      var a := [NewName(Quoted(p.name))] + TreeActions(p.tree);
      var u := MorePairsText(pairs[1..]) + tail;
      var s := MorePairsText(pairs) + tail;
      assert s == "," + (PairText(p) + u);
      MorePairsEnd(pairs, tail);
      PairIsRead(p, u);
      NextMember(PairText(p) + u, actions);
      BehindBlanks(p.after, u, actions + a);
      PairsAreRead(pairs[1..], tail, actions + a);
      assert actions + PairsActions(pairs) == actions + a + PairsActions(pairs[1..]);
    }
  }

  // ---------------------------------------------------------------- nothing else is read

  /** Whatever is read is the text of a tree, behind blanks, and its actions are those of the tree. */
  lemma {:induction false} ReadIsTree(s: Text) returns (bs: seq<Blank>, t: Tree)
    requires ReadValue(s).Hit?
    ensures BlanksOk(bs) && TreeOk(t) && (t.NumberTree? ==> Stops(t.n, ReadValue(s).rest))
    ensures s == BlanksText(bs) + (TreeText(t) + ReadValue(s).rest) && ReadValue(s).actions == TreeActions(t)
    decreases |s|, 0
  {
    hide Skip;
    hide StringLength;
    hide ReadNumber;
    hide ReadArray;
    hide ReadObject;
    hide BlanksText;
    hide ItemsText;
    hide PairsText;
    hide StringBody;
    hide Stops;
    hide Quoted;
    hide BlankOk;
    bs := OnlyBlanksAreSkipped(s);
    var u := Skip(s);
    if StringLength(u) > 0 {
      var body := StringIsBody(u);
      t := StringTree(body);
    } else if ReadNumber(u).Hit? {
      var n := NumberIsNumeral(u);
      t := NumberTree(n);
    } else if u[0] == '{' {
      var pairs, close := ObjectIsTree(u[1..]);
      t := ObjectTree(pairs, close);
      Behind(u, "{", PairsText(pairs), BlanksText(close) + "}", ReadValue(s).rest);
    } else if u[0] == '[' {
      var items, close := ArrayIsTree(u[1..]);
      t := ArrayTree(items, close);
      Behind(u, "[", ItemsText(items), BlanksText(close) + "]", ReadValue(s).rest);
    } else {
      t := if "true" <= u then TrueTree else if "false" <= u then FalseTree else NullTree;
    }
  }

  lemma Behind(u: Text, begin: Text, items: Text, end: Text, rest: Text)
    requires u != [] && begin == [u[0]] && u[1..] == items + end + rest
    ensures u == begin + items + end + rest
  {
    assert u == begin + u[1..];
  }

  lemma {:induction false} ArrayIsTree(s: Text) returns (items: seq<Item>, close: seq<Blank>)
    requires ReadArray(s).Hit?
    ensures ItemsOk(items) && BlanksOk(close)
    ensures s == ItemsText(items) + (BlanksText(close) + "]") + ReadArray(s).rest
    ensures ReadArray(s).actions == [BeginArray] + ItemsActions(items) + [EndArray]
    decreases |s|, 2
  {
    hide ReadValue;
    hide ReadElements;
    hide BlanksText;
    hide Close;
    if ReadValue(s).Hit? {
      var before, t := ReadIsTree(s);
      var a, rest := TreeActions(t), ReadValue(s).rest;
      var after, more;
      after, more, close := ElementsAreTrees(rest, [BeginArray] + a);
      items := [Item(before, t, after)] + more;
      OneItemMore(before, t, after, more);
      ItemGoesOn(items[0], s, rest, MoreItemsText(more), BlanksText(close) + "]", ReadArray(s).rest);
    } else {
      items := [];
      close := CloseIsThere(s, [BeginArray], ']', EndArray, "not an array");
      assert [BeginArray] + ItemsActions(items) == [BeginArray];
      assert ItemsText(items) + (BlanksText(close) + "]") == BlanksText(close) + "]";
    }
  }

  lemma OneItemMore(before: seq<Blank>, t: Tree, after: seq<Blank>, more: seq<Item>)
    requires BlanksOk(before) && TreeOk(t) && BlanksOk(after) && ItemsOk(more)
    ensures var items := [Item(before, t, after)] + more;
      && ItemsOk(items) && ItemsActions(items) == TreeActions(t) + ItemsActions(more)
      && ItemsText(items) == ItemText(items[0]) + MoreItemsText(more)
      && MoreItemsText(items) == "," + ItemText(items[0]) + MoreItemsText(more)
  {
    hide TreeOk;
    hide TreeActions;
    hide ItemText;
    hide BlanksOk;
    assert ([Item(before, t, after)] + more)[1..] == more;
  }

  lemma ItemGoesOn(x: Item, s: Text, rest: Text, more: Text, end: Text, tail: Text)
    requires s == BlanksText(x.before) + (TreeText(x.tree) + rest)
    requires rest == BlanksText(x.after) + (more + end + tail)
    ensures s == ItemText(x) + more + end + tail
  {
    hide BlanksText;
    hide TreeText;
    ItemTextThen(x, more + end + tail);
    hide ItemText;
    Enclosed(ItemText(x), more, end, tail);
  }

  lemma CloseIsThere(s: Text, actions: seq<Action>, c: Char8, end: Action, reason: string)
    returns (bs: seq<Blank>)
    requires Close(s, actions, c, end, reason).Hit?
    ensures BlanksOk(bs) && Close(s, actions, c, end, reason).actions == actions + [end]
    ensures s == BlanksText(bs) + [c] + Close(s, actions, c, end, reason).rest
  {
    hide Skip;
    hide BlanksText;
    hide BlankOk;
    bs := OnlyBlanksAreSkipped(s);
    assert Skip(s) == [c] + Skip(s)[1..];
    Assoc(BlanksText(bs), [c], Skip(s)[1..]);
  }

  /** What follows an element: blanks, more elements with commas in front of them, and the closing bracket. */
  lemma {:induction false} ElementsAreTrees(s: Text, actions: seq<Action>)
    returns (after: seq<Blank>, items: seq<Item>, close: seq<Blank>)
    requires ReadElements(s, actions).Hit?
    ensures BlanksOk(after) && ItemsOk(items) && BlanksOk(close)
    ensures s == BlanksText(after) + (MoreItemsText(items) + (BlanksText(close) + "]") + ReadElements(s, actions).rest)
    ensures ReadElements(s, actions).actions == actions + ItemsActions(items) + [EndArray]
    decreases |s|, 1
  {
    hide ReadValue;
    hide BlanksText;
    hide Close;
    hide Skip;
    var t := Skip(s);
    if t != [] && t[0] == ',' && ReadValue(t[1..]).Hit? {
      var rest := ReadValue(t[1..]).rest;
      var before, tree := ReadIsTree(t[1..]);
      var a := TreeActions(tree);
      after := OnlyBlanksAreSkipped(s);
      var after', more;
      after', more, close := ElementsAreTrees(rest, actions + a);
      items := [Item(before, tree, after')] + more;
      OneItemMore(before, tree, after', more);
      ItemGoesOn(items[0], t[1..], rest, MoreItemsText(more), BlanksText(close) + "]", ReadElements(s, actions).rest);
      CommaInFront(t, ItemText(items[0]), MoreItemsText(more), BlanksText(close) + "]", ReadElements(s, actions).rest);
      assert actions + a + ItemsActions(more) == actions + ItemsActions(items);
    } else {
      after, items := [], [];
      close := CloseIsThere(s, actions, ']', EndArray, "not an array");
      assert actions + ItemsActions(items) == actions;
      Nothing(BlanksText(close) + "]" + ReadElements(s, actions).rest);
      assert MoreItemsText(items) + (BlanksText(close) + "]") == BlanksText(close) + "]";
    }
  }

  lemma Nothing(s: Text)
    ensures BlanksText([]) + s == s
  {
  }

  lemma CommaInFront(t: Text, item: Text, more: Text, end: Text, rest: Text)
    requires t != [] && t[0] == ',' && t[1..] == item + more + end + rest
    ensures t == "," + item + more + end + rest
  {
    assert t == "," + t[1..];
  }

  // the same for objects

  lemma {:induction false} ObjectIsTree(s: Text) returns (pairs: seq<Pair>, close: seq<Blank>)
    requires ReadObject(s).Hit?
    ensures PairsOk(pairs) && BlanksOk(close)
    ensures s == PairsText(pairs) + (BlanksText(close) + "}") + ReadObject(s).rest
    ensures ReadObject(s).actions == [BeginObj] + PairsActions(pairs) + [EndObj]
    decreases |s|, 2
  {
    hide ReadPair;
    hide ReadMembers;
    hide BlanksText;
    hide Close;
    hide Quoted;
    if ReadPair(s).Hit? {
      var p := PairIsPair(s);
      var a, rest := [NewName(Quoted(p.name))] + TreeActions(p.tree), ReadPair(s).rest;
      var after, more;
      after, more, close := MembersArePairs(rest, [BeginObj] + a);
      var q := p.(after := after);
      pairs := [q] + more;
      OnePairMore(q, more);
      PairGoesOn(p, after, s, rest, MorePairsText(more), BlanksText(close) + "}", ReadObject(s).rest);
    } else {
      pairs := [];
      close := CloseIsThere(s, [BeginObj], '}', EndObj, "not an object");
      assert [BeginObj] + PairsActions(pairs) == [BeginObj];
      assert PairsText(pairs) + (BlanksText(close) + "}") == BlanksText(close) + "}";
    }
  }

  lemma OnePairMore(p: Pair, more: seq<Pair>)
    requires NameOk(p) && TreeOk(p.tree) && PairsOk(more)
    ensures var pairs := [p] + more;
      && PairsOk(pairs)
      && PairsActions(pairs) == [NewName(Quoted(p.name))] + TreeActions(p.tree) + PairsActions(more)
      && PairsText(pairs) == PairText(p) + MorePairsText(more)
      && MorePairsText(pairs) == "," + PairText(p) + MorePairsText(more)
  {
    hide TreeOk;
    hide TreeActions;
    hide PairText;
    hide NameOk;
    hide Quoted;
    assert ([p] + more)[1..] == more;
  }

  lemma PairGoesOn(p: Pair, after: seq<Blank>, s: Text, rest: Text, more: Text, end: Text, tail: Text)
    requires p.after == [] && s == PairText(p) + rest
    requires rest == BlanksText(after) + (more + end + tail)
    ensures s == PairText(p.(after := after)) + more + end + tail
  {
    hide TreeText;
    PairTextThen(p.(after := after), more + end + tail);
    PairTextThen(p, rest);
    Nothing(rest);
    hide BlanksText;
    hide PairText;
    Enclosed(PairText(p.(after := after)), more, end, tail);
  }

  lemma {:induction false} MembersArePairs(s: Text, actions: seq<Action>)
    returns (after: seq<Blank>, pairs: seq<Pair>, close: seq<Blank>)
    requires ReadMembers(s, actions).Hit?
    ensures BlanksOk(after) && PairsOk(pairs) && BlanksOk(close)
    ensures s == BlanksText(after) + (MorePairsText(pairs) + (BlanksText(close) + "}") + ReadMembers(s, actions).rest)
    ensures ReadMembers(s, actions).actions == actions + PairsActions(pairs) + [EndObj]
    decreases |s|, 1
  {
    hide ReadPair;
    hide BlanksText;
    hide Close;
    hide Skip;
    hide Quoted;
    var t := Skip(s);
    if t != [] && t[0] == ',' && ReadPair(t[1..]).Hit? {
      var rest := ReadPair(t[1..]).rest;
      var p := PairIsPair(t[1..]);
      var a := [NewName(Quoted(p.name))] + TreeActions(p.tree);
      after := OnlyBlanksAreSkipped(s);
      var after', more;
      after', more, close := MembersArePairs(rest, actions + a);
      var q := p.(after := after');
      pairs := [q] + more;
      OnePairMore(q, more);
      PairGoesOn(p, after', t[1..], rest, MorePairsText(more), BlanksText(close) + "}", ReadMembers(s, actions).rest);
      CommaInFront(t, PairText(q), MorePairsText(more), BlanksText(close) + "}", ReadMembers(s, actions).rest);
      assert actions + a + PairsActions(more) == actions + PairsActions(pairs);
    } else {
      after, pairs := [], [];
      close := CloseIsThere(s, actions, '}', EndObj, "not an object");
      assert actions + PairsActions(pairs) == actions;
      Nothing(BlanksText(close) + "}" + ReadMembers(s, actions).rest);
      assert MorePairsText(pairs) + (BlanksText(close) + "}") == BlanksText(close) + "}";
    }
  }

  lemma {:induction false} PairIsPair(s: Text) returns (p: Pair)
    requires ReadPair(s).Hit?
    ensures NameOk(p) && TreeOk(p.tree) && p.after == []
    ensures s == PairText(p) + ReadPair(s).rest
    ensures ReadPair(s).actions == [NewName(Quoted(p.name))] + TreeActions(p.tree)
    decreases |s|, 1
  {
    hide ReadValue;
    hide BlanksText;
    hide Skip;
    hide StringLength;
    hide StringBody;
    hide Quoted;
    hide BlankOk;
    var t := Skip(s);
    var before := OnlyBlanksAreSkipped(s);
    var body := StringIsBody(t);
    var u := t[StringLength(t)..];
    var colonBefore := OnlyBlanksAreSkipped(u);
    var v := Skip(u)[1..];
    var colonAfter, tree := ReadIsTree(v);
    p := Pair(before, body, colonBefore, colonAfter, tree, []);
    assert Skip(u) == ":" + v;
    PairTextThen(p, ReadPair(s).rest);
    Nothing(ReadPair(s).rest);
  }

  // ---------------------------------------------------------------- what is not read

  /** Behind an element only a comma and the closing bracket are read, be the next thing a value or another bracket. */
  lemma ArrayGoesOn(items: seq<Item>, rest: Text)
    requires ItemsOk(items) && items != [] && EndsItems(items, rest) && NoBlank(rest)
    requires rest == [] || (rest[0] != ',' && rest[0] != ']')
    ensures ReadValue("[" + (ItemsText(items) + rest)) == Throw("not an array")
  {
    hide ReadArray;
    hide ReadValue;
    hide ItemsText;
    hide ItemsActions;
    hide ItemsOk;
    BracketStarts("[", ItemsText(items) + rest);
    FirstItemIsRead(items, rest);
    NothingSkipped(rest);
  }

  /** An array without elements has nothing but blanks between its brackets. */
  lemma EmptyArrayGoesOn(bs: seq<Blank>, rest: Text)
    requires BlanksOk(bs) && StartsNoValue(rest) && (rest == [] || rest[0] != ']')
    ensures ReadValue("[" + (BlanksText(bs) + rest)) == Throw("not an array")
  {
    hide ReadValue;
    hide BlanksText;
    hide Skip;
    BracketStarts("[", BlanksText(bs) + rest);
    BehindBlanks(bs, rest, []);
    BracketIsNoValue(rest);
    BlanksAreSkipped(bs, rest);
    NothingSkipped(rest);
  }

  /** Behind a comma there has to be a value. */
  lemma CommaInVain(items: seq<Item>, bs: seq<Blank>, rest: Text)
    requires ItemsOk(items) && items != [] && BlanksOk(bs) && StartsNoValue(rest)
    ensures ReadValue("[" + (ItemsText(items) + ("," + (BlanksText(bs) + rest)))) == Throw("not an array")
  {
    hide ReadArray;
    hide ReadValue;
    hide ItemsText;
    hide ItemsActions;
    hide ItemsOk;
    hide BlanksText;
    hide Skip;
    var tail := "," + (BlanksText(bs) + rest);
    BracketStarts("[", ItemsText(items) + tail);
    EndsAnyItems(items, [], tail);
    FirstItemIsRead(items, tail);
    NothingSkipped(tail);
    assert tail[1..] == BlanksText(bs) + rest;
    BehindBlanks(bs, rest, []);
    BracketIsNoValue(rest);
  }

  lemma ObjectGoesOn(pairs: seq<Pair>, rest: Text)
    requires PairsOk(pairs) && pairs != [] && EndsPairs(pairs, rest) && NoBlank(rest)
    requires rest == [] || (rest[0] != ',' && rest[0] != '}')
    ensures ReadValue("{" + (PairsText(pairs) + rest)) == Throw("not an object")
  {
    hide ReadObject;
    hide ReadValue;
    hide PairsText;
    hide PairsActions;
    hide PairsOk;
    BracketStarts("{", PairsText(pairs) + rest);
    FirstPairIsRead(pairs, rest);
    NothingSkipped(rest);
  }

  /** A text that starts with no name. */
  lemma NoName(s: Text)
    requires NoBlank(s) && (s == [] || s[0] != '"')
    ensures ReadPair(s) == Miss
  {
    NothingSkipped(s);
    NoString(s);
  }

  lemma EmptyObjectGoesOn(bs: seq<Blank>, rest: Text)
    requires BlanksOk(bs) && NoBlank(rest) && (rest == [] || (rest[0] != '"' && rest[0] != '}'))
    ensures ReadValue("{" + (BlanksText(bs) + rest)) == Throw("not an object")
  {
    hide ReadValue;
    hide ReadPair;
    hide BlanksText;
    hide Skip;
    BracketStarts("{", BlanksText(bs) + rest);
    BehindBlanks(bs, rest, []);
    NoName(rest);
    BlanksAreSkipped(bs, rest);
    NothingSkipped(rest);
  }

  lemma CommaInVainInObject(pairs: seq<Pair>, bs: seq<Blank>, rest: Text)
    requires PairsOk(pairs) && pairs != [] && BlanksOk(bs) && NoBlank(rest) && (rest == [] || rest[0] != '"')
    ensures ReadValue("{" + (PairsText(pairs) + ("," + (BlanksText(bs) + rest)))) == Throw("not an object")
  {
    hide ReadObject;
    hide ReadValue;
    hide ReadPair;
    hide PairsText;
    hide PairsActions;
    hide PairsOk;
    hide BlanksText;
    hide Skip;
    var tail := "," + (BlanksText(bs) + rest);
    BracketStarts("{", PairsText(pairs) + tail);
    EndsAnyItems([], pairs, tail);
    FirstPairIsRead(pairs, tail);
    NothingSkipped(tail);
    assert tail[1..] == BlanksText(bs) + rest;
    BehindBlanks(bs, rest, []);
    NoName(rest);
  }

  /** What is wrong inside an array, at any of its elements, is wrong with the array. */
  lemma ThrowsInArray(items: seq<Item>, s: Text)
    requires ItemsOk(items) && ReadValue(s).Throw?
    ensures ReadValue("[" + (ItemsText(items) + ((if items != [] then "," else "") + s))) == ReadValue(s)
  {
    hide ReadArray;
    hide ReadValue;
    hide ItemsText;
    hide ItemsActions;
    hide ItemsOk;
    hide Skip;
    var tail := (if items != [] then "," else "") + s;
    BracketStarts("[", ItemsText(items) + tail);
    if items == [] {
      NoItemsYet(s);
    } else {
      EndsAnyItems(items, [], tail);
      FirstItemIsRead(items, tail);
      NothingSkipped(tail);
      assert tail[1..] == s;
    }
  }

  lemma NoItemsYet(s: Text)
    ensures ItemsText([]) + ("" + s) == s && PairsText([]) + ("" + s) == s
    ensures ReadValue(s).Throw? ==> ReadArray(s) == ReadValue(s)
    ensures ReadPair(s).Throw? ==> ReadObject(s) == ReadPair(s)
  {
    hide ReadValue;
    hide ReadPair;
  }

  /** What is wrong with a pair, at any place in an object, is wrong with the object. */
  lemma ThrowsInObject(pairs: seq<Pair>, s: Text)
    requires PairsOk(pairs) && ReadPair(s).Throw?
    ensures ReadValue("{" + (PairsText(pairs) + ((if pairs != [] then "," else "") + s))) == ReadPair(s)
  {
    hide ReadObject;
    hide ReadValue;
    hide ReadPair;
    hide PairsText;
    hide PairsActions;
    hide PairsOk;
    hide Skip;
    var tail := (if pairs != [] then "," else "") + s;
    BracketStarts("{", PairsText(pairs) + tail);
    if pairs == [] {
      NoItemsYet(s);
    } else {
      EndsAnyItems([], pairs, tail);
      FirstPairIsRead(pairs, tail);
      NothingSkipped(tail);
      assert tail[1..] == s;
    }
  }

  /** A name needs a colon, and a value behind it; what is wrong with the value is wrong with the pair. */
  lemma PairThrows(before: seq<Blank>, name: Text, bs: seq<Blank>, rest: Text)
    requires BlanksOk(before) && StringBody(name) && BlanksOk(bs) && NoBlank(rest)
    ensures var s := BlanksText(before) + (Quoted(name) + (BlanksText(bs) + rest));
      && (rest == [] || rest[0] != ':' ==> ReadPair(s) == Throw("no colon in pair"))
      && (rest != [] && rest[0] == ':' && ReadValue(rest[1..]) == Miss ==> ReadPair(s) == Throw("not a value"))
      && (rest != [] && rest[0] == ':' && ReadValue(rest[1..]).Throw? ==> ReadPair(s) == ReadValue(rest[1..]))
  {
    hide ReadValue;
    hide BlanksText;
    hide Quoted;
    hide StringBody;
    hide StringLength;
    hide Skip;
    var w := BlanksText(bs) + rest;
    BehindBlanks(before, Quoted(name) + w, []);
    QuotedHead(name, w);
    StringIsRead(name, w);
    QuotedLength(name);
    BlanksAreSkipped(bs, rest);
    NothingSkipped(rest);
  }
}
