// The actions of a value build it, and so do the actions of any text that is read.
module JsonRoundTrip {
  import opened Decimals
  import opened JsonEscapes
  import opened JsonValues
  import opened JsonActions
  import opened JsonReader
  import opened JsonGrammar
  import opened JsonTokens
  import opened JsonParsing

  /** The depth-first actions of a value. */
  function Events(v: Value, o: Options): seq<Action> {
    match v
    case Obj(ms) => [BeginObj] + EventsOfMembers(ms, o) + [EndObj]
    case Arr(vs) => [BeginArray] + EventsOfElements(vs, o) + [EndArray]
    case Str(s) => [NewStr(Quote(s, o))]
    case Bool(b) => [if b then NewTrue else NewFalse]
    case Int64(i) => [NewInt(i)]
    case Uint64(u) => [NewUint64(u)]
    case Real(text) => [NewReal(text)]
    case Null => [NewNull]
  }

  function EventsOfElements(vs: seq<Value>, o: Options): seq<Action> {
    if vs == [] then [] else Events(vs[0], o) + EventsOfElements(vs[1..], o)
  }

  function EventsOfMembers(ms: seq<Member>, o: Options): seq<Action> {
    if ms == [] then []
    else [NewName(Quote(ms[0].name, o))] + Events(ms[0].value, o) + EventsOfMembers(ms[1..], o)
  }

  // ---------------------------------------------------------------- the machine rebuilds every value

  /** The actions of a value, from wherever they start, add that very value. */
  lemma {:induction false} EventsBuild(v: Value, o: Options)
    ensures Builds(Events(v, o), v)
  {
    hide Builds;
    hide Fills;
    hide Fire;
    hide Quote;
    match v
    case Obj(ms) =>
      FillsNothing(Obj([]));
      MembersFill([], [], ms, o);
      assert [] + EventsOfMembers(ms, o) == EventsOfMembers(ms, o) && [] + ms == ms;
      FilledBuilds(BeginObj, Obj([]), EventsOfMembers(ms, o), EndObj, v);
    case Arr(vs) =>
      FillsNothing(Arr([]));
      ElementsFill([], [], vs, o);
      assert [] + EventsOfElements(vs, o) == EventsOfElements(vs, o) && [] + vs == vs;
      FilledBuilds(BeginArray, Arr([]), EventsOfElements(vs, o), EndArray, v);
    case _ => ScalarEventBuilds(v, o);
  }

  lemma ScalarEventBuilds(v: Value, o: Options)
    requires !Composite(v)
    ensures Builds(Events(v, o), v)
  {
    hide Builds;
    hide AddToCurrent;
    if v.Str? {
      QuoteIsRead(v.s, o, []);
    }
    ScalarBuilds(Events(v, o)[0], v);
  }

  lemma {:induction false} ElementsFill(actions: seq<Action>, xs: seq<Value>, vs: seq<Value>, o: Options)
    requires Fills(actions, Arr([]), Arr(xs))
    ensures Fills(actions + EventsOfElements(vs, o), Arr([]), Arr(xs + vs))
    decreases vs
  {
    hide Builds;
    hide Fills;
    hide Events;
    if vs == [] {
      assert actions + EventsOfElements(vs, o) == actions && xs + vs == xs;
    } else {
      EventsBuild(vs[0], o);
      FillsElement(actions, Arr([]), xs, Events(vs[0], o), vs[0]);
      ElementsFill(actions + Events(vs[0], o), xs + [vs[0]], vs[1..], o);
      assert actions + EventsOfElements(vs, o) == actions + Events(vs[0], o) + EventsOfElements(vs[1..], o);
      assert xs + vs == xs + [vs[0]] + vs[1..];
    }
  }

  lemma {:induction false} MembersFill(actions: seq<Action>, xs: seq<Member>, ms: seq<Member>, o: Options)
    requires Fills(actions, Obj([]), Obj(xs))
    ensures Fills(actions + EventsOfMembers(ms, o), Obj([]), Obj(xs + ms))
    decreases ms
  {
    hide Builds;
    hide Fills;
    hide Events;
    hide Quote;
    hide GetStr;
    if ms == [] {
      assert actions + EventsOfMembers(ms, o) == actions && xs + ms == xs;
    } else {
      var (name, a) := (Quote(ms[0].name, o), Events(ms[0].value, o));
      EventsBuild(ms[0].value, o);
      QuoteIsRead(ms[0].name, o, []);
      FillsMember(actions, Obj([]), xs, name, a, ms[0].value);
      assert Member(GetStr(name), ms[0].value) == ms[0];
      MembersFill(actions + ([NewName(name)] + a), xs + [ms[0]], ms[1..], o);
      assert actions + EventsOfMembers(ms, o) == actions + ([NewName(name)] + a) + EventsOfMembers(ms[1..], o);
      assert xs + ms == xs + [ms[0]] + ms[1..];
    }
  }

  // ---------------------------------------------------------------- reading any text builds its value

  lemma LeafBuilds(t: Tree)
    requires TreeOk(t) && !t.ArrayTree? && !t.ObjectTree?
    ensures Builds(TreeActions(t), TreeValue(t))
  {
    hide Builds;
    hide AddToCurrent;
    hide StringBody;
    hide Substitute;
    hide Numeral.Ok;
    if t.StringTree? {
      StringIsRead(t.body, []);
      QuotedLength(t.body);
    }
    ScalarBuilds(TreeActions(t)[0], TreeValue(t));
  }

  /** The actions of a tree, from wherever they start, add its value. */
  lemma {:induction false} TreeBuilds(t: Tree)
    requires TreeOk(t)
    ensures Builds(TreeActions(t), TreeValue(t))
    decreases t
  {
    hide Builds;
    hide Fills;
    hide Fire;
    match t {
      case ArrayTree(items, close) =>
        FillsNothing(Arr([]));
        ItemsFill([], [], items);
        assert [] + ItemsActions(items) == ItemsActions(items) && [] + ItemsValue(items) == ItemsValue(items);
        FilledBuilds(BeginArray, Arr([]), ItemsActions(items), EndArray, TreeValue(t));
      case ObjectTree(pairs, close) =>
        FillsNothing(Obj([]));
        PairsFill([], [], pairs);
        assert [] + PairsActions(pairs) == PairsActions(pairs) && [] + PairsValue(pairs) == PairsValue(pairs);
        FilledBuilds(BeginObj, Obj([]), PairsActions(pairs), EndObj, TreeValue(t));
      case _ => LeafBuilds(t);
    }
  }

  lemma {:induction false} ItemsFill(actions: seq<Action>, xs: seq<Value>, items: seq<Item>)
    requires ItemsOk(items) && Fills(actions, Arr([]), Arr(xs))
    ensures Fills(actions + ItemsActions(items), Arr([]), Arr(xs + ItemsValue(items)))
    decreases items
  {
    hide Builds;
    hide Fills;
    hide TreeActions;
    hide TreeValue;
    hide TreeOk;
    if items == [] {
      assert actions + ItemsActions(items) == actions && xs + ItemsValue(items) == xs;
    } else {
      var (a, x) := (TreeActions(items[0].tree), TreeValue(items[0].tree));
      TreeBuilds(items[0].tree);
      FillsElement(actions, Arr([]), xs, a, x);
      ItemsFill(actions + a, xs + [x], items[1..]);
      assert actions + ItemsActions(items) == actions + a + ItemsActions(items[1..]);
      assert xs + ItemsValue(items) == xs + [x] + ItemsValue(items[1..]);
    }
  }

  lemma {:induction false} PairsFill(actions: seq<Action>, ms: seq<Member>, pairs: seq<Pair>)
    requires PairsOk(pairs) && Fills(actions, Obj([]), Obj(ms))
    ensures Fills(actions + PairsActions(pairs), Obj([]), Obj(ms + PairsValue(pairs)))
    decreases pairs
  {
    hide Builds;
    hide Fills;
    hide TreeActions;
    hide TreeValue;
    hide TreeOk;
    hide Quoted;
    hide GetStr;
    hide Substitute;
    if pairs == [] {
      assert actions + PairsActions(pairs) == actions && ms + PairsValue(pairs) == ms;
    } else {
      var (name, a, x) := (Quoted(pairs[0].name), TreeActions(pairs[0].tree), TreeValue(pairs[0].tree));
      var m := Member(Substitute(pairs[0].name), x);
      TreeBuilds(pairs[0].tree);
      StringIsRead(pairs[0].name, []);
      QuotedLength(pairs[0].name);
      FillsMember(actions, Obj([]), ms, name, a, x);
      PairsFill(actions + ([NewName(name)] + a), ms + [m], pairs[1..]);
      assert actions + PairsActions(pairs) == actions + ([NewName(name)] + a) + PairsActions(pairs[1..]);
      assert ms + PairsValue(pairs) == ms + [m] + PairsValue(pairs[1..]);
    }
  }

  /** Whatever text is read, no assertion of the machine fails, its stack does not underflow, and a value is built. */
  lemma ReadBuilds(s: Text) returns (v: Value)
    ensures ReadValue(s).Hit? ==> Builds(ReadValue(s).actions, v)
  {
    hide Builds;
    hide ReadValue;
    v := Null;
    if ReadValue(s).Hit? {
      var _, t := ReadIsTree(s);
      TreeBuilds(t);
      v := TreeValue(t);
    }
  }
}
