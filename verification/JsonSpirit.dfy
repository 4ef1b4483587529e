// Writing a value to a string and reading one from it.
module JsonSpirit {
  import opened Basics
  import opened Decimals
  import opened JsonEscapes
  import opened JsonValues
  import opened JsonActions
  import opened JsonReader
  import opened JsonGrammar
  import opened JsonTokens
  import opened JsonParsing
  import opened JsonRoundTrip
  import opened JsonTexts

  /** Appends the text of values to a stream, in the layout the options ask for. */
  class Generator {
    const options: Options
    var os: Text
    var indentation_level: nat

    constructor (options: Options)
      ensures this.options == options && os == [] && indentation_level == 0
    {
      this.options := options;
      os := [];
      indentation_level := 0;
    }

    method Space()
      modifies this`os
      ensures os == old(os) + JsonValues.Space(options)
    {
      if Pretty(options) {
        os := os + " ";
      }
    }

    method NewLine()
      modifies this`os
      ensures os == old(os) + JsonValues.NewLine(options)
    {
      if Pretty(options) {
        os := os + "\n";
      }
    }

    method Indent()
      modifies this`os
      ensures os == old(os) + JsonValues.Indent(options, indentation_level)
    {
      if !Pretty(options) {
        return;
      }
      for i := 0 to indentation_level
        invariant os == old(os) + Spaces(i)
      {
        os := os + "    ";
      }
    }

    method OutputString(s: Text)
      modifies this`os
      ensures os == old(os) + Quote(s, options)
    {
      var escaped := AddEscChars(s, options);
      os := os + ("\"" + escaped + "\"");
    }

    static method ContainsCompositeElements(arr: seq<Value>) returns (r: bool)
      ensures r <==> exists v <- arr :: Composite(v)
    {
      for i := 0 to |arr|
        invariant forall j :: 0 <= j < i ==> !Composite(arr[j])
      {
        assert arr[i] in arr;
        if arr[i].Obj? || arr[i].Arr? {
          return true;
        }
      }
      return false;
    }

    method OutputValue(value: Value)
      modifies this
      ensures os == old(os) + Output(value, options, indentation_level) && indentation_level == old(indentation_level)
      decreases value, 2
    {
      match value
      case Obj(members) => OutputObject(members);
      case Arr(elements) => OutputArray(elements);
      case Str(s) => OutputString(s);
      case Bool(b) => os := os + if b then "true" else "false";
      case Int64(i) => os := os + Number(i);
      case Uint64(u) => os := os + Number(u);
      case Real(text) => os := os + text;
      case Null => os := os + "null";
    }

    method OutputPair(member: Member)
      modifies this
      ensures os == old(os) + OutputMember(member, options, indentation_level)
        && indentation_level == old(indentation_level)
      decreases member, 2
    {
      hide Output;
      hide Quote;
      OutputString(member.name);
      Space();
      os := os + ":";
      Space();
      OutputValue(member.value);
    }

    /** One element, and the comma behind it unless it is the last. */
    method OutputElement(elements: seq<Value>, i: nat)
      requires i < |elements|
      modifies this
      ensures os == old(os) + Output(elements[i], options, indentation_level) + (if i + 1 < |elements| then "," else "")
      ensures indentation_level == old(indentation_level)
      decreases elements, 0
    {
      hide Output;
      OutputValue(elements[i]);
      if i + 1 != |elements| {
        os := os + ",";
      } else {
        assert os == os + "";
      }
    }

    method OutputItem(members: seq<Member>, i: nat)
      requires i < |members|
      modifies this
      ensures os == old(os) + OutputMember(members[i], options, indentation_level)
        + (if i + 1 < |members| then "," else "")
      ensures indentation_level == old(indentation_level)
      decreases members, 0
    {
      hide OutputMember;
      OutputPair(members[i]);
      if i + 1 != |members| {
        os := os + ",";
      } else {
        assert os == os + "";
      }
    }

    method OutputArray(elements: seq<Value>)
      modifies this
      ensures os == old(os) + Output(Arr(elements), options, indentation_level)
        && indentation_level == old(indentation_level)
      decreases elements, 2
    {
      hide Output;
      var composite := ContainsCompositeElements(elements);
      if options.single_line_arrays && !composite {
        OutputInline(elements);
      } else {
        OutputLines(elements);
      }
    }

    method OutputInline(elements: seq<Value>)
      requires Inline(elements, options)
      modifies this
      ensures os == old(os) + Output(Arr(elements), options, indentation_level)
        && indentation_level == old(indentation_level)
      decreases elements, 1
    {
      hide JsonValues.OutputElements;
      ghost var y := LayoutOf(options, indentation_level, true);
      ghost var all := JsonValues.OutputElements(elements, options, indentation_level, y);
      os := os + "[";
      Space();
      ghost var start := os;
      assert elements[0..] == elements;
      for i := 0 to |elements|
        invariant indentation_level == old(indentation_level)
        invariant os + JsonValues.OutputElements(elements[i..], options, indentation_level, y) == start + all
      {
        ghost var before := os;
        ElementsStep(elements, i, options, indentation_level, y);
        OutputElement(elements, i);
        Space();
        Together(before, "", Output(elements[i], options, indentation_level), if i + 1 < |elements| then "," else "",
                 y.after,
                 JsonValues.OutputElements(elements[i + 1..], options, indentation_level, y));
      }
      NothingLeft(elements, options, indentation_level, y);
      os := os + "]";
      Whole(old(os), "[", y.open, all, y.close, "]");
    }

    /** output_array_or_obj, for an array. */
    method OutputLines(elements: seq<Value>)
      requires !Inline(elements, options)
      modifies this
      ensures os == old(os) + Output(Arr(elements), options, indentation_level)
        && indentation_level == old(indentation_level)
      decreases elements, 1
    {
      hide JsonValues.OutputElements;
      hide JsonValues.Indent;
      hide JsonValues.NewLine;
      ghost var y := LayoutOf(options, indentation_level, false);
      ghost var all := JsonValues.OutputElements(elements, options, indentation_level + 1, y);
      os := os + "[";
      NewLine();
      indentation_level := indentation_level + 1;
      ghost var start := os;
      assert elements[0..] == elements;
      for i := 0 to |elements|
        invariant indentation_level == old(indentation_level) + 1
        invariant os + JsonValues.OutputElements(elements[i..], options, indentation_level, y) == start + all
      {
        ghost var before := os;
        ElementsStep(elements, i, options, indentation_level, y);
        Indent();
        OutputElement(elements, i);
        NewLine();
        Together(before, y.before, Output(elements[i], options, indentation_level),
                 if i + 1 < |elements| then "," else "", y.after,
                 JsonValues.OutputElements(elements[i + 1..], options, indentation_level, y));
      }
      NothingLeft(elements, options, indentation_level, y);
      indentation_level := indentation_level - 1;
      Indent();
      os := os + "]";
      Whole(old(os), "[", y.open, all, y.close, "]");
    }

    /** output_array_or_obj, for an object. */
    method OutputObject(members: seq<Member>)
      modifies this
      ensures os == old(os) + Output(Obj(members), options, indentation_level)
        && indentation_level == old(indentation_level)
      decreases members, 1
    {
      hide OutputMembers;
      hide OutputMember;
      hide JsonValues.Indent;
      hide JsonValues.NewLine;
      ghost var y := LayoutOf(options, indentation_level, false);
      ghost var all := OutputMembers(members, options, indentation_level + 1, y);
      os := os + "{";
      NewLine();
      indentation_level := indentation_level + 1;
      ghost var start := os;
      assert members[0..] == members;
      for i := 0 to |members|
        invariant indentation_level == old(indentation_level) + 1
        invariant os + OutputMembers(members[i..], options, indentation_level, y) == start + all
      {
        ghost var before := os;
        MembersStep(members, i, options, indentation_level, y);
        Indent();
        OutputItem(members, i);
        NewLine();
        Together(before, y.before, OutputMember(members[i], options, indentation_level),
                 if i + 1 < |members| then "," else "", y.after,
                 OutputMembers(members[i + 1..], options, indentation_level, y));
      }
      NoMemberLeft(members, options, indentation_level, y);
      indentation_level := indentation_level - 1;
      Indent();
      os := os + "}";
      Whole(old(os), "{", y.open, all, y.close, "}");
    }
  }

  lemma ElementsStep(vs: seq<Value>, i: nat, o: Options, level: nat, y: Layout)
    requires i < |vs|
    ensures OutputElements(vs[i..], o, level, y)
         == y.before + Output(vs[i], o, level) + (if i + 1 < |vs| then "," else "") + y.after
           + OutputElements(vs[i + 1..], o, level, y)
  {
    hide Output;
    assert vs[i..][0] == vs[i] && vs[i..][1..] == vs[i + 1..];
  }

  lemma MembersStep(ms: seq<Member>, i: nat, o: Options, level: nat, y: Layout)
    requires i < |ms|
    ensures OutputMembers(ms[i..], o, level, y)
         == y.before + OutputMember(ms[i], o, level) + (if i + 1 < |ms| then "," else "") + y.after
           + OutputMembers(ms[i + 1..], o, level, y)
  {
    hide OutputMember;
    assert ms[i..][0] == ms[i] && ms[i..][1..] == ms[i + 1..];
  }

  lemma NothingLeft(vs: seq<Value>, o: Options, level: nat, y: Layout)
    ensures forall s: Text :: s + OutputElements(vs[|vs|..], o, level, y) == s
  {
  }

  lemma NoMemberLeft(ms: seq<Member>, o: Options, level: nat, y: Layout)
    ensures forall s: Text :: s + OutputMembers(ms[|ms|..], o, level, y) == s
  {
  }

  lemma Together(s: Text, a: Text, b: Text, c: Text, d: Text, e: Text)
    ensures s + a + (b + c) + d + e == s + (a + b + c + d + e) && s + (b + c) + d + e == s + ("" + b + c + d + e)
    ensures s + a + b + c + d + e == s + (a + b + c + d + e) && s + b + c + d + e == s + ("" + b + c + d + e)
  {
  }

  lemma Whole(s: Text, begin: Text, open: Text, all: Text, close: Text, end: Text)
    ensures s + begin + open + all + close + end == s + (begin + open + all + close + end)
    ensures s + begin + open + all + "" + end == s + begin + open + all + end
  {
  }

  /** What is written is laid out as the options say; a string of characters left alone goes between quotes as it is. */
  method WriteString(value: Value, options: Options) returns (s: Text)
    ensures s == Output(value, options, 0)
    ensures NoReals(value) ==> s == TreeText(TreeOf(value, options, 0))
    ensures value.Str? && (forall i :: 0 <= i < |value.s| ==> LeftAlone(value.s[i], options)) ==>
      s == "\"" + value.s + "\""
    ensures value.Str? && |value.s| == 1 && !HasOwnEscape(value.s[0]) && !LeftAlone(value.s[0], options) ==>
      s == "\"" + CharacterNumber(value.s[0]) + "\""
  {
    if value.Str? {
      EscapeOfText(value.s, options);
    }
    if NoReals(value) {
      OutputIsTree(value, options, 0);
    }
    hide TreeOf;
    hide TreeText;
    hide LeftAlone;
    hide HasOwnEscape;
    hide CharacterNumber;
    hide NoReals;
    var generator := new Generator(options);
    generator.OutputValue(value);
    s := generator.os;
  }

  /** The actions of a text that is read build a value; this is the value. */
  ghost predicate Means(s: Text, value: Value) {
    Read(s).Hit? && Builds(Read(s).actions, value)
  }

  lemma OneMeaning(actions: seq<Action>, v: Value)
    requires Builds(actions, v)
    ensures FireAll(START, actions).Some? && FireAll(START, actions).value.value == v
  {
    assert Fires(START, actions, Added(START, v));
  }

  /** A text is blanks, the text of a tree, and some rest that does not go on with a number the tree may be. */
  ghost predicate Starts(s: Text, bs: seq<Blank>, t: Tree, rest: Text) {
    && BlanksOk(bs) && TreeOk(t) && (t.NumberTree? ==> Stops(t.n, rest))
    && s == BlanksText(bs) + (TreeText(t) + rest)
  }

  /** Texts of trees are read, and mean the values of the trees. */
  lemma StartIsRead(s: Text, bs: seq<Blank>, t: Tree, rest: Text)
    requires Starts(s, bs, t, rest)
    ensures Read(s) == Hit(TreeActions(t), Skip(rest)) && Means(s, TreeValue(t))
  {
    hide ReadValue;
    hide Skip;
    hide TreeText;
    hide BlanksText;
    hide Stops;
    hide Builds;
    hide TreeActions;
    hide TreeValue;
    BehindBlanks(bs, TreeText(t) + rest, []);
    TreeIsRead(t, rest);
    TreeBuilds(t);
  }

  /** What is read is the text of a tree. */
  lemma ReadIsStart(s: Text) returns (bs: seq<Blank>, t: Tree, rest: Text)
    requires Read(s).Hit?
    ensures Starts(s, bs, t, rest)
  {
    hide ReadValue;
    hide Skip;
    hide TreeText;
    hide BlanksText;
    hide Stops;
    bs, t := ReadIsTree(s);
    rest := ReadValue(s).rest;
  }

  /**
   * Reads a value from the start of a text: it succeeds just when the text starts with the text of a tree, whose value
   * it gives; rest is the text behind it, and behind the blanks that follow.
   */
  method ReadRange(s: Text) returns (success: bool, value: Value, rest: Text)
    ensures success <==> Read(s).Hit?
    ensures success ==> Means(s, value) && rest == Read(s).rest
    ensures !success ==> rest == s
    ensures success <==> exists bs, t, r :: Starts(s, bs, t, r)
    ensures forall bs, t, r :: Starts(s, bs, t, r) ==> value == TreeValue(t) && rest == Skip(r)
  {
    hide Fire;
    hide Read;
    hide Builds;
    hide Starts;
    hide Skip;
    hide TreeValue;
    hide TreeOk;
    TreesOf(s);
    match Read(s)
    case Miss => return false, Null, s;
    case Throw(_) => return false, Null, s;
    case Hit(actions, next) =>
      ghost var v := ReadBuilds(s);
      assert Builds(actions, v) by { ReadIsReadValue(s); }
      OneMeaning(actions, v);
      var semantic_actions := new SemanticActions();
      for i := 0 to |actions|
        invariant FireAll(START, actions[..i]) == Some(semantic_actions.State())
      {
        assert actions == actions[..i] + actions[i..] && actions[..i + 1] == actions[..i] + [actions[i]];
        FireAllAppend(START, actions[..i], actions[i..]);
        FireAllAppend(START, actions[..i], [actions[i]]);
        FireOne(semantic_actions.State(), actions[i]);
        semantic_actions.Call(actions[i]);
      }
      assert actions[..|actions|] == actions;
      return true, semantic_actions.value_, next;
  }

  /** All a text can mean, by its trees. */
  lemma TreesOf(s: Text)
    ensures Read(s).Hit? <==> exists bs, t, r :: Starts(s, bs, t, r)
    ensures forall bs, t, r, w :: Starts(s, bs, t, r) && Means(s, w) ==> w == TreeValue(t) && Read(s).rest == Skip(r)
  {
    hide Read;
    hide Builds;
    hide Skip;
    hide TreeValue;
    hide TreeActions;
    hide TreeText;
    hide BlanksText;
    if Read(s).Hit? {
      var bs, t, r := ReadIsStart(s);
    }
    forall bs, t, r, w | Starts(s, bs, t, r) && Means(s, w)
      ensures w == TreeValue(t) && Read(s).rest == Skip(r)
    {
      StartIsRead(s, bs, t, r);
      OneMeaning(Read(s).actions, w);
      OneMeaning(Read(s).actions, TreeValue(t));
    }
    if exists bs, t, r :: Starts(s, bs, t, r) {
      var bs, t, r :| Starts(s, bs, t, r);
      StartIsRead(s, bs, t, r);
    }
  }

  lemma ReadIsReadValue(s: Text)
    ensures Read(s).Hit? ==> ReadValue(s).Hit? && ReadValue(s).actions == Read(s).actions
  {
    hide ReadValue;
    hide Skip;
  }

  /**
   * Whatever follows the text of a value, reading gives the value back, integers by their number, and stops where
   * its text ends. Only behind a number may the text not be one that extends it.
   */
  lemma RoundTrip(v: Value, o: Options, rest: Text, w: Value)
    requires NoReals(v) && (v.Int64? || v.Uint64? ==> !ExtendsNumber(rest))
    ensures Means(Output(v, o, 0) + rest, w) <==> w == Normal(v)
    ensures Read(Output(v, o, 0) + rest).Hit? && Read(Output(v, o, 0) + rest).rest == Skip(rest)
  {
    hide Builds;
    hide ReadValue;
    hide Output;
    ValueIsRead(v, o, 0, rest);
    EventsBuild(Normal(v), o);
    OneMeaning(Events(Normal(v), o), Normal(v));
    if Means(Output(v, o, 0) + rest, w) {
      OneMeaning(Events(Normal(v), o), w);
    }
  }

  /**
   * A number is the one value that reading may not give back; it does not just when the text behind extends the number.
   */
  lemma NumbersAreExact(v: Value, o: Options, rest: Text)
    requires v.Int64? || v.Uint64?
    ensures ReadValue(Output(v, o, 0) + rest) == Hit(Events(Normal(v), o), rest) <==> !ExtendsNumber(rest)
  {
    hide ReadNumber;
    hide ReadValue;
    hide Number;
    hide ExtendsNumber;
    var n: int := if v.Int64? then v.i else v.u;
    NumberIsRead(n, rest, o);
    NumberText(n);
    NumeralHead(NumeralOf(n), rest);
    hide Numeral.ToText;
    hide NumeralOf;
    NumberOrNothing(Number(n) + rest);
  }
}
