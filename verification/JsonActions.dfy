// The semantic actions of the JSON reader, a stack machine that builds a tree in place:
// lib/json_spirit/json_spirit_reader_template.h:210-357.
module JsonActions {
  import opened Basics
  import opened Decimals
  import opened JsonEscapes
  import opened JsonValues

  /** What the grammar calls; ranges of text are passed as they were matched. */
  datatype Action =
    | BeginObj
    | EndObj
    | BeginArray
    | EndArray
    | NewName(range: Text)
    | NewStr(range: Text)
    | NewTrue
    | NewFalse
    | NewNull
    | NewInt(i: int64_t)
    | NewUint64(u: uint64_t)
    | NewReal(range: Text)

  /**
   * The value being built. A pointer into it is a depth: 0 is the value itself, and each further level is the last
   * item of the level before; the machine never holds a pointer to anything else.
   */
  datatype Builder = Builder(value: Value, current: Option<nat>, stack: seq<nat>, name: Text)

  const START := Builder(Null, None, [], [])

  predicate HasLast(v: Value) {
    (v.Obj? && v.members != []) || (v.Arr? && v.elements != [])
  }

  function Last(v: Value): (r: Value)
    requires HasLast(v)
    ensures r < v
  {
    if v.Obj? then v.members[|v.members| - 1].value else v.elements[|v.elements| - 1]
  }

  /** v with another last item. */
  function WithLast(v: Value, x: Value): (r: Value)
    requires HasLast(v)
    ensures HasLast(r) && Last(r) == x
  {
    if v.Obj? then Obj(v.members[..|v.members| - 1] + [Member(v.members[|v.members| - 1].name, x)])
    else Arr(v.elements[..|v.elements| - 1] + [x])
  }

  /** A pointer of the machine points to something. */
  predicate Points(v: Value, depth: nat)
    decreases depth
  {
    depth == 0 || (HasLast(v) && Points(Last(v), depth - 1))
  }

  function Target(v: Value, depth: nat): Value
    requires Points(v, depth)
    decreases depth
  {
    if depth == 0 then v else Target(Last(v), depth - 1)
  }

  /** A container with one more item at the end; the name is for objects. */
  function Grown(v: Value, name: Text, x: Value): (r: Value)
    requires Composite(v)
    ensures HasLast(r) && Last(r) == x
  {
    if v.Obj? then Obj(v.members + [Member(name, x)]) else Arr(v.elements + [x])
  }

  /** The tree after the container a pointer points to has grown. */
  function AddAt(v: Value, depth: nat, name: Text, x: Value): (r: Value)
    requires Points(v, depth) && Composite(Target(v, depth))
    ensures Points(r, depth) && Target(r, depth) == Grown(Target(v, depth), name, x)
    ensures Points(r, depth + 1) && Target(r, depth + 1) == x
    decreases depth
  {
    if depth == 0 then Grown(v, name, x) else WithLast(v, AddAt(Last(v), depth - 1, name, x))
  }

  function ItemCount(v: Value): nat {
    if v.Obj? then |v.members| else if v.Arr? then |v.elements| else 0
  }

  /** The positions of the items on the way to what a pointer points to. */
  function PathTo(v: Value, depth: nat): seq<nat>
    requires Points(v, depth)
    decreases depth
  {
    if depth == 0 then [] else [ItemCount(v) - 1] + PathTo(Last(v), depth - 1)
  }

  /**
   * While a container grows, the pointers up to it keep pointing to the items they pointed to, and no container on the
   * way to it grows: none of the vectors that hold these items is moved.
   */
  lemma {:induction false} HeldPointersStay(v: Value, depth: nat, name: Text, x: Value, k: nat)
    requires Points(v, depth) && Composite(Target(v, depth)) && k <= depth
    ensures Points(v, k) && Points(AddAt(v, depth, name, x), k)
    ensures PathTo(AddAt(v, depth, name, x), k) == PathTo(v, k)
    ensures k < depth ==> ItemCount(Target(AddAt(v, depth, name, x), k)) == ItemCount(Target(v, k))
    decreases depth
  {
    if depth > 0 && k > 0 {
      HeldPointersStay(Last(v), depth - 1, name, x, k - 1);
    }
  }

  // ---------------------------------------------------------------- one action

  function AddToCurrent(b: Builder, x: Value): Option<Builder> {
    match b.current
    case None => Some(b.(value := x, current := Some(0)))
    case Some(d) =>
      if Points(b.value, d) && Composite(Target(b.value, d)) then Some(b.(value := AddAt(b.value, d, b.name, x)))
      else None
  }

  function BeginCompound(b: Builder, x: Value): Option<Builder> {
    match b.current
    case None => Some(b.(value := x, current := Some(0)))
    case Some(d) =>
      match AddToCurrent(b.(stack := b.stack + [d]), x)
      case None => None
      case Some(b') => Some(b'.(current := Some(d + 1)))
  }

  function EndCompound(b: Builder): Option<Builder> {
    if b.current == Some(0) then Some(b)
    else if b.stack == [] then None
    else Some(b.(current := Some(b.stack[|b.stack| - 1]), stack := b.stack[..|b.stack| - 1]))
  }

  /** One action; None where an assertion of the machine fails or its stack underflows. */
  function Fire(b: Builder, a: Action): Option<Builder> {
    match a
    case BeginObj => BeginCompound(b, Obj([]))
    case EndObj => EndCompound(b)
    case BeginArray => BeginCompound(b, Arr([]))
    case EndArray => EndCompound(b)
    case NewName(range) =>
      if b.current.Some? && Points(b.value, b.current.value) && Target(b.value, b.current.value).Obj? && |range| >= 2
      then Some(b.(name := GetStr(range))) else None
    case NewStr(range) => if |range| >= 2 then AddToCurrent(b, Str(GetStr(range))) else None
    case NewTrue => AddToCurrent(b, Bool(true))
    case NewFalse => AddToCurrent(b, Bool(false))
    case NewNull => AddToCurrent(b, Null)
    case NewInt(i) => AddToCurrent(b, Int64(i))
    case NewUint64(u) => AddToCurrent(b, Uint64(u))
    case NewReal(range) => AddToCurrent(b, Real(range))
  }

  function FireAll(b: Builder, actions: seq<Action>): Option<Builder>
    decreases |actions|
  {
    if actions == [] then Some(b)
    else match Fire(b, actions[0])
      case None => None
      case Some(b') => FireAll(b', actions[1..])
  }

  lemma {:induction false} FireAllAppend(b: Builder, a: seq<Action>, a': seq<Action>)
    ensures FireAll(b, a + a') == match FireAll(b, a) case None => None case Some(b') => FireAll(b', a')
    decreases |a|
  {
    hide Fire;
    if a == [] {
      assert a + a' == a';
    } else {
      assert (a + a')[1..] == a[1..] + a';
      if Fire(b, a[0]).Some? {
        FireAllAppend(Fire(b, a[0]).value, a[1..], a');
      }
    }
  }

  lemma FireOne(b: Builder, a: Action)
    ensures FireAll(b, [a]) == Fire(b, a)
  {
    hide Fire;
    assert [a][1..] == [];
  }

  // ---------------------------------------------------------------- what a run of actions builds

  /** Before the first action, or inside a container; the stack then has the way to it. */
  predicate Ready(b: Builder) {
    match b.current
    case None => b.stack == []
    case Some(d) =>
      && Points(b.value, d) && Composite(Target(b.value, d))
      && |b.stack| == d && forall i :: 0 <= i < d ==> b.stack[i] == i
  }

  function Added(b: Builder, x: Value): Builder
    requires Ready(b)
  {
    AddToCurrent(b, x).value
  }

  /** b after the start of a container that is complete up to x. */
  function Opened(b: Builder, x: Value): (r: Builder)
    requires Ready(b)
    ensures Composite(x) ==> Ready(r)
    ensures Composite(x) ==>
      r.current.Some? && Points(r.value, r.current.value) && Target(r.value, r.current.value) == x
  {
    BeginCompound(b, x).value
  }

  /** Actions that add x wherever they start from, whatever name they leave behind. */
  ghost predicate Builds(actions: seq<Action>, x: Value) {
    forall b :: Ready(b) ==> Fires(b, actions, Added(b, x))
  }

  ghost predicate Fires(b: Builder, actions: seq<Action>, b': Builder) {
    var r := FireAll(b, actions);
    r.Some? && r.value == b'.(name := r.value.name)
  }

  lemma AddTwice(v: Value, depth: nat, name: Text, x: Value, name': Text, y: Value)
    requires Points(v, depth) && Composite(Target(v, depth)) && Composite(x)
    ensures AddAt(AddAt(v, depth, name, x), depth + 1, name', y) == AddAt(v, depth, name, Grown(x, name', y))
    decreases depth
  {
    if depth == 0 {
      var g := Grown(v, name, x);
      assert WithLast(g, Grown(x, name', y)) == Grown(v, name, Grown(x, name', y));
    } else {
      var w := AddAt(Last(v), depth - 1, name, x);
      AddTwice(Last(v), depth - 1, name, x, name', y);
      var l, l' := WithLast(v, w), AddAt(Last(v), depth - 1, name, Grown(x, name', y));
      assert WithLast(l, l') == WithLast(v, l');
    }
  }

  /** An item added while a container is open is an item of that container. */
  lemma AddedInside(b: Builder, x: Value, y: Value, name: Text)
    requires Ready(b) && Composite(x)
    ensures var o := Opened(b, x).(name := name);
      Ready(o) && Added(o, y) == Opened(b, Grown(x, name, y)).(name := name)
  {
    if b.current.Some? {
      AddTwice(b.value, b.current.value, b.name, x, name, y);
    }
  }

  lemma ClosedIsAdded(b: Builder, x: Value, name: Text)
    requires Ready(b) && Composite(x)
    ensures EndCompound(Opened(b, x).(name := name)) == Some(Added(b, x).(name := name))
  {
  }

  // ---------------------------------------------------------------- whole arrays and objects

  /** Actions that, inside a container complete up to x, complete it up to x'. */
  ghost predicate Fills(actions: seq<Action>, x: Value, x': Value)
    requires Composite(x) && Composite(x')
  {
    forall b, name :: Ready(b) ==> Fires(Opened(b, x).(name := name), actions, Opened(b, x'))
  }

  lemma FillsNothing(x: Value)
    requires Composite(x)
    ensures Fills([], x, x)
  {
  }

  lemma FiresThen(b: Builder, a: seq<Action>, b': Builder, a': seq<Action>, b'': Builder)
    requires Fires(b, a, b') && forall name :: Fires(b'.(name := name), a', b'')
    ensures Fires(b, a + a', b'')
  {
    FireAllAppend(b, a, a');
    var name := FireAll(b, a).value.name;
    assert Fires(b'.(name := name), a', b'');
  }

  lemma FillsElement(actions: seq<Action>, x: Value, xs: seq<Value>, a: seq<Action>, y: Value)
    requires Composite(x) && Fills(actions, x, Arr(xs)) && Builds(a, y)
    ensures Fills(actions + a, x, Arr(xs + [y]))
  {
    hide Ready;
    hide Opened;
    hide Added;
    hide Fires;
    forall b, name | Ready(b)
      ensures Fires(Opened(b, x).(name := name), actions + a, Opened(b, Arr(xs + [y])))
    {
      forall name' ensures Fires(Opened(b, Arr(xs)).(name := name'), a, Opened(b, Arr(xs + [y]))) {
        AddedInside(b, Arr(xs), y, name');
        SameForAnyName(Opened(b, Arr(xs)).(name := name'), a, Opened(b, Arr(xs + [y])), name');
      }
      FiresThen(Opened(b, x).(name := name), actions, Opened(b, Arr(xs)), a, Opened(b, Arr(xs + [y])));
    }
  }

  lemma SameForAnyName(b: Builder, actions: seq<Action>, b': Builder, name: Text)
    ensures Fires(b, actions, b'.(name := name)) <==> Fires(b, actions, b')
  {
  }

  lemma FillsMember(actions: seq<Action>, x: Value, ms: seq<Member>, range: Text, a: seq<Action>, y: Value)
    requires Composite(x) && Fills(actions, x, Obj(ms)) && Builds(a, y) && |range| >= 2
    ensures Fills(actions + ([NewName(range)] + a), x, Obj(ms + [Member(GetStr(range), y)]))
  {
    hide Ready;
    hide Opened;
    hide Added;
    hide Fires;
    hide GetStr;
    var name'' := GetStr(range);
    var obj := Obj(ms + [Member(name'', y)]);
    forall b, name | Ready(b)
      ensures Fires(Opened(b, x).(name := name), actions + ([NewName(range)] + a), Opened(b, obj))
    {
      forall name' ensures Fires(Opened(b, Obj(ms)).(name := name'), [NewName(range)] + a, Opened(b, obj)) {
        NameIsTaken(b, ms, name', range);
        AddedInside(b, Obj(ms), y, name'');
        SameForAnyName(Opened(b, Obj(ms)).(name := name''), a, Opened(b, obj), name'');
        OneThen(Opened(b, Obj(ms)).(name := name'), NewName(range), Opened(b, Obj(ms)).(name := name''), a,
            Opened(b, obj));
      }
      FiresThen(Opened(b, x).(name := name), actions, Opened(b, Obj(ms)), [NewName(range)] + a, Opened(b, obj));
    }
  }

  lemma OneThen(b: Builder, a: Action, b': Builder, a': seq<Action>, b'': Builder)
    requires Fire(b, a) == Some(b') && Fires(b', a', b'')
    ensures Fires(b, [a] + a', b'')
  {
    hide Fire;
    FireOne(b, a);
    FireAllAppend(b, [a], a');
  }

  /** Whatever name was left behind, the name of the next member is its own. */
  lemma NameIsTaken(b: Builder, ms: seq<Member>, name: Text, range: Text)
    requires Ready(b) && |range| >= 2
    ensures Fire(Opened(b, Obj(ms)).(name := name), NewName(range)) == Some(Opened(b, Obj(ms)).(name := GetStr(range)))
  {
    hide Ready;
    hide GetStr;
    hide BeginCompound;
  }

  lemma FilledBuilds(begin: Action, empty: Value, actions: seq<Action>, end: Action, x: Value)
    requires (begin == BeginArray && empty == Arr([]) && end == EndArray)
      || (begin == BeginObj && empty == Obj([]) && end == EndObj)
    requires Composite(x) && Fills(actions, empty, x)
    ensures Builds([begin] + actions + [end], x)
  {
    hide Ready;
    hide Opened;
    hide Added;
    hide Fires;
    forall b | Ready(b) ensures Fires(b, [begin] + actions + [end], Added(b, x)) {
      BeginIsOpened(b, begin, empty);
      assert Opened(b, empty) == Opened(b, empty).(name := Opened(b, empty).name);
      OneThen(b, begin, Opened(b, empty), actions, Opened(b, x));
      forall name ensures Fires(Opened(b, x).(name := name), [end], Added(b, x)) {
        EndIsClosed(b, x, name, end);
      }
      FiresThen(b, [begin] + actions, Opened(b, x), [end], Added(b, x));
    }
  }

  lemma BeginIsOpened(b: Builder, begin: Action, empty: Value)
    requires Ready(b) && ((begin == BeginArray && empty == Arr([])) || (begin == BeginObj && empty == Obj([])))
    ensures Fire(b, begin) == Some(Opened(b, empty))
  {
  }

  lemma EndIsClosed(b: Builder, x: Value, name: Text, end: Action)
    requires Ready(b) && Composite(x) && (end == EndArray || end == EndObj)
    ensures Fires(Opened(b, x).(name := name), [end], Added(b, x))
  {
    hide Ready;
    hide Opened;
    hide Added;
    ClosedIsAdded(b, x, name);
    FireOne(Opened(b, x).(name := name), end);
  }

  /** An action that adds a value that is not a container. */
  lemma ScalarBuilds(a: Action, x: Value)
    requires forall b :: Fire(b, a) == AddToCurrent(b, x)
    ensures Builds([a], x)
  {
    hide Fire;
    forall b | Ready(b) ensures Fires(b, [a], Added(b, x)) {
      FireOne(b, a);
    }
  }

  // ---------------------------------------------------------------- the machine

  class SemanticActions {
    var value_: Value
    var current_p_: Option<nat>
    var stack_: seq<nat>
    var name_: Text

    ghost function State(): Builder
      reads this
    {
      Builder(value_, current_p_, stack_, name_)
    }

    constructor ()
      ensures State() == START
    {
      value_ := Null;
      current_p_ := None;
      stack_ := [];
      name_ := [];
    }

    method PushBack(value: Value)
      requires AddToCurrent(State(), value).Some?
      modifies this`value_, this`current_p_
      ensures Some(State()) == old(AddToCurrent(State(), value))
    {
      if current_p_ == None {
        value_ := value;
        current_p_ := Some(0);
      } else {
        value_ := AddAt(value_, current_p_.value, name_, value);
      }
    }

    method Begin(empty: Value)
      requires BeginCompound(State(), empty).Some?
      modifies this
      ensures Some(State()) == old(BeginCompound(State(), empty))
    {
      if current_p_ == None {
        PushBack(empty);
      } else {
        stack_ := stack_ + [current_p_.value];
        PushBack(empty);
        current_p_ := Some(current_p_.value + 1);
      }
    }

    method End()
      requires EndCompound(State()).Some?
      modifies this
      ensures Some(State()) == old(EndCompound(State()))
    {
      if current_p_ != Some(0) {
        current_p_ := Some(stack_[|stack_| - 1]);
        stack_ := stack_[..|stack_| - 1];
      }
    }

    method Call(a: Action)
      requires Fire(State(), a).Some?
      modifies this
      ensures Some(State()) == old(Fire(State(), a))
    {
      match a
      case BeginObj => Begin(Obj([]));
      case EndObj => End();
      case BeginArray => Begin(Arr([]));
      case EndArray => End();
      case NewName(range) => name_ := GetStr(range);
      case NewStr(range) => PushBack(Str(GetStr(range)));
      case NewTrue => PushBack(Bool(true));
      case NewFalse => PushBack(Bool(false));
      case NewNull => PushBack(Null);
      case NewInt(i) => PushBack(Int64(i));
      case NewUint64(u) => PushBack(Uint64(u));
      case NewReal(range) => PushBack(Real(range));
    }
  }
}
