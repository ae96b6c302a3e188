/** The sample application as a state machine: what commands, subscriptions and lookups do, and
    which events reach the executive. */
module SampleRuns {

  datatype Value = Unknown | Bool(b: bool) | Int(i: int) | Real(r: real) | Str(s: string)

  datatype State = State(name: string, params: seq<Value>)

  datatype Command = Command(name: string, args: seq<Value>)

  /** Calls on the executive's side of the interface. */
  datatype Event =
    | ValueChange(state: State, val: Value)
    | Notify
    | Ack(cmd: Command)
    | Return(cmd: Command, val: Value)

  /** SampleSystem's fields. */
  datatype System = System(size: real, speed: int, color: string, location: string, x: int, y: int)

  datatype App = App(sys: System, subscribed: set<State>)

  /** A value published under a state. */
  datatype Publication = Publication(state: State, val: Value)

  // ------------------------------------------------------------ arguments

  /** What getValue leaves in an int that was 0 and a string that was empty. */
  function IntArg(v: Value): int {
    if v.Int? then v.i else 0
  }

  function StrArg(v: Value): string {
    if v.Str? then v.s else ""
  }

  predicate MaybeInt(v: Value) {
    v.Int? || v.Unknown?
  }

  predicate MaybeStr(v: Value) {
    v.Str? || v.Unknown?
  }

  /** The arguments that the command's branch reads, of types that getValue accepts. */
  predicate ArgumentsFit(cmd: Command) {
    && |cmd.args| <= 10
    && (cmd.name == "SetSize" ==> |cmd.args| >= 1 && (cmd.args[0].Real? || cmd.args[0].Int?))
    && (cmd.name == "SetSpeed" || cmd.name == "Square" ==> |cmd.args| >= 1 && MaybeInt(cmd.args[0]))
    && (cmd.name == "SetColor" ==> |cmd.args| >= 1 && MaybeStr(cmd.args[0]))
    && (cmd.name == "Move" ==>
          |cmd.args| >= 3 && MaybeStr(cmd.args[0]) && MaybeInt(cmd.args[1]) && MaybeInt(cmd.args[2]))
  }

  function RealArg(v: Value): real
    requires v.Real? || v.Int?
  {
    if v.Real? then v.r else v.i as real
  }

  // ------------------------------------------------------------ the system

  function SetSize(sys: System, s: real): (System, seq<Publication>) {
    if s != sys.size then (sys.(size := s), [Publication(State("Size", []), Real(s))]) else (sys, [])
  }

  function SetSpeed(sys: System, s: int): (System, seq<Publication>) {
    if s != sys.speed then (sys.(speed := s), [Publication(State("Speed", []), Int(s))]) else (sys, [])
  }

  function SetColor(sys: System, c: string): (System, seq<Publication>) {
    if c != sys.color then (sys.(color := c), [Publication(State("Color", []), Str(c))]) else (sys, [])
  }

  function Move(sys: System, location: string, x: int, y: int): (System, seq<Publication>) {
    (sys.(location := location, x := x, y := y),
     (if x != sys.x || y != sys.y then [Publication(State("At", [Int(x), Int(y)]), Bool(true))] else [])
     + (if location != sys.location then [Publication(State("At", [Str(location)]), Bool(true))] else []))
  }

  /** fetch: the system's value of a state; 'at' is looked up in lower case. */
  function Fetch(sys: System, st: State): Value {
    if st.name == "Size" then Real(sys.size)
    else if st.name == "Speed" then Int(sys.speed)
    else if st.name == "Color" then Str(sys.color)
    else if st.name == "at" then
      if |st.params| == 0 then Str(sys.location)
      else if |st.params| == 1 then Bool(StrArg(st.params[0]) == sys.location)
      else if |st.params| == 2 then Bool(IntArg(st.params[0]) == sys.x && IntArg(st.params[1]) == sys.y)
      else Unknown
    else Unknown
  }

  // ------------------------------------------------------------ commands

  /** The system and the publications after a command. */
  function Effect(sys: System, cmd: Command): (System, seq<Publication>)
    requires ArgumentsFit(cmd)
  {
    if cmd.name == "SetSize" then SetSize(sys, RealArg(cmd.args[0]))
    else if cmd.name == "SetSpeed" then SetSpeed(sys, IntArg(cmd.args[0]))
    else if cmd.name == "SetColor" then SetColor(sys, StrArg(cmd.args[0]))
    else if cmd.name == "Move" then Move(sys, StrArg(cmd.args[0]), IntArg(cmd.args[1]), IntArg(cmd.args[2]))
    else (sys, [])
  }

  function Answer(cmd: Command): seq<Event>
    requires ArgumentsFit(cmd)
  {
    if cmd.name == "Square" then [Return(cmd, Int(IntArg(cmd.args[0]) * IntArg(cmd.args[0])))] else []
  }

  /** Each publication under a subscribed state becomes a value change and a notification. */
  function Forward(pubs: seq<Publication>, subscribed: set<State>): seq<Event> {
    if pubs == [] then []
    else
      (if pubs[0].state in subscribed then [ValueChange(pubs[0].state, pubs[0].val), Notify] else [])
      + Forward(pubs[1..], subscribed)
  }

  function Execute(app: App, cmd: Command): (App, seq<Event>)
    requires ArgumentsFit(cmd)
  {
    var (sys, pubs) := Effect(app.sys, cmd);
    (app.(sys := sys), Forward(pubs, app.subscribed) + [Ack(cmd)] + Answer(cmd) + [Notify])
  }

  // ------------------------------------------------------------ what commands do

  /** A number given as an argument, as a real. */
  ghost predicate Denotes(arg: Value, size: real) {
    arg == Real(size) || (arg.Int? && arg.i as real == size)
  }

  /** What was given, or what an argument that is not known leaves in place. */
  ghost predicate GivesInt(arg: Value, i: int) {
    arg == Int(i) || (arg == Unknown && i == 0)
  }

  ghost predicate GivesStr(arg: Value, s: string) {
    arg == Str(s) || (arg == Unknown && s == "")
  }

  /** After SetSize the size looked up is the number given, after SetSpeed and SetColor the speed and
      the color are what was given, and no other lookup changes. */
  lemma SettersSet(sys: System, cmd: Command)
    requires ArgumentsFit(cmd)
    ensures var after := Effect(sys, cmd).0;
            && (cmd.name == "SetSize" ==> exists s :: Denotes(cmd.args[0], s) && Fetch(after, SIZE) == Real(s))
            && (cmd.name == "SetSpeed" ==> exists i :: GivesInt(cmd.args[0], i) && Fetch(after, SPEED) == Int(i))
            && (cmd.name == "SetColor" ==> exists s :: GivesStr(cmd.args[0], s) && Fetch(after, COLOR) == Str(s))
  {
    var after := Effect(sys, cmd).0;
    if cmd.name == "SetSize" {
      assert Denotes(cmd.args[0], after.size);
    } else if cmd.name == "SetSpeed" {
      assert GivesInt(cmd.args[0], after.speed);
    } else if cmd.name == "SetColor" {
      assert GivesStr(cmd.args[0], after.color);
    }
  }

  /** What the lookups of `at` say of a system. */
  ghost predicate IsAt(sys: System, place: string, x: int, y: int) {
    && Fetch(sys, State("at", [])) == Str(place)
    && (forall s :: Fetch(sys, State("at", [Str(s)])) == Bool(s == place))
    && (forall i, j :: Fetch(sys, State("at", [Int(i), Int(j)])) == Bool(i == x && j == y))
  }

  lemma FetchAt(sys: System, args: seq<Value>)
    ensures |args| == 0 ==> Fetch(sys, State("at", args)) == Str(sys.location)
    ensures |args| == 1 ==> Fetch(sys, State("at", args)) == Bool(StrArg(args[0]) == sys.location)
    ensures |args| == 2 ==>
              Fetch(sys, State("at", args)) == Bool(IntArg(args[0]) == sys.x && IntArg(args[1]) == sys.y)
  {
    assert "at" != "Size" && "at" != "Speed" && "at" != "Color";
  }

  lemma IsAtItsPlace(sys: System)
    ensures IsAt(sys, sys.location, sys.x, sys.y)
  {
    FetchAt(sys, []);
    forall s ensures Fetch(sys, State("at", [Str(s)])) == Bool(s == sys.location) {
      FetchAt(sys, [Str(s)]);
    }
    forall i, j ensures Fetch(sys, State("at", [Int(i), Int(j)])) == Bool(i == sys.x && j == sys.y) {
      FetchAt(sys, [Int(i), Int(j)]);
    }
  }

  /** After Move the place is the one given, `at` is true of that place alone, and true of exactly the
      coordinates given. */
  lemma MoveMoves(sys: System, cmd: Command) returns (place: string, x: int, y: int)
    requires ArgumentsFit(cmd) && cmd.name == "Move"
    ensures GivesStr(cmd.args[0], place) && GivesInt(cmd.args[1], x) && GivesInt(cmd.args[2], y)
    ensures IsAt(Effect(sys, cmd).0, place, x, y)
  {
    var after := Effect(sys, cmd).0;
    place, x, y := after.location, after.x, after.y;
    IsAtItsPlace(after);
  }

  /** Move publishes the coordinates before the place. */
  lemma CoordinatesFirst(sys: System, cmd: Command, i: nat, j: nat)
    requires ArgumentsFit(cmd) && cmd.name == "Move" && i < |Effect(sys, cmd).1| && j < |Effect(sys, cmd).1|
    requires |Effect(sys, cmd).1[i].state.params| == 2 && |Effect(sys, cmd).1[j].state.params| == 1
    ensures i < j
  {
  }

  /** What is looked up at start-up. */
  lemma AtStart()
    ensures Fetch(INITIAL.sys, SIZE) == Real(5.1) && Fetch(INITIAL.sys, SPEED) == Int(4)
    ensures Fetch(INITIAL.sys, COLOR) == Str("Blue") && IsAt(INITIAL.sys, "Home", 0, 0)
    ensures INITIAL.subscribed == {}
  {
    IsAtItsPlace(INITIAL.sys);
    NamesDiffer();
  }

  /** The command that a state answers to. */
  ghost function Setter(name: string): string {
    if name == "Size" then "SetSize" else if name == "Speed" then "SetSpeed"
    else if name == "Color" then "SetColor" else "Move"
  }

  /** A lookup changes only by the command for its state. */
  lemma OthersStay(sys: System, cmd: Command, st: State)
    requires ArgumentsFit(cmd) && cmd.name != Setter(st.name)
    ensures Fetch(Effect(sys, cmd).0, st) == Fetch(sys, st)
  {
  }

  // ------------------------------------------------------------ the shape of one command's trace

  /** Zero or more pairs of a value change and a notification, all for subscribed states. */
  ghost predicate Pairs(trace: seq<Event>, subscribed: set<State>) {
    trace == [] ||
    (&& |trace| >= 2 && trace[0].ValueChange? && trace[0].state in subscribed && trace[1] == Notify
     && Pairs(trace[2..], subscribed))
  }

  lemma {:induction false} ForwardIsPairs(pubs: seq<Publication>, subscribed: set<State>)
    ensures Pairs(Forward(pubs, subscribed), subscribed)
    ensures |Forward(pubs, subscribed)| <= 2 * |pubs|
  {
    if pubs != [] {
      ForwardIsPairs(pubs[1..], subscribed);
      if pubs[0].state in subscribed {
        assert Forward(pubs, subscribed)[2..] == Forward(pubs[1..], subscribed);
      } else {
        assert Forward(pubs, subscribed) == Forward(pubs[1..], subscribed);
      }
    }
  }

  /** Pairs, one acknowledgement, at most one return value, one notification. */
  lemma CommandTrace(app: App, cmd: Command) returns (pairs: seq<Event>, answer: seq<Event>)
    requires ArgumentsFit(cmd)
    ensures Execute(app, cmd).1 == pairs + [Ack(cmd)] + answer + [Notify]
    ensures Pairs(pairs, app.subscribed) && |pairs| <= 4
    ensures cmd.name != "Square" ==> answer == []
    ensures cmd.name == "Square" && cmd.args[0].Int? ==>
              answer == [Return(cmd, Int(cmd.args[0].i * cmd.args[0].i))]
    ensures cmd.name == "Square" && cmd.args[0].Unknown? ==> answer == [Return(cmd, Int(0))]
  {
    pairs, answer := Forward(Effect(app.sys, cmd).1, app.subscribed), Answer(cmd);
    ForwardIsPairs(Effect(app.sys, cmd).1, app.subscribed);
  }

  // ------------------------------------------------------------ runs

  datatype Action = Subscribe(state: State) | Unsubscribe(state: State) | Do(cmd: Command)

  ghost predicate Fit(action: Action) {
    action.Do? ==> ArgumentsFit(action.cmd)
  }

  ghost function Act(app: App, action: Action): (App, seq<Event>)
    requires Fit(action)
  {
    match action
    case Subscribe(st) => (app.(subscribed := app.subscribed + {st}), [])
    case Unsubscribe(st) => (app.(subscribed := app.subscribed - {st}), [])
    case Do(cmd) => Execute(app, cmd)
  }

  /** The executive's copies of the values: looked up when it subscribes, dropped when it
      unsubscribes, and otherwise set by the value changes it is sent. */
  ghost function Follow(mirror: map<State, Value>, trace: seq<Event>): map<State, Value> {
    if trace == [] then mirror
    else
      var m := Follow(mirror, trace[..|trace| - 1]);
      var e := trace[|trace| - 1];
      if e.ValueChange? then m[e.state := e.val] else m
  }

  ghost function Watch(app: App, mirror: map<State, Value>, action: Action): map<State, Value>
    requires Fit(action)
  {
    match action
    case Subscribe(st) => mirror[st := Fetch(app.sys, st)]
    case Unsubscribe(st) => mirror - {st}
    case Do(cmd) => Follow(mirror, Execute(app, cmd).1)
  }

  const SIZE: State := State("Size", [])
  const SPEED: State := State("Speed", [])
  const COLOR: State := State("Color", [])

  /** The states that are published: a place or coordinates with values of the right type. */
  ghost predicate Observable(st: State) {
    || st in {SIZE, SPEED, COLOR}
    || (st.name == "At" && |st.params| == 1 && st.params[0].Str?)
    || (st.name == "At" && |st.params| == 2 && st.params[0].Int? && st.params[1].Int?)
  }

  /** The states that are never known: any other name, and places with too many arguments. */
  ghost predicate NeverKnown(st: State) {
    st.name !in {"Size", "Speed", "Color", "at"} || (st.name == "at" && |st.params| > 2)
  }

  /** The states whose copy can be trusted: what is published is what is looked up, or both say
      nothing. */
  ghost predicate Mirrored(st: State) {
    st in {SIZE, SPEED, COLOR} || (NeverKnown(st) && !Observable(st))
  }

  /** The copy of a state is right as long as it is subscribed. */
  ghost predicate RightCopy(app: App, mirror: map<State, Value>, st: State) {
    st in app.subscribed ==> st in mirror && mirror[st] == Fetch(app.sys, st)
  }

  ghost predicate Coherent(app: App, mirror: map<State, Value>) {
    forall st :: Mirrored(st) ==> RightCopy(app, mirror, st)
  }

  lemma {:induction false} FollowAcross(mirror: map<State, Value>, a: seq<Event>, b: seq<Event>)
    ensures Follow(mirror, a + b) == Follow(Follow(mirror, a), b)
  {
    if b == [] {
      assert a + b == a;
    } else {
      assert (a + b)[..|a + b| - 1] == a + b[..|b| - 1];
      FollowAcross(mirror, a, b[..|b| - 1]);
    }
  }

  /** Only the forwarded pairs of a command's trace change the copies. */
  lemma FollowCommand(app: App, cmd: Command, mirror: map<State, Value>)
    requires ArgumentsFit(cmd)
    ensures Follow(mirror, Execute(app, cmd).1) ==
            Follow(mirror, Forward(Effect(app.sys, cmd).1, app.subscribed))
  {
    var f := Forward(Effect(app.sys, cmd).1, app.subscribed);
    var tail := [Ack(cmd)] + Answer(cmd) + [Notify];
    assert Execute(app, cmd).1 == f + tail;
    FollowAcross(mirror, f, tail);
    FollowAcross(Follow(mirror, f), [Ack(cmd)] + Answer(cmd), [Notify]);
    FollowAcross(Follow(mirror, f), [Ack(cmd)], Answer(cmd));
    forall e: Event | !e.ValueChange? ensures Follow(Follow(mirror, f), [e]) == Follow(mirror, f) {
      assert [e][..0] == [];
    }
  }

  /** The value last published under a state, or the given one. */
  ghost function Latest(pubs: seq<Publication>, st: State, otherwise: Value): Value {
    if pubs == [] then otherwise
    else Latest(pubs[1..], st, if pubs[0].state == st then pubs[0].val else otherwise)
  }

  lemma OneChange(p: Publication, mirror: map<State, Value>)
    ensures Follow(mirror, [ValueChange(p.state, p.val)]) == mirror[p.state := p.val]
    ensures Changes([ValueChange(p.state, p.val)]) == [p]
  {
    var change := [ValueChange(p.state, p.val)];
    assert change[..|change| - 1] == [];
    assert Changes([]) == [];
  }

  /** What is forwarded for one publication, and what it does to the copies and the changes sent. */
  lemma ForwardOne(p: Publication, subscribed: set<State>, mirror: map<State, Value>) returns (first: seq<Event>)
    ensures forall rest :: Forward([p] + rest, subscribed) == first + Forward(rest, subscribed)
    ensures Follow(mirror, first) == if p.state in subscribed then mirror[p.state := p.val] else mirror
    ensures Changes(first) == if p.state in subscribed then [p] else []
  {
    first := if p.state in subscribed then [ValueChange(p.state, p.val), Notify] else [];
    if p.state in subscribed {
      OneChange(p, mirror);
      assert first[..|first| - 1] == [ValueChange(p.state, p.val)];
    }
    forall rest ensures Forward([p] + rest, subscribed) == first + Forward(rest, subscribed) {
      assert ([p] + rest)[1..] == rest;
    }
  }

  /** The copy of a subscribed state takes the value last published under it. */
  lemma {:induction false} FollowForward(mirror: map<State, Value>, pubs: seq<Publication>,
                                        subscribed: set<State>, st: State)
    requires st in subscribed && st in mirror
    ensures st in Follow(mirror, Forward(pubs, subscribed))
    ensures Follow(mirror, Forward(pubs, subscribed))[st] == Latest(pubs, st, mirror[st])
    decreases pubs
  {
    if pubs != [] {
      var first := ForwardOne(pubs[0], subscribed, mirror);
      assert pubs == [pubs[0]] + pubs[1..];
      FollowAcross(mirror, first, Forward(pubs[1..], subscribed));
      FollowForward(Follow(mirror, first), pubs[1..], subscribed, st);
    }
  }

  lemma NamesDiffer()
    ensures "Size" != "Speed" && "Speed" != "Color" && "Color" != "Size"
    ensures "At" != "Size" && "At" != "Speed" && "At" != "Color"
  {
    assert "Speed"[0] != "Color"[0];
  }

  lemma LatestOfFew(pubs: seq<Publication>, st: State, v: Value)
    ensures |pubs| == 0 ==> Latest(pubs, st, v) == v
    ensures |pubs| == 1 ==> Latest(pubs, st, v) == if pubs[0].state == st then pubs[0].val else v
    ensures |pubs| == 2 && pubs[0].state != st && pubs[1].state != st ==> Latest(pubs, st, v) == v
  {
    assert |pubs| == 1 ==> pubs[1..] == [];
    assert |pubs| == 2 ==> pubs[1..] == [pubs[1]] && pubs[1..][1..] == [];
  }

  lemma OnlyObservablePublished(sys: System, cmd: Command)
    requires ArgumentsFit(cmd)
    ensures forall p :: p in Effect(sys, cmd).1 ==> Observable(p.state)
  {
  }

  lemma {:induction false} LatestOfNone(pubs: seq<Publication>, st: State, v: Value)
    requires forall p :: p in pubs ==> p.state != st
    ensures Latest(pubs, st, v) == v
  {
    if pubs != [] {
      assert pubs[0] in pubs;
      LatestOfNone(pubs[1..], st, v);
    }
  }

  /** The states whose copy can be trusted change exactly by what is published under them. */
  lemma EffectIsPublished(sys: System, cmd: Command, st: State)
    requires ArgumentsFit(cmd) && Mirrored(st)
    ensures Fetch(Effect(sys, cmd).0, st) == Latest(Effect(sys, cmd).1, st, Fetch(sys, st))
  {
    var pubs := Effect(sys, cmd).1;
    NamesDiffer();
    if st in {SIZE, SPEED, COLOR} {
      LatestOfFew(pubs, st, Fetch(sys, st));
    } else {
      OnlyObservablePublished(sys, cmd);
      LatestOfNone(pubs, st, Fetch(sys, st));
    }
  }

  /** After a command the copy of a subscribed state is the value last published under it. */
  lemma CopyAfterCommand(app: App, mirror: map<State, Value>, cmd: Command, st: State)
    requires ArgumentsFit(cmd) && st in app.subscribed && st in mirror
    ensures st in Watch(app, mirror, Do(cmd))
    ensures Watch(app, mirror, Do(cmd))[st] == Latest(Effect(app.sys, cmd).1, st, mirror[st])
  {
    FollowCommand(app, cmd, mirror);
    FollowForward(mirror, Effect(app.sys, cmd).1, app.subscribed, st);
  }

  lemma ActKeepsRight(app: App, mirror: map<State, Value>, action: Action, st: State)
    requires Mirrored(st) && RightCopy(app, mirror, st) && Fit(action)
    ensures RightCopy(Act(app, action).0, Watch(app, mirror, action), st)
  {
    if action.Do? && st in app.subscribed {
      CopyAfterCommand(app, mirror, action.cmd, st);
      EffectIsPublished(app.sys, action.cmd, st);
    }
  }

  lemma ActKeepsCoherent(app: App, mirror: map<State, Value>, action: Action)
    requires Coherent(app, mirror) && Fit(action)
    ensures Coherent(Act(app, action).0, Watch(app, mirror, action))
  {
    forall st | Mirrored(st) ensures RightCopy(Act(app, action).0, Watch(app, mirror, action), st) {
      ActKeepsRight(app, mirror, action, st);
    }
  }

  /** SampleSystem's constructor, with no subscriptions. */
  const INITIAL: App := App(System(5.1, 4, "Blue", "Home", 0, 0), {})

  ghost predicate AllFit(actions: seq<Action>) {
    forall i :: 0 <= i < |actions| ==> Fit(actions[i])
  }

  /** The application, the executive's copies, and all events, after a run. */
  ghost function Play(actions: seq<Action>): (App, map<State, Value>, seq<Event>)
    requires AllFit(actions)
  {
    if actions == [] then (INITIAL, map[], [])
    else
      var (app, mirror, trace) := Play(actions[..|actions| - 1]);
      var action := actions[|actions| - 1];
      (Act(app, action).0, Watch(app, mirror, action), trace + Act(app, action).1)
  }

  /** After every run of subscriptions, unsubscriptions and commands the copies are right. */
  lemma {:induction false} AlwaysCoherent(actions: seq<Action>)
    requires AllFit(actions)
    ensures Coherent(Play(actions).0, Play(actions).1)
  {
    if actions != [] {
      var before := actions[..|actions| - 1];
      AlwaysCoherent(before);
      ActKeepsCoherent(Play(before).0, Play(before).1, actions[|actions| - 1]);
    }
  }

  /** The last thing said about a state was to subscribe to it. */
  ghost predicate LastSubscribed(actions: seq<Action>, st: State) {
    exists i :: 0 <= i < |actions| && actions[i] == Subscribe(st) &&
                forall j :: i < j < |actions| ==> actions[j] != Unsubscribe(st)
  }

  lemma LastSubscribedMore(before: seq<Action>, action: Action, st: State)
    ensures LastSubscribed(before + [action], st) <==>
              action == Subscribe(st) || (LastSubscribed(before, st) && action != Unsubscribe(st))
  {
    var actions := before + [action];
    if action == Subscribe(st) {
      assert actions[|before|] == Subscribe(st);
    } else if LastSubscribed(before, st) && action != Unsubscribe(st) {
      var i :| 0 <= i < |before| && before[i] == Subscribe(st) &&
               forall j :: i < j < |before| ==> before[j] != Unsubscribe(st);
      assert actions[i] == Subscribe(st);
    }
    if i :| 0 <= i < |actions| && actions[i] == Subscribe(st) &&
            forall j :: i < j < |actions| ==> actions[j] != Unsubscribe(st) {
      if i < |before| {
        assert before[i] == Subscribe(st) && actions[|before|] != Unsubscribe(st);
        assert forall j :: i < j < |before| ==> before[j] == actions[j];
      }
    }
  }

  /** After every run a state is subscribed exactly when that was the last thing said about it. */
  lemma {:induction false} SubscribedIff(actions: seq<Action>, st: State)
    requires AllFit(actions)
    ensures st in Play(actions).0.subscribed <==> LastSubscribed(actions, st)
  {
    if actions != [] {
      var before, action := actions[..|actions| - 1], actions[|actions| - 1];
      SubscribedIff(before, st);
      LastSubscribedMore(before, action, st);
      assert actions == before + [action];
    }
  }

  // ------------------------------------------------------------ the other copies go wrong

  /** A command after which a state of the initial system can be surprised. */
  ghost function Beforehand(st: State): Command {
    if st == State("At", [Str("Home")]) then Command("Move", [Str("Lab"), Int(0), Int(0)])
    else if st == State("At", [Int(0), Int(0)]) then Command("Move", [Str("Home"), Int(1), Int(0)])
    else Command("Hello", [])
  }

  /** A command that changes the state, or its copy, but not both. */
  ghost function Surprise(st: State): Command {
    if st.name == "Size" then Command("SetSize", [Real(0.0)])
    else if st.name == "Speed" then Command("SetSpeed", [Int(0)])
    else if st.name == "Color" then Command("SetColor", [Str("Red")])
    else if |st.params| == 0 then Command("Move", [Str("Lab"), Int(0), Int(0)])
    else if |st.params| == 1 then
      var s := StrArg(st.params[0]);
      Command("Move", [Str(if st.name == "at" && s == "Home" then "Lab" else s), Int(0), Int(0)])
    else
      var x, y := IntArg(st.params[0]), IntArg(st.params[1]);
      Command("Move", [Str("Home"), Int(if st.name == "at" && x == 0 && y == 0 then 1 else x), Int(y)])
  }

  lemma SurpriseFits(st: State)
    ensures ArgumentsFit(Beforehand(st)) && ArgumentsFit(Surprise(st))
  {
  }

  ghost function Prepared(st: State): System {
    SurpriseFits(st);
    Effect(INITIAL.sys, Beforehand(st)).0
  }

  /** Size, Speed or Color with arguments: the lookup ignores them, and nothing is published there. */
  lemma SurprisesSystem(st: State)
    requires st.name in {"Size", "Speed", "Color"} && st.params != []
    ensures ArgumentsFit(Surprise(st))
    ensures Fetch(Effect(Prepared(st), Surprise(st)).0, st) != Fetch(Prepared(st), st)
    ensures Latest(Effect(Prepared(st), Surprise(st)).1, st, Fetch(Prepared(st), st)) == Fetch(Prepared(st), st)
  {
    NamesDiffer();
    assert "Blue"[0] != "Red"[0];
    LatestOfFew(Effect(Prepared(st), Surprise(st)).1, st, Fetch(Prepared(st), st));
  }

  /** A place under its looked-up name changes, and nothing is published there. */
  lemma SurprisesLookup(st: State)
    requires st.name == "at" && |st.params| <= 2
    ensures ArgumentsFit(Surprise(st))
    ensures Fetch(Effect(Prepared(st), Surprise(st)).0, st) != Fetch(Prepared(st), st)
    ensures Latest(Effect(Prepared(st), Surprise(st)).1, st, Fetch(Prepared(st), st)) == Fetch(Prepared(st), st)
  {
    NamesDiffer();
    assert "Home"[0] != "Lab"[0];
    OnlyObservablePublished(Prepared(st), Surprise(st));
    LatestOfNone(Effect(Prepared(st), Surprise(st)).1, st, Fetch(Prepared(st), st));
  }

  /** A place under its published name is looked up as unknown, and published as true. */
  lemma SurprisesCopy(st: State)
    requires st.name == "At" && Observable(st)
    ensures ArgumentsFit(Surprise(st)) && Fetch(Effect(Prepared(st), Surprise(st)).0, st) == Unknown
    ensures Latest(Effect(Prepared(st), Surprise(st)).1, st, Fetch(Prepared(st), st)) == Bool(true)
  {
    NamesDiffer();
    assert "Home"[0] != "Lab"[0];
    if |st.params| == 1 {
      assert st.params == [st.params[0]];
    } else {
      assert st.params == [st.params[0], st.params[1]];
    }
    LatestOfFew(Effect(Prepared(st), Surprise(st)).1, st, Fetch(Prepared(st), st));
  }

  ghost function Misled(st: State): seq<Action> {
    [Do(Beforehand(st)), Subscribe(st), Do(Surprise(st))]
  }

  lemma PlayMore(actions: seq<Action>, action: Action)
    requires AllFit(actions) && Fit(action)
    ensures AllFit(actions + [action])
    ensures var (app, mirror, trace) := Play(actions);
            Play(actions + [action]).0 == Act(app, action).0 && Play(actions + [action]).1 == Watch(app, mirror, action)
  {
    assert (actions + [action])[..|actions|] == actions;
  }

  /** A run that asks for a state between the two commands. */
  lemma MisledPlays(st: State)
    ensures AllFit(Misled(st)) && ArgumentsFit(Surprise(st))
    ensures var (app, mirror, trace) := Play(Misled(st));
            && app.sys == Effect(Prepared(st), Surprise(st)).0 && st in app.subscribed && st in mirror
            && mirror[st] == Latest(Effect(Prepared(st), Surprise(st)).1, st, Fetch(Prepared(st), st))
  {
    var none: seq<Action> := [];
    SurpriseFits(st);
    PlayMore(none, Do(Beforehand(st)));
    PlayMore(none + [Do(Beforehand(st))], Subscribe(st));
    var asked := none + [Do(Beforehand(st))] + [Subscribe(st)];
    PlayMore(asked, Do(Surprise(st)));
    assert asked + [Do(Surprise(st))] == Misled(st);
    CopyAfterCommand(Play(asked).0, Play(asked).1, Surprise(st), st);
  }

  lemma WithoutArguments(st: State)
    requires st.name in {"Size", "Speed", "Color"} && st.params == []
    ensures Mirrored(st)
  {
    assert st == State(st.name, []);
  }

  /** Every other state has a run after which its subscribed copy is wrong. */
  lemma CopyGoesWrong(st: State)
    requires !Mirrored(st)
    ensures AllFit(Misled(st)) && !RightCopy(Play(Misled(st)).0, Play(Misled(st)).1, st)
  {
    MisledPlays(st);
    if st.name == "at" {
      SurprisesLookup(st);
    } else if st.name == "At" {
      SurprisesCopy(st);
    } else {
      assert st.params == [] ==> Mirrored(st) by {
        if st.params == [] && st.name in {"Size", "Speed", "Color"} { WithoutArguments(st); }
      }
      SurprisesSystem(st);
    }
  }

  /** The copy of a state is right after every run exactly for Size, Speed and Color without
      arguments, and for the states of which nothing is ever known or published. */
  lemma AlwaysRightIff(st: State)
    ensures (forall actions :: AllFit(actions) ==> RightCopy(Play(actions).0, Play(actions).1, st)) <==> Mirrored(st)
  {
    if Mirrored(st) {
      forall actions | AllFit(actions) ensures RightCopy(Play(actions).0, Play(actions).1, st) {
        AlwaysCoherent(actions);
      }
    } else {
      CopyGoesWrong(st);
    }
  }

  /** The value changes of a trace. */
  ghost function Changes(trace: seq<Event>): seq<Publication> {
    if trace == [] then []
    else
      var e := trace[|trace| - 1];
      Changes(trace[..|trace| - 1]) + if e.ValueChange? then [Publication(e.state, e.val)] else []
  }

  ghost function Wanted(pubs: seq<Publication>, subscribed: set<State>): seq<Publication> {
    if pubs == [] then []
    else (if pubs[0].state in subscribed then [pubs[0]] else []) + Wanted(pubs[1..], subscribed)
  }

  /** The publications of a run that were made while their state was subscribed. */
  ghost function Heard(actions: seq<Action>): seq<Publication>
    requires AllFit(actions)
  {
    if actions == [] then []
    else
      var before, action := actions[..|actions| - 1], actions[|actions| - 1];
      var app := Play(before).0;
      Heard(before) + if action.Do? then Wanted(Effect(app.sys, action.cmd).1, app.subscribed) else []
  }

  lemma {:induction false} ChangesAcross(a: seq<Event>, b: seq<Event>)
    ensures Changes(a + b) == Changes(a) + Changes(b)
  {
    if b == [] {
      assert a + b == a;
    } else {
      assert (a + b)[..|a + b| - 1] == a + b[..|b| - 1];
      ChangesAcross(a, b[..|b| - 1]);
    }
  }

  lemma {:induction false} ForwardedAreWanted(pubs: seq<Publication>, subscribed: set<State>)
    ensures Changes(Forward(pubs, subscribed)) == Wanted(pubs, subscribed)
  {
    if pubs != [] {
      var first := ForwardOne(pubs[0], subscribed, map[]);
      assert pubs == [pubs[0]] + pubs[1..];
      ForwardedAreWanted(pubs[1..], subscribed);
      ChangesAcross(first, Forward(pubs[1..], subscribed));
    }
  }

  lemma NoChanges(e: Event)
    requires !e.ValueChange?
    ensures Changes([e]) == []
  {
    assert [e][..0] == [];
  }

  lemma AnswerChangesNothing(cmd: Command)
    requires ArgumentsFit(cmd)
    ensures Changes(Answer(cmd)) == []
  {
    if Answer(cmd) != [] {
      NoChanges(Answer(cmd)[0]);
      assert Answer(cmd) == [Answer(cmd)[0]];
    }
  }

  lemma CommandChanges(app: App, cmd: Command)
    requires ArgumentsFit(cmd)
    ensures Changes(Execute(app, cmd).1) == Wanted(Effect(app.sys, cmd).1, app.subscribed)
  {
    var f := Forward(Effect(app.sys, cmd).1, app.subscribed);
    ChangesAcross(f + [Ack(cmd)] + Answer(cmd), [Notify]);
    ChangesAcross(f + [Ack(cmd)], Answer(cmd));
    ChangesAcross(f, [Ack(cmd)]);
    NoChanges(Ack(cmd));
    NoChanges(Notify);
    AnswerChangesNothing(cmd);
    ForwardedAreWanted(Effect(app.sys, cmd).1, app.subscribed);
  }

  /** Over any run the value changes sent are the publications heard, in order. */
  lemma {:induction false} ForwardedAreHeard(actions: seq<Action>)
    requires AllFit(actions)
    ensures Changes(Play(actions).2) == Heard(actions)
  {
    if actions != [] {
      var before, action := actions[..|actions| - 1], actions[|actions| - 1];
      var app := Play(before).0;
      ForwardedAreHeard(before);
      ChangesAcross(Play(before).2, Act(app, action).1);
      if action.Do? { CommandChanges(app, action.cmd); }
    }
  }

  /** The state under which a published state is looked up. */
  function LookedUp(st: State): State {
    if st.name == "At" then State("at", st.params) else st
  }

  /** A command publishes news only: what a lookup returns after it and did not return before. */
  lemma PublicationsAreNews(sys: System, cmd: Command)
    requires ArgumentsFit(cmd)
    ensures forall p :: p in Effect(sys, cmd).1 ==>
              Fetch(sys, LookedUp(p.state)) != p.val == Fetch(Effect(sys, cmd).0, LookedUp(p.state))
  {
  }

  lemma ObservableNewsArePublished(sys: System, cmd: Command, st: State)
    requires ArgumentsFit(cmd) && Observable(st)
    requires Fetch(Effect(sys, cmd).0, LookedUp(st)) != Fetch(sys, LookedUp(st))
    ensures Publication(st, Fetch(Effect(sys, cmd).0, LookedUp(st))) in Effect(sys, cmd).1
            <==> Fetch(Effect(sys, cmd).0, LookedUp(st)) != Bool(false)
  {
    NamesDiffer();
    assert "at" != "Size" && "at" != "Speed" && "at" != "Color";
    if |st.params| == 1 {
      assert st.params == [st.params[0]];
    } else if |st.params| == 2 {
      assert st.params == [st.params[0], st.params[1]];
    }
  }

  /** Of all states whose lookup changes, those are published with their new value that are
      published at all, except a place or coordinates that become false. */
  lemma NewsArePublished(sys: System, cmd: Command, st: State)
    requires ArgumentsFit(cmd)
    requires Fetch(Effect(sys, cmd).0, LookedUp(st)) != Fetch(sys, LookedUp(st))
    ensures Publication(st, Fetch(Effect(sys, cmd).0, LookedUp(st))) in Effect(sys, cmd).1
            <==> Observable(st) && Fetch(Effect(sys, cmd).0, LookedUp(st)) != Bool(false)
  {
    if Observable(st) {
      ObservableNewsArePublished(sys, cmd, st);
    }
  }

  /** The place itself, looked up without arguments, changes and is not published. */
  lemma PlaceIsNotPublished()
    ensures var cmd := Command("Move", [Str("Lab"), Int(0), Int(0)]);
            var after, pubs := Effect(INITIAL.sys, cmd).0, Effect(INITIAL.sys, cmd).1;
            && ArgumentsFit(cmd)
            && Fetch(INITIAL.sys, State("at", [])) == Str("Home") && Fetch(after, State("at", [])) == Str("Lab")
            && forall p :: p in pubs ==> p.state != State("At", []) && p.state != State("at", [])
  {
    var cmd := Command("Move", [Str("Lab"), Int(0), Int(0)]);
    OnlyObservablePublished(INITIAL.sys, cmd);
  }

  /** The executive never hears that a place was left: every change of At says true, although the
      lookup of "at" for the old place turns false. */
  lemma AtOnlyTrue(sys: System, cmd: Command)
    requires ArgumentsFit(cmd)
    ensures forall p :: p in Effect(sys, cmd).1 && p.state.name == "At" ==> p.val == Bool(true)
    ensures cmd.name == "Move" && StrArg(cmd.args[0]) != sys.location ==>
            Fetch(Effect(sys, cmd).0, State("at", [Str(sys.location)])) == Bool(false)
  {
  }
}
