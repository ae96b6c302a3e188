/** The sample application's objects: the system publishes, the adapter filters by subscription and
    reports to the executive, synchronously, before the setter returns. */
module SampleAdapters {
  import opened SampleRuns

  /** The executive's side: what it has been told so far. */
  class ExecInterface {
    var trace: seq<Event>

    constructor ()
      ensures trace == []
    {
      trace := [];
    }

    method HandleValueChange(st: State, val: Value)
      modifies this
      ensures trace == old(trace) + [ValueChange(st, val)]
    {
      trace := trace + [ValueChange(st, val)];
    }

    method NotifyOfExternalEvent()
      modifies this
      ensures trace == old(trace) + [Notify]
    {
      trace := trace + [Notify];
    }

    method HandleCommandAck(cmd: Command)
      modifies this
      ensures trace == old(trace) + [Ack(cmd)]
    {
      trace := trace + [Ack(cmd)];
    }

    method HandleCommandReturn(cmd: Command, val: Value)
      modifies this
      ensures trace == old(trace) + [Return(cmd, val)]
    {
      trace := trace + [Return(cmd, val)];
    }
  }

  /** createState: a state whose parameters are set one by one. */
  method CreateState(name: string, values: seq<Value>) returns (st: State)
    ensures st == State(name, values)
  {
    st := State(name, seq(|values|, i => Unknown));
    for i := 0 to |values|
      invariant st.name == name && |st.params| == |values|
      invariant st.params[..i] == values[..i]
    {
      st := State(name, st.params[i := values[i]]);
    }
  }

  class Adapter {
    const exec: ExecInterface
    var subscribedStates: set<State>

    constructor (exec: ExecInterface)
      ensures this.exec == exec && subscribedStates == {}
    {
      this.exec := exec;
      subscribedStates := {};
    }

    method Subscribe(st: State)
      modifies this
      ensures subscribedStates == old(subscribedStates) + {st}
    {
      subscribedStates := subscribedStates + {st};
    }

    method Unsubscribe(st: State)
      modifies this
      ensures subscribedStates == old(subscribedStates) - {st}
    {
      subscribedStates := subscribedStates - {st};
    }

    method PropagateValueChange(st: State, vals: seq<Value>)
      requires vals != []
      modifies exec
      ensures exec.trace == old(exec.trace) + Forward([Publication(st, vals[0])], subscribedStates)
    {
      assert [Publication(st, vals[0])][1..] == [];
      if st !in subscribedStates {
        return;
      }
      exec.HandleValueChange(st, vals[0]);
      exec.NotifyOfExternalEvent();
    }

    /** receiveInt, receiveFloat, receiveString, receiveBoolString and receiveBoolIntInt: the
        subscribers that publish calls with a state name, its arguments and its value. */
    method Receive(name: string, args: seq<Value>, val: Value)
      modifies exec
      ensures exec.trace == old(exec.trace) + Forward([Publication(State(name, args), val)], subscribedStates)
    {
      var st := CreateState(name, args);
      PropagateValueChange(st, [val]);
    }
  }

  class Sys {
    const adapter: Adapter   // whom publish reaches, once the adapter is initialized
    var size: real
    var speed: int
    var color: string
    var location: string
    var x: int
    var y: int

    function Value(): System
      reads this
    {
      System(size, speed, color, location, x, y)
    }

    function App(): SampleRuns.App
      reads this, adapter
    {
      SampleRuns.App(Value(), adapter.subscribedStates)
    }

    constructor (adapter: Adapter)
      ensures this.adapter == adapter && Value() == INITIAL.sys
    {
      this.adapter := adapter;
      size, speed, color, location, x, y := 5.1, 4, "Blue", "Home", 0, 0;
    }

    method SetSize(s: real)
      modifies this, adapter.exec
      ensures var (after, pubs) := SampleRuns.SetSize(old(Value()), s);
              Value() == after &&
              adapter.exec.trace == old(adapter.exec.trace) + Forward(pubs, adapter.subscribedStates)
    {
      if s != size {
        size := s;
        adapter.Receive("Size", [], Real(s));
      }
    }

    method SetSpeed(s: int)
      modifies this, adapter.exec
      ensures var (after, pubs) := SampleRuns.SetSpeed(old(Value()), s);
              Value() == after &&
              adapter.exec.trace == old(adapter.exec.trace) + Forward(pubs, adapter.subscribedStates)
    {
      if s != speed {
        speed := s;
        adapter.Receive("Speed", [], Int(s));
      }
    }

    method SetColor(c: string)
      modifies this, adapter.exec
      ensures var (after, pubs) := SampleRuns.SetColor(old(Value()), c);
              Value() == after &&
              adapter.exec.trace == old(adapter.exec.trace) + Forward(pubs, adapter.subscribedStates)
    {
      if c != color {
        color := c;
        adapter.Receive("Color", [], Str(c));
      }
    }

    method Move(newLocation: string, newX: int, newY: int)
      modifies this, adapter.exec
      ensures var (after, pubs) := SampleRuns.Move(old(Value()), newLocation, newX, newY);
              Value() == after &&
              adapter.exec.trace == old(adapter.exec.trace) + Forward(pubs, adapter.subscribedStates)
    {
      ghost var moved: seq<Publication>, renamed: seq<Publication> := [], [];
      if newX != x || newY != y {
        x, y := newX, newY;
        adapter.Receive("At", [Int(x), Int(y)], Bool(true));
        moved := [Publication(State("At", [Int(newX), Int(newY)]), Bool(true))];
      }
      if newLocation != location {
        location := newLocation;
        adapter.Receive("At", [Str(location)], Bool(true));
        renamed := [Publication(State("At", [Str(newLocation)]), Bool(true))];
      }
      ForwardAcross(moved, renamed, adapter.subscribedStates);
    }

    /** SampleAdapter::executeCommand on this system. */
    method ExecuteCommand(cmd: Command)
      requires ArgumentsFit(cmd)
      modifies this, adapter.exec
      ensures App() == Execute(old(App()), cmd).0
      ensures adapter.exec.trace == old(adapter.exec.trace) + Execute(old(App()), cmd).1
    {
      var retval := Unknown;
      if cmd.name == "SetSize" {
        SetSize(RealArg(cmd.args[0]));
      } else if cmd.name == "SetSpeed" {
        SetSpeed(IntArg(cmd.args[0]));
      } else if cmd.name == "SetColor" {
        SetColor(StrArg(cmd.args[0]));
      } else if cmd.name == "Move" {
        Move(StrArg(cmd.args[0]), IntArg(cmd.args[1]), IntArg(cmd.args[2]));
      } else if cmd.name == "Square" {
        retval := Int(IntArg(cmd.args[0]) * IntArg(cmd.args[0]));
      }
      adapter.exec.HandleCommandAck(cmd);
      if retval != Unknown {
        adapter.exec.HandleCommandReturn(cmd, retval);
      }
      adapter.exec.NotifyOfExternalEvent();
    }
  }

  lemma {:induction false} ForwardAcross(a: seq<Publication>, b: seq<Publication>, subscribed: set<State>)
    ensures Forward(a + b, subscribed) == Forward(a, subscribed) + Forward(b, subscribed)
  {
    if a == [] {
      assert a + b == b;
    } else {
      assert (a + b)[1..] == a[1..] + b;
      ForwardAcross(a[1..], b, subscribed);
    }
  }
}
