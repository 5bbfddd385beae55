/**
 * The client-side state store of src/lib/store.ts: one state record behind
 * a proxy whose `set` trap stores a changed value and announces it with two
 * events, and `toggleSidebar`, which flips the sidebar flag through that trap.
 * Event delivery is not modelled; the store keeps the log of what it
 * dispatched, in order.
 */
module Store {

  /** The keys of `State`. */
  datatype Property = IsSidebarOpen

  function PropertyName(p: Property): string {
    match p
    case IsSidebarOpen => "isSidebarOpen"
  }

  /** A dispatched `CustomEvent`: its type and the `property`, `value` and `oldValue` of its detail. */
  datatype StateEvent = StateEvent(name: string, property: Property, value: bool, oldValue: bool)

  const SetEventName: string := "state:set"

  /** The two events the `set` trap dispatches for a change, in order. */
  function ChangeEvents(p: Property, value: bool, oldValue: bool): seq<StateEvent> {
    [StateEvent(SetEventName, p, value, oldValue),
     StateEvent(SetEventName + ":" + PropertyName(p), p, value, oldValue)]
  }

  /** The value the state had before any event: `isSidebarOpen: false`. */
  const InitialSidebarOpen: bool := false

  /** The sidebar flag a log leads to: the last announced value, or the initial one. */
  function Replay(log: seq<StateEvent>): bool {
    if log == [] then InitialSidebarOpen else log[|log| - 1].value
  }

  /**
   * A log the store can have produced: pairs of change events, each a real
   * change whose old value is the value the log had reached before it.
   */
  predicate ValidLog(log: seq<StateEvent>)
    decreases |log|
  {
    if log == [] then true
    else
      && |log| >= 2
      && var before := log[..|log| - 2];
      && var e := log[|log| - 2];
      && e.property == IsSidebarOpen
      && e.value != e.oldValue
      && e.oldValue == Replay(before)
      && log[|log| - 2..] == ChangeEvents(e.property, e.value, e.oldValue)
      && ValidLog(before)
  }

  /** Announcing a real change of the replayed value keeps a log valid and moves its replay to the new value. */
  lemma ChangeKeepsLogValid(log: seq<StateEvent>, value: bool)
    requires ValidLog(log) && value != Replay(log)
    ensures var next := log + ChangeEvents(IsSidebarOpen, value, Replay(log));
            ValidLog(next) && Replay(next) == value
  {
    var next := log + ChangeEvents(IsSidebarOpen, value, Replay(log));
    assert next[..|next| - 2] == log;
    assert next[|next| - 2..] == ChangeEvents(IsSidebarOpen, value, Replay(log));
  }

  /** The names of a change's two events. */
  lemma ChangeEventNames(p: Property, value: bool, oldValue: bool)
    ensures ChangeEvents(p, value, oldValue)[0].name == "state:set"
    ensures ChangeEvents(p, value, oldValue)[1].name == "state:set:isSidebarOpen"
  {
    assert PropertyName(p) == "isSidebarOpen";
  }

  /** A valid log holds an even number of events: every change is announced twice. */
  lemma {:induction false} ValidLogPairs(log: seq<StateEvent>)
    requires ValidLog(log)
    ensures |log| % 2 == 0
    ensures forall k :: 0 <= k < |log| / 2 ==> log[2 * k].name == "state:set" && log[2 * k + 1].name == "state:set:isSidebarOpen"
    decreases |log|
  {
    if log != [] {
      var before := log[..|log| - 2];
      ValidLogPairs(before);
      var last := log[|log| - 2..];
      ChangeEventNames(last[0].property, last[0].value, last[0].oldValue);
      forall k | 0 <= k < |log| / 2
        ensures log[2 * k].name == "state:set" && log[2 * k + 1].name == "state:set:isSidebarOpen"
      {
        if k < |before| / 2 {
          assert log[2 * k] == before[2 * k] && log[2 * k + 1] == before[2 * k + 1];
        } else {
          assert 2 * k == |log| - 2;
          assert log[2 * k] == last[0] && log[2 * k + 1] == last[1];
        }
      }
    }
  }

  /** `stateSource` behind the `state` proxy, with the events dispatched so far. */
  class StateStore {
    var isSidebarOpen: bool
    var dispatched: seq<StateEvent>

    /** The store's invariant: the log is valid and the state is what the log replays to. */
    predicate Valid()
      reads this
    {
      ValidLog(dispatched) && isSidebarOpen == Replay(dispatched)
    }

    /** `stateSource = { isSidebarOpen: false }`, before any event. */
    constructor ()
      ensures Valid()
      ensures isSidebarOpen == false && dispatched == []
    {
      isSidebarOpen := false;
      dispatched := [];
    }

    /** The `get` trap: the stored value, unchanged. */
    function Get(p: Property): bool
      reads this
    {
      match p
      case IsSidebarOpen => isSidebarOpen
    }

    /**
     * The `set` trap. An unchanged value leaves the state and the log alone;
     * a changed one is stored and announced by `state:set` and then
     * `state:set:<property>`, both carrying the new and the old value. The trap
     * always reports success.
     */
    method Set(p: Property, value: bool) returns (accepted: bool)
      requires Valid()
      modifies this
      ensures Valid()
      ensures accepted
      ensures old(Get(p)) == value ==> isSidebarOpen == old(isSidebarOpen) && dispatched == old(dispatched)
      ensures old(Get(p)) != value ==>
                && Get(p) == value
                && dispatched == old(dispatched) + ChangeEvents(p, value, old(Get(p)))
    {
      var oldValue := Get(p);
      if oldValue != value {
        match p {
          case IsSidebarOpen => isSidebarOpen := value;
        }
        ChangeKeepsLogValid(dispatched, value);
        dispatched := dispatched + ChangeEvents(p, value, oldValue);
      }
      accepted := true;
    }

    /** `toggleSidebar()`: always a change, so always two events. */
    method ToggleSidebar()
      requires Valid()
      modifies this
      ensures Valid()
      ensures isSidebarOpen == !old(isSidebarOpen)
      ensures dispatched == old(dispatched) + ChangeEvents(IsSidebarOpen, !old(isSidebarOpen), old(isSidebarOpen))
    {
      var _ := Set(IsSidebarOpen, !Get(IsSidebarOpen));
    }
  }

  /** Two toggles restore the sidebar flag and announce the flip and the flip back, in that order. */
  method ToggleTwice(store: StateStore)
    requires store.Valid()
    modifies store
    ensures store.Valid()
    ensures store.isSidebarOpen == old(store.isSidebarOpen)
    ensures store.dispatched == old(store.dispatched)
                                + ChangeEvents(IsSidebarOpen, !old(store.isSidebarOpen), old(store.isSidebarOpen))
                                + ChangeEvents(IsSidebarOpen, old(store.isSidebarOpen), !old(store.isSidebarOpen))
  {
    store.ToggleSidebar();
    store.ToggleSidebar();
  }
}
