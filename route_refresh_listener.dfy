/** The refresh debouncer (RouteRefreshListener): lifecycle events always
    publish a refresh, heartbeats publish one only when the heartbeat value
    has changed, and every other event is ignored. */
module RouteRefresh {
  import opened Wrappers

  /** The application events the listener tells apart; `OtherEvent` is every
      other kind. A heartbeat carries an opaque value. */
  datatype ApplicationEvent<V> =
    | ContextRefreshed
    | RefreshScopeRefreshed
    | InstanceRegistered
    | ParentHeartbeat(value: V)
    | Heartbeat(value: V)
    | OtherEvent

  /** The event published to ask for the routes to be refreshed. */
  datatype RefreshRoutesEvent = RefreshRoutesEvent(source: object)

  /** The event bus, seen from the listener: what has been published so far. */
  class ApplicationEventPublisher {
    ghost var published: seq<RefreshRoutesEvent>

    constructor ()
      ensures published == []
    {
      published := [];
    }

    method PublishEvent(event: RefreshRoutesEvent)
      modifies this
      ensures published == old(published) + [event]
    {
      published := published + [event];
    }
  }

  /** HeartbeatMonitor belongs to another library and is not modelled; this
      class states the contract the listener relies on: `Update` reports
      whether the value differs from the last one recorded, and records it. */
  class HeartbeatMonitor<V(==)> {
    var latest: Option<V>

    constructor ()
      ensures latest == None
    {
      latest := None;
    }

    method Update(value: V) returns (changed: bool)
      modifies this
      ensures changed <==> old(latest) != Some(value)
      ensures latest == Some(value)
    {
      changed := latest != Some(value);
      latest := Some(value);
    }
  }

  // ---------------------------------------------------------------------------
  // The debouncer as a state machine
  // ---------------------------------------------------------------------------

  /** One transition: the monitor's next state, and whether a refresh is
      published. */
  function Step<V(==)>(latest: Option<V>, event: ApplicationEvent<V>): (Option<V>, bool) {
    match event
    case ContextRefreshed => (latest, true)
    case RefreshScopeRefreshed => (latest, true)
    case InstanceRegistered => (latest, true)
    case ParentHeartbeat(v) => (Some(v), latest != Some(v))
    case Heartbeat(v) => (Some(v), latest != Some(v))
    case OtherEvent => (latest, false)
  }

  /** The monitor's state after a series of events. */
  function After<V(==)>(latest: Option<V>, events: seq<ApplicationEvent<V>>): Option<V>
    decreases |events|
  {
    if events == [] then latest else After(Step(latest, events[0]).0, events[1..])
  }

  /** How many refreshes a series of events publishes. */
  function Refreshes<V(==)>(latest: Option<V>, events: seq<ApplicationEvent<V>>): (n: nat)
    ensures n <= |events|
    decreases |events|
  {
    if events == [] then 0
    else
      var (next, publishes) := Step(latest, events[0]);
      (if publishes then 1 else 0) + Refreshes(next, events[1..])
  }

  predicate IsHeartbeat<V>(event: ApplicationEvent<V>) {
    event.ParentHeartbeat? || event.Heartbeat?
  }

  /** Lifecycle events always publish, and leave the monitor as it was. */
  lemma LifecycleAlwaysRefreshes<V>(latest: Option<V>, event: ApplicationEvent<V>)
    requires event.ContextRefreshed? || event.RefreshScopeRefreshed? || event.InstanceRegistered?
    ensures Step(latest, event) == (latest, true)
  {
  }

  /** Any heartbeat, of either kind, publishes exactly when its value differs
      from the one recorded last. */
  lemma HeartbeatRefreshesOnChange<V>(latest: Option<V>, event: ApplicationEvent<V>)
    requires IsHeartbeat(event)
    ensures Step(latest, event).1 <==> latest != Some(event.value)
    ensures Step(latest, event).0 == Some(event.value)
  {
  }

  /** A non-empty run of heartbeats, parent or not, that all carry one value
      publishes exactly one refresh if that value was not recorded, and none
      if it was; an empty run publishes none. */
  lemma {:induction false} SameValueHeartbeatsRefreshOnce<V>(latest: Option<V>, events: seq<ApplicationEvent<V>>, v: V)
    requires forall i :: 0 <= i < |events| ==> IsHeartbeat(events[i]) && events[i].value == v
    ensures Refreshes(latest, events) <= 1
    ensures latest == Some(v) ==> Refreshes(latest, events) == 0
    ensures events != [] && latest != Some(v) ==> Refreshes(latest, events) == 1
    ensures events != [] ==> After(latest, events) == Some(v)
    decreases |events|
  {
    if events != [] {
      SameValueHeartbeatsRefreshOnce(Some(v), events[1..], v);
    }
  }

  /** Events of no kind the listener knows publish nothing and leave the
      monitor as it was, however many there are. */
  lemma {:induction false} OtherEventsAreIgnored<V>(latest: Option<V>, events: seq<ApplicationEvent<V>>)
    requires forall i :: 0 <= i < |events| ==> events[i].OtherEvent?
    ensures Refreshes(latest, events) == 0
    ensures After(latest, events) == latest
    decreases |events|
  {
    if events != [] {
      OtherEventsAreIgnored(latest, events[1..]);
    }
  }

  // ---------------------------------------------------------------------------
  // The listener
  // ---------------------------------------------------------------------------

  class RouteRefreshListener<V(==)> {
    const publisher: ApplicationEventPublisher
    const monitor: HeartbeatMonitor<V>

    constructor (publisher: ApplicationEventPublisher)
      ensures this.publisher == publisher
      ensures fresh(monitor) && monitor.latest == None
    {
      this.publisher := publisher;
      monitor := new HeartbeatMonitor();
    }

    /** The public constructor: a null publisher is rejected. */
    static method Create(publisher: ApplicationEventPublisher?) returns (r: Result<RouteRefreshListener<V>, string>)
      ensures r.Failure? <==> publisher == null
      ensures r.Failure? ==> r.error == "publisher may not be null"
      ensures r.Success? ==>
        fresh(r.value) && r.value.publisher == publisher &&
        fresh(r.value.monitor) && r.value.monitor.latest == None
    {
      if publisher == null {
        return Failure("publisher may not be null");
      }
      var listener := new RouteRefreshListener(publisher);
      return Success(listener);
    }

    /** onApplicationEvent: one step of the state machine, publishing at most
      one refresh event, whose source is this listener. */
    method OnApplicationEvent(event: ApplicationEvent<V>)
      modifies monitor, publisher
      ensures monitor.latest == Step(old(monitor.latest), event).0
      ensures publisher.published ==
        old(publisher.published) + if Step(old(monitor.latest), event).1 then [RefreshRoutesEvent(this)] else []
      ensures |publisher.published| <= |old(publisher.published)| + 1
      ensures forall i :: |old(publisher.published)| <= i < |publisher.published| ==>
        publisher.published[i].source == this
    {
      match event {
        case ContextRefreshed => Reset();
        case RefreshScopeRefreshed => Reset();
        case InstanceRegistered => Reset();
        case ParentHeartbeat(value) => ResetIfNeeded(value);
        case Heartbeat(value) => ResetIfNeeded(value);
        case OtherEvent =>
      }
    }

    /** A run of events delivered one after the other: the monitor ends as
      the state machine says, and the listener publishes exactly as many
      refresh events as the run calls for, all with itself as source. */
    method OnApplicationEvents(events: seq<ApplicationEvent<V>>)
      modifies monitor, publisher
      ensures monitor.latest == After(old(monitor.latest), events)
      ensures |publisher.published| == |old(publisher.published)| + Refreshes(old(monitor.latest), events)
      ensures old(publisher.published) <= publisher.published
      ensures forall i :: |old(publisher.published)| <= i < |publisher.published| ==>
        publisher.published[i].source == this
    {
      ghost var published0 := publisher.published;
      ghost var latest0 := monitor.latest;
      for i := 0 to |events|
        invariant After(monitor.latest, events[i..]) == After(latest0, events)
        invariant |publisher.published| + Refreshes(monitor.latest, events[i..]) ==
          |published0| + Refreshes(latest0, events)
        invariant published0 <= publisher.published
        invariant forall k :: |published0| <= k < |publisher.published| ==> publisher.published[k].source == this
      {
        assert events[i..][1..] == events[i + 1..];
        OnApplicationEvent(events[i]);
      }
    }

    method ResetIfNeeded(value: V)
      modifies monitor, publisher
      ensures monitor.latest == Some(value)
      ensures publisher.published ==
        old(publisher.published) + if old(monitor.latest) != Some(value) then [RefreshRoutesEvent(this)] else []
    {
      var changed := monitor.Update(value);
      if changed {
        Reset();
      }
    }

    method Reset()
      modifies publisher
      ensures publisher.published == old(publisher.published) + [RefreshRoutesEvent(this)]
    {
      publisher.PublishEvent(RefreshRoutesEvent(this));
    }
  }

  /** Two identical heartbeats in a row publish exactly one refresh between
      them if their value was not recorded, and none if it was, whichever of
      the two kinds each one is. */
  method TwoIdenticalHeartbeats<V(==)>(listener: RouteRefreshListener<V>, first: ApplicationEvent<V>, second: ApplicationEvent<V>)
    requires IsHeartbeat(first) && IsHeartbeat(second) && first.value == second.value
    modifies listener.monitor, listener.publisher
    ensures |listener.publisher.published| <= |old(listener.publisher.published)| + 1
    ensures old(listener.monitor.latest) != Some(first.value) ==>
      |listener.publisher.published| == |old(listener.publisher.published)| + 1
    ensures old(listener.monitor.latest) == Some(first.value) ==>
      listener.publisher.published == old(listener.publisher.published)
    ensures listener.monitor.latest == Some(first.value)
  {
    listener.OnApplicationEvent(first);
    listener.OnApplicationEvent(second);
  }

  /** Any non-empty run of heartbeats carrying one value, of either kind,
      makes the listener publish exactly one refresh, and none if the value
      was already recorded. */
  method SameValueHeartbeatRun<V(==)>(listener: RouteRefreshListener<V>, events: seq<ApplicationEvent<V>>, v: V)
    requires forall i :: 0 <= i < |events| ==> IsHeartbeat(events[i]) && events[i].value == v
    modifies listener.monitor, listener.publisher
    ensures |listener.publisher.published| <= |old(listener.publisher.published)| + 1
    ensures old(listener.monitor.latest) == Some(v) ==>
      listener.publisher.published == old(listener.publisher.published)
    ensures events != [] && old(listener.monitor.latest) != Some(v) ==>
      |listener.publisher.published| == |old(listener.publisher.published)| + 1
  {
    SameValueHeartbeatsRefreshOnce(listener.monitor.latest, events, v);
    listener.OnApplicationEvents(events);
  }
}
