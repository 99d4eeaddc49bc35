/**
 * The browser's realtime channel (`WSClient`): one transport connection that is
 * re-opened 3000 ms after every close, and a table from topic to the set of listeners
 * of that topic. A JavaScript `Set` iterates in insertion order, so each set is a
 * sequence without duplicates. The transport is an event source whose events
 * (open, message, error, close, timer expiry) are the methods of the class.
 */
module WsClient {
  import opened Wrappers
  import opened JsonData

  /** Identity of a listener function (JavaScript compares functions by reference). */
  type Listener = nat

  type Table = map<string, seq<Listener>>

  /** The topic whose listeners receive every message. */
  const Wildcard: string := "*"

  /** Delay, in milliseconds, between a close and the next connection attempt. */
  const ReconnectInterval: nat := 3000

  /** What `JSON.parse` made of an inbound frame: it either throws or yields a value. */
  datatype Frame = Unparsable | Parsed(msg: Json)

  /** One invocation `listener(arg)`; `arg` is `None` when the listener receives `undefined`. */
  datatype Call = Call(listener: Listener, arg: Option<Json>)

  /** The transport's `readyState`. */
  datatype ReadyState = Connecting | Open | Closing | Closed

  /** The capability `subscribe` returns: calling it releases exactly this registration. */
  datatype Subscription = Subscription(event: string, listener: Listener)

  predicate NoDuplicates(s: seq<Listener>) {
    forall i, j :: 0 <= i < j < |s| ==> s[i] != s[j]
  }

  ghost predicate WellFormed(table: Table) {
    forall e :: e in table ==> NoDuplicates(table[e])
  }

  /** `listeners.get(event)`, with a missing set read as empty. */
  function Members(table: Table, event: string): seq<Listener> {
    if event in table then table[event] else []
  }

  /** `Set.prototype.add`: a new member goes last; a present member stays where it is. */
  function SetAdd(s: seq<Listener>, x: Listener): seq<Listener> {
    if x in s then s else s + [x]
  }

  /** `Set.prototype.delete`: removes `x`, keeping the others in order. */
  function SetDelete(s: seq<Listener>, x: Listener): seq<Listener> {
    if s == [] then [] else (if s[0] == x then [] else [s[0]]) + SetDelete(s[1..], x)
  }

  /** The table after `subscribe(event, listener)`: the topic's set is created if absent. */
  function Subscribed(table: Table, event: string, listener: Listener): Table {
    table[event := SetAdd(Members(table, event), listener)]
  }

  /** The table after the returned unsubscribe runs: `listeners.get(event)?.delete(listener)`. */
  function Unsubscribed(table: Table, event: string, listener: Listener): Table {
    if event in table then table[event := SetDelete(table[event], listener)] else table
  }

  /** The `event` field of a message, when it is a string (only strings can match a topic key). */
  function EventName(msg: Json): Option<string> {
    match Field(msg, "event")
    case Some(JStr(s)) => Some(s)
    case _ => None
  }

  /** The listeners registered under the message's topic (none when it has no string `event`). */
  function TopicMembers(table: Table, msg: Json): seq<Listener> {
    match EventName(msg)
    case Some(e) => Members(table, e)
    case None => []
  }

  function CallsTo(ls: seq<Listener>, arg: Option<Json>): (r: seq<Call>)
    ensures |r| == |ls|
    ensures forall k :: 0 <= k < |ls| ==> r[k] == Call(ls[k], arg)
  {
    seq(|ls|, k requires 0 <= k < |ls| => Call(ls[k], arg))
  }

  /**
   * The calls a frame asks for: none when parsing or destructuring throws (a `null`
   * message); otherwise each listener of the message's topic with `msg.data`, then each
   * wildcard listener with the whole message.
   */
  function Planned(table: Table, frame: Frame): seq<Call> {
    match frame
    case Unparsable => []
    case Parsed(msg) =>
      if msg.JNull? then []
      else
        CallsTo(TopicMembers(table, msg), Field(msg, "data")) + CallsTo(Members(table, Wildcard), Some(msg))
  }

  /**
   * The calls actually made when the calls in `raises` throw: the exception leaves
   * `forEach` and is swallowed by the handler's `catch`, so delivery of this frame stops
   * right after the first throwing call.
   */
  function UntilRaise(calls: seq<Call>, raises: Call -> bool): seq<Call> {
    if calls == [] then []
    else if raises(calls[0]) then [calls[0]]
    else [calls[0]] + UntilRaise(calls[1..], raises)
  }

  /** What one inbound frame invokes. */
  function Delivered(table: Table, frame: Frame, raises: Call -> bool): seq<Call> {
    UntilRaise(Planned(table, frame), raises)
  }

  /**
   * A frame's delivery is a prefix of its planned calls; every call but the last returned
   * normally, and delivery stops early only right after a call that threw.
   */
  lemma {:induction false} UntilRaisePrefix(calls: seq<Call>, raises: Call -> bool)
    ensures var r := UntilRaise(calls, raises);
      && |r| <= |calls| && r == calls[..|r|]
      && (forall k :: 0 <= k < |r| - 1 ==> !raises(r[k]))
      && (|r| < |calls| ==> |r| > 0 && raises(r[|r| - 1]))
      && (!AnyRaises(calls, raises) ==> r == calls)
  {
    if calls != [] && !raises(calls[0]) {
      UntilRaisePrefix(calls[1..], raises);
      var t := UntilRaise(calls[1..], raises);
      assert UntilRaise(calls, raises) == [calls[0]] + t;
      assert calls == [calls[0]] + calls[1..];
      AnyRaisesCons(calls, raises);
    }
  }

  lemma {:induction false} UntilRaiseAt(calls: seq<Call>, raises: Call -> bool, k: nat)
    requires k < |calls| && raises(calls[k])
    requires forall j :: 0 <= j < k ==> !raises(calls[j])
    ensures UntilRaise(calls, raises) == calls[..k + 1]
  {
    if k > 0 {
      UntilRaiseAt(calls[1..], raises, k - 1);
      assert calls[..k + 1] == [calls[0]] + calls[1..][..k];
    }
  }

  class WSClient {
    const url: string
    /** `listeners`: topic to the set of its listeners. */
    var listeners: Table
    /** `readyState` of the current socket `ws`. */
    var readyState: ReadyState
    /** Due times of the pending `setTimeout(() => this.connect(), reconnectInterval)` timers. */
    var pendingReconnects: seq<int>
    /** How many sockets `connect` has created so far. */
    var sockets: nat

    ghost predicate Valid()
      reads this
    {
      && WellFormed(listeners)
      && |pendingReconnects| <= 1
      && (|pendingReconnects| == 1 <==> readyState == Closed)
    }

    /** `new WSClient(url)` connects at once. */
    constructor (url: string)
      ensures Valid()
      ensures this.url == url && listeners == map[]
      ensures readyState == Connecting && pendingReconnects == [] && sockets == 1
      ensures !Connected()
    {
      this.url := url;
      listeners := map[];
      readyState := Connecting;
      pendingReconnects := [];
      sockets := 1;
    }

    /** `get connected()`: the current socket is OPEN. */
    function Connected(): (r: bool)
      reads this
      ensures r <==> readyState == Open
    {
      readyState.Open?
    }

    method Subscribe(event: string, listener: Listener) returns (s: Subscription)
      requires Valid()
      modifies this
      ensures Valid()
      ensures listeners == Subscribed(old(listeners), event, listener)
      ensures s == Subscription(event, listener)
      ensures readyState == old(readyState) && pendingReconnects == old(pendingReconnects)
      ensures sockets == old(sockets)
    {
      if event !in listeners {
        listeners := listeners[event := []];
      }
      var members := listeners[event];
      if listener !in members {
        listeners := listeners[event := members + [listener]];
      }
      s := Subscription(event, listener);
    }

    /** The closure `subscribe` returned. */
    method Unsubscribe(s: Subscription)
      requires Valid()
      modifies this
      ensures Valid()
      ensures listeners == Unsubscribed(old(listeners), s.event, s.listener)
      ensures readyState == old(readyState) && pendingReconnects == old(pendingReconnects)
      ensures sockets == old(sockets)
    {
      if s.event in listeners {
        SetDeleteKeepsNoDuplicates(listeners[s.event], s.listener);
        listeners := listeners[s.event := SetDelete(listeners[s.event], s.listener)];
      }
    }

    /** `ws.onmessage`: delivers one frame; nothing in the client changes. */
    method OnMessage(frame: Frame, raises: Call -> bool) returns (calls: seq<Call>)
      ensures calls == Delivered(listeners, frame, raises)
    {
      if frame.Unparsable? || frame.msg.JNull? {
        return [];
      }
      var msg := frame.msg;
      var topicCalls, threw := ForEach(TopicMembers(listeners, msg), Field(msg, "data"), raises);
      if threw {
        UntilRaiseAppend(CallsTo(TopicMembers(listeners, msg), Field(msg, "data")),
          CallsTo(Members(listeners, Wildcard), Some(msg)), raises);
        return topicCalls;
      }
      var wildCalls, _ := ForEach(Members(listeners, Wildcard), Some(msg), raises);
      UntilRaisePrefix(CallsTo(TopicMembers(listeners, msg), Field(msg, "data")), raises);
      UntilRaiseAppend(CallsTo(TopicMembers(listeners, msg), Field(msg, "data")),
        CallsTo(Members(listeners, Wildcard), Some(msg)), raises);
      calls := topicCalls + wildCalls;
    }

    /** The transport reports that the handshake completed. */
    method OnOpen()
      requires Valid() && readyState == Connecting
      modifies this
      ensures Valid() && readyState == Open && Connected()
      ensures listeners == old(listeners) && pendingReconnects == old(pendingReconnects)
      ensures sockets == old(sockets)
    {
      readyState := Open;
    }

    /** `ws.onerror`: only `ws.close()`, which moves a live socket to CLOSING; no timer. */
    method OnError()
      requires Valid()
      modifies this
      ensures Valid()
      ensures readyState == (if old(readyState) in {Connecting, Open} then Closing else old(readyState))
      ensures !Connected()
      ensures listeners == old(listeners) && pendingReconnects == old(pendingReconnects)
      ensures sockets == old(sockets)
    {
      if readyState == Connecting || readyState == Open {
        readyState := Closing;
      }
    }

    /**
     * `ws.onclose` at time `now`: schedules exactly one `connect` for `now + 3000`.
     * A socket reports its close once, so it is not CLOSED yet.
     */
    method OnClose(now: int)
      requires Valid() && readyState != Closed
      modifies this
      ensures Valid() && readyState == Closed && !Connected()
      ensures pendingReconnects == old(pendingReconnects) + [now + ReconnectInterval]
      ensures |pendingReconnects| == 1
      ensures listeners == old(listeners) && sockets == old(sockets)
    {
      readyState := Closed;
      pendingReconnects := pendingReconnects + [now + ReconnectInterval];
    }

    /**
     * The timer queue at time `now`: a due reconnect timer runs `connect`, which replaces
     * only the socket; the listener table is kept.
     */
    method OnTimer(now: int) returns (fired: bool)
      requires Valid()
      modifies this
      ensures Valid()
      ensures fired <==> |old(pendingReconnects)| == 1 && old(pendingReconnects)[0] <= now
      ensures fired ==> readyState == Connecting && pendingReconnects == [] && sockets == old(sockets) + 1
      ensures fired ==> !Connected()
      ensures !fired ==>
        (readyState == old(readyState) && pendingReconnects == old(pendingReconnects) && sockets == old(sockets))
      ensures listeners == old(listeners)
    {
      fired := |pendingReconnects| == 1 && pendingReconnects[0] <= now;
      if fired {
        pendingReconnects := [];
        readyState := Connecting;
        sockets := sockets + 1;
      }
    }
  }

  lemma {:induction false} SetDeleteKeepsNoDuplicates(s: seq<Listener>, x: Listener)
    requires NoDuplicates(s)
    ensures NoDuplicates(SetDelete(s, x))
    ensures forall y :: y in SetDelete(s, x) <==> y in s && y != x
  {
    if s != [] {
      assert NoDuplicates(s[1..]);
      SetDeleteKeepsNoDuplicates(s[1..], x);
      var rest := SetDelete(s[1..], x);
      assert s[0] !in s[1..];
      if s[0] != x {
        assert SetDelete(s, x) == [s[0]] + rest;
        assert s[0] !in rest;
      }
    }
  }

  /** True when some call in `calls` throws. */
  predicate AnyRaises(calls: seq<Call>, raises: Call -> bool) {
    exists k :: 0 <= k < |calls| && raises(calls[k])
  }

  lemma AnyRaisesCons(calls: seq<Call>, raises: Call -> bool)
    requires calls != []
    ensures AnyRaises(calls, raises) <==> raises(calls[0]) || AnyRaises(calls[1..], raises)
  {
    if AnyRaises(calls[1..], raises) {
      var k :| 0 <= k < |calls[1..]| && raises(calls[1..][k]);
      assert raises(calls[k + 1]);
    }
    if AnyRaises(calls, raises) && !raises(calls[0]) {
      var k :| 0 <= k < |calls| && raises(calls[k]);
      assert raises(calls[1..][k - 1]);
    }
  }

  /** `set.forEach((cb) => cb(arg))`: stops at the first listener that throws and reports it. */
  method ForEach(ls: seq<Listener>, arg: Option<Json>, raises: Call -> bool) returns (calls: seq<Call>, threw: bool)
    ensures calls == UntilRaise(CallsTo(ls, arg), raises)
    ensures threw <==> AnyRaises(CallsTo(ls, arg), raises)
  {
    ghost var planned := CallsTo(ls, arg);
    calls := [];
    var i := 0;
    while i < |ls|
      invariant 0 <= i <= |ls|
      invariant calls == planned[..i]
      invariant forall j :: 0 <= j < i ==> !raises(planned[j])
    {
      var c := Call(ls[i], arg);
      calls := calls + [c];
      if raises(c) {
        UntilRaiseAt(planned, raises, i);
        return calls, true;
      }
      i := i + 1;
    }
    assert planned[..|ls|] == planned;
    UntilRaisePrefix(planned, raises);
    threw := false;
  }

  /** Delivery over two phases: the second runs only when no call of the first threw. */
  lemma {:induction false} UntilRaiseAppend(a: seq<Call>, b: seq<Call>, raises: Call -> bool)
    ensures UntilRaise(a + b, raises) ==
      if AnyRaises(a, raises) then UntilRaise(a, raises) else a + UntilRaise(b, raises)
  {
    if a == [] {
      assert a + b == b;
    } else {
      var ab := a + b;
      assert ab[0] == a[0];
      assert ab[1..] == a[1..] + b;
      AnyRaisesCons(a, raises);
      if !raises(a[0]) {
        UntilRaiseAppend(a[1..], b, raises);
        assert UntilRaise(ab, raises) == [a[0]] + UntilRaise(a[1..] + b, raises);
        assert UntilRaise(a, raises) == [a[0]] + UntilRaise(a[1..], raises);
        if !AnyRaises(a, raises) {
          assert [a[0]] + (a[1..] + UntilRaise(b, raises)) == a + UntilRaise(b, raises);
        }
      }
    }
  }


  /** `Set.prototype.delete` of an absent member changes nothing. */
  lemma {:induction false} SetDeleteAbsent(s: seq<Listener>, x: Listener)
    requires x !in s
    ensures SetDelete(s, x) == s
  {
    if s != [] {
      assert x !in s[1..];
      SetDeleteAbsent(s[1..], x);
      assert s == [s[0]] + s[1..];
    }
  }

  /** Adding a new member and deleting it again gives back the original set. */
  lemma {:induction false} SetDeleteLast(s: seq<Listener>, x: Listener)
    requires x !in s
    ensures SetDelete(s + [x], x) == s
  {
    if s == [] {
      assert SetDelete([x], x) == [] + SetDelete([x][1..], x);
    } else {
      var t := s + [x];
      assert t[0] == s[0] && t[1..] == s[1..] + [x];
      assert x !in s[1..];
      SetDeleteLast(s[1..], x);
      assert s == [s[0]] + s[1..];
    }
  }

  /**
   * `subscribe` keeps every set free of duplicates, puts the listener in its topic's set,
   * keeps the members already there in their order and leaves every other topic alone.
   */
  lemma SubscribeEffect(table: Table, event: string, listener: Listener)
    requires WellFormed(table)
    ensures var t := Subscribed(table, event, listener);
      && WellFormed(t)
      && listener in Members(t, event)
      && (forall y :: y in Members(t, event) <==> y in Members(table, event) || y == listener)
      && Members(t, event)[..|Members(table, event)|] == Members(table, event)
      && (forall e :: e != event ==> Members(t, e) == Members(table, e))
  {
    var s := Members(table, event);
    if listener !in s {
      assert NoDuplicates(s + [listener]);
    }
  }

  /** Subscribing the same listener to the same topic twice is the same as once. */
  lemma SubscribeIdempotent(table: Table, event: string, listener: Listener)
    ensures Subscribed(Subscribed(table, event, listener), event, listener) == Subscribed(table, event, listener)
  {
    var t := Subscribed(table, event, listener);
    assert listener in Members(t, event);
  }

  /**
   * The returned unsubscribe removes exactly that listener from exactly that topic: the
   * other members keep their order, and every other topic is untouched.
   */
  lemma UnsubscribeEffect(table: Table, event: string, listener: Listener)
    requires WellFormed(table)
    ensures var t := Unsubscribed(table, event, listener);
      && WellFormed(t)
      && listener !in Members(t, event)
      && (forall y :: y in Members(t, event) <==> y in Members(table, event) && y != listener)
      && (forall e :: e != event ==> Members(t, e) == Members(table, e))
  {
    if event in table {
      SetDeleteKeepsNoDuplicates(table[event], listener);
    }
  }

  /** Calling an unsubscribe a second time changes nothing. */
  lemma UnsubscribeIdempotent(table: Table, event: string, listener: Listener)
    requires WellFormed(table)
    ensures Unsubscribed(Unsubscribed(table, event, listener), event, listener) == Unsubscribed(table, event, listener)
  {
    if event in table {
      SetDeleteKeepsNoDuplicates(table[event], listener);
      SetDeleteAbsent(SetDelete(table[event], listener), listener);
    }
  }

  /** Subscribing a new listener and then releasing it leaves its topic's set as it was. */
  lemma SubscribeThenUnsubscribe(table: Table, event: string, listener: Listener)
    requires listener !in Members(table, event)
    ensures Members(Unsubscribed(Subscribed(table, event, listener), event, listener), event)
      == Members(table, event)
  {
    SetDeleteLast(Members(table, event), listener);
  }

  /** Every call in a planned delivery goes to a subscriber of the message's topic or of `*`. */
  lemma PlannedListeners(table: Table, frame: Frame)
    ensures forall c :: c in Planned(table, frame) ==>
      frame.Parsed? && (c.listener in TopicMembers(table, frame.msg) || c.listener in Members(table, Wildcard))
  {
    if frame.Parsed? && !frame.msg.JNull? {
      var a := CallsTo(TopicMembers(table, frame.msg), Field(frame.msg, "data"));
      var b := CallsTo(Members(table, Wildcard), Some(frame.msg));
      forall c: Call | c in a + b
        ensures c.listener in TopicMembers(table, frame.msg) || c.listener in Members(table, Wildcard)
      {
        if c in a {
          var k :| 0 <= k < |a| && a[k] == c;
        } else {
          var k :| 0 <= k < |b| && b[k] == c;
        }
      }
    }
  }

  /**
   * A listener registered under no topic receives nothing: once the unsubscribe of every
   * registration of a callback has run, no frame reaches it, whatever other listeners throw.
   */
  lemma ReleasedNeverCalled(table: Table, frame: Frame, raises: Call -> bool, listener: Listener)
    requires forall e :: e in table ==> listener !in table[e]
    ensures forall c :: c in Delivered(table, frame, raises) ==> c.listener != listener
  {
    var planned := Planned(table, frame);
    UntilRaisePrefix(planned, raises);
    PlannedListeners(table, frame);
    var r := Delivered(table, frame, raises);
    forall c | c in r
      ensures c.listener != listener
    {
      var k :| 0 <= k < |r| && r[k] == c;
      assert c == planned[k];
    }
  }

  /**
   * When no listener throws, a message whose `event` names a topic reaches every listener
   * of that topic with its `data`, and every `*` listener with the whole message.
   */
  lemma SubscribersReceive(table: Table, msg: Json, raises: Call -> bool)
    requires !msg.JNull?
    requires !AnyRaises(Planned(table, Parsed(msg)), raises)
    ensures forall l :: l in TopicMembers(table, msg) ==>
      Call(l, Field(msg, "data")) in Delivered(table, Parsed(msg), raises)
    ensures forall l :: l in Members(table, Wildcard) ==>
      Call(l, Some(msg)) in Delivered(table, Parsed(msg), raises)
  {
    var planned := Planned(table, Parsed(msg));
    UntilRaisePrefix(planned, raises);
    var a := CallsTo(TopicMembers(table, msg), Field(msg, "data"));
    var b := CallsTo(Members(table, Wildcard), Some(msg));
    assert planned == a + b;
    forall l | l in TopicMembers(table, msg)
      ensures Call(l, Field(msg, "data")) in planned
    {
      var k :| 0 <= k < |TopicMembers(table, msg)| && TopicMembers(table, msg)[k] == l;
      assert planned[k] == a[k];
    }
    forall l | l in Members(table, Wildcard)
      ensures Call(l, Some(msg)) in planned
    {
      var k :| 0 <= k < |Members(table, Wildcard)| && Members(table, Wildcard)[k] == l;
      assert planned[|a| + k] == b[k];
    }
  }

  /** How many of `calls` invoke `listener`. */
  function CallsOf(calls: seq<Call>, listener: Listener): nat {
    if calls == [] then 0 else (if calls[0].listener == listener then 1 else 0) + CallsOf(calls[1..], listener)
  }

  lemma {:induction false} CallsOfAppend(a: seq<Call>, b: seq<Call>, listener: Listener)
    ensures CallsOf(a + b, listener) == CallsOf(a, listener) + CallsOf(b, listener)
  {
    if a == [] {
      assert a + b == b;
    } else {
      assert (a + b)[0] == a[0];
      assert (a + b)[1..] == a[1..] + b;
      CallsOfAppend(a[1..], b, listener);
    }
  }

  /** Walking a set without duplicates calls each member once and nothing else. */
  lemma {:induction false} CallsOfCallsTo(ls: seq<Listener>, arg: Option<Json>, listener: Listener)
    requires NoDuplicates(ls)
    ensures CallsOf(CallsTo(ls, arg), listener) == if listener in ls then 1 else 0
  {
    if ls != [] {
      var cs := CallsTo(ls, arg);
      assert cs[1..] == CallsTo(ls[1..], arg);
      assert NoDuplicates(ls[1..]);
      CallsOfCallsTo(ls[1..], arg, listener);
      assert ls == [ls[0]] + ls[1..];
      assert ls[0] !in ls[1..];
    }
  }

  /**
   * When no listener throws, a frame invokes each listener once per registration that
   * matches it: once if it listens to the frame's topic, once more if it listens to `*`.
   * So a widget's `fetchData`, registered on its refresh topic only, runs once per message
   * on that topic.
   */
  lemma DeliveredOnce(table: Table, msg: Json, raises: Call -> bool, listener: Listener)
    requires WellFormed(table) && !msg.JNull?
    requires !AnyRaises(Planned(table, Parsed(msg)), raises)
    ensures CallsOf(Delivered(table, Parsed(msg), raises), listener) ==
      (if listener in TopicMembers(table, msg) then 1 else 0)
      + (if listener in Members(table, Wildcard) then 1 else 0)
  {
    var a := CallsTo(TopicMembers(table, msg), Field(msg, "data"));
    var b := CallsTo(Members(table, Wildcard), Some(msg));
    UntilRaisePrefix(a + b, raises);
    CallsOfAppend(a, b, listener);
    CallsOfCallsTo(TopicMembers(table, msg), Field(msg, "data"), listener);
    CallsOfCallsTo(Members(table, Wildcard), Some(msg), listener);
  }

  /**
   * The URL of the realtime channel: `wss:` on a page served over `https:`, `ws:` otherwise,
   * then the page's host and the path `/ws`.
   */
  function ChannelUrl(protocol: string, host: string): (r: string)
    ensures protocol == "https:" ==> r == "wss://" + host + "/ws"
    ensures protocol != "https:" ==> r == "ws://" + host + "/ws"
  {
    (if protocol == "https:" then "wss:" else "ws:") + "//" + host + "/ws"
  }

  /**
   * The URL determines the host and whether the page was served over `https:`: two pages
   * share a channel URL only when they have the same host and the same security.
   */
  lemma ChannelUrlInjective(protocol1: string, host1: string, protocol2: string, host2: string)
    requires ChannelUrl(protocol1, host1) == ChannelUrl(protocol2, host2)
    ensures host1 == host2
    ensures protocol1 == "https:" <==> protocol2 == "https:"
  {
    var u := ChannelUrl(protocol1, host1);
    var scheme1 := if protocol1 == "https:" then "wss://" else "ws://";
    var scheme2 := if protocol2 == "https:" then "wss://" else "ws://";
    assert u == scheme1 + host1 + "/ws";
    assert u == scheme2 + host2 + "/ws";
    assert u[2] == scheme1[2] == scheme2[2];
    assert scheme1 == scheme2;
    assert host1 == u[|scheme1|..|u| - 3] == host2;
  }
}
