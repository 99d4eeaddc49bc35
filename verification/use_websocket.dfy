/**
 * `useWebSocket(event, callback)`: a component's binding to the shared realtime client.
 * Its effect subscribes `(event, callback)` and its cleanup is exactly the unsubscribe
 * that `subscribe` returned. React runs the cleanup before re-running the effect when
 * `event` or `callback` changes, and once more on unmount.
 */
module UseWebSocket {
  import opened Wrappers
  import opened WsClient

  class WebSocketHook {
    /** The module-level `wsClient` every hook shares. */
    const client: WSClient
    /** The registration the current effect holds (its cleanup), if the effect has run. */
    var held: Option<Subscription>

    /** The component's first render; the effect has not run yet. */
    constructor (client: WSClient)
      ensures this.client == client && held == None
    {
      this.client := client;
      held := None;
    }

    /**
     * A commit with dependencies `[event, callback]`: nothing happens when they are the ones
     * the current effect was run with; otherwise the old registration is released first and
     * the new one added.
     */
    method Commit(event: string, callback: Listener)
      requires client.Valid()
      modifies this, client
      ensures client.Valid()
      ensures held == Some(Subscription(event, callback))
      ensures old(held) != held ==> callback in Members(client.listeners, event)
      ensures old(held) == Some(Subscription(event, callback)) ==> client.listeners == old(client.listeners)
      ensures old(held) == None ==> client.listeners == Subscribed(old(client.listeners), event, callback)
      ensures old(held).Some? && old(held) != Some(Subscription(event, callback)) ==>
        client.listeners == Subscribed(
          Unsubscribed(old(client.listeners), old(held).value.event, old(held).value.listener),
          event, callback)
      ensures client.readyState == old(client.readyState)
      ensures client.pendingReconnects == old(client.pendingReconnects)
      ensures client.sockets == old(client.sockets)
    {
      if held == Some(Subscription(event, callback)) {
        return;
      }
      if held.Some? {
        client.Unsubscribe(held.value);
      }
      var s := client.Subscribe(event, callback);
      SubscribeEffect(client.listeners, event, callback);
      held := Some(s);
    }

    /** Unmount: the cleanup of the last effect runs; the hook holds nothing afterwards. */
    method Unmount()
      requires client.Valid()
      modifies this, client
      ensures client.Valid() && held == None
      ensures old(held).Some? ==>
        client.listeners == Unsubscribed(old(client.listeners), old(held).value.event, old(held).value.listener)
      ensures old(held).None? ==> client.listeners == old(client.listeners)
      ensures old(held).Some? ==> old(held).value.listener !in Members(client.listeners, old(held).value.event)
      ensures client.readyState == old(client.readyState)
      ensures client.pendingReconnects == old(client.pendingReconnects)
      ensures client.sockets == old(client.sockets)
    {
      if held.Some? {
        var s := held.value;
        UnsubscribeEffect(client.listeners, s.event, s.listener);
        client.Unsubscribe(s);
      }
      held := None;
    }
  }
}
