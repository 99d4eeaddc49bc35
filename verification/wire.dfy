/**
 * The one format both halves share: the server's broadcast frame, parsed by the browser
 * client, is dispatched on its `event` field.
 */
module Wire {
  import opened Wrappers
  import opened JsonData
  import opened WsClient
  import opened WebSocketManager

  /**
   * A broadcast of `event` with `data` reaches, in order, every browser listener of topic
   * `event` with the data object (an empty object for no data) and then every `*` listener
   * with the whole frame; when no listener throws, all of them are called.
   */
  lemma BroadcastDispatch(table: Table, event: string, data: Option<Record>, timestamp: string,
                          raises: Call -> bool)
    ensures var frame := JObj(BroadcastFrame(event, data, timestamp));
      Planned(table, Parsed(frame)) ==
        CallsTo(Members(table, event), Some(JObj(data.GetOr(map[]))))
        + CallsTo(Members(table, Wildcard), Some(frame))
    ensures var frame := JObj(BroadcastFrame(event, data, timestamp));
      !AnyRaises(Planned(table, Parsed(frame)), raises) ==>
        Delivered(table, Parsed(frame), raises) == Planned(table, Parsed(frame))
  {
    var frame := JObj(BroadcastFrame(event, data, timestamp));
    assert EventName(frame) == Some(event);
    UntilRaisePrefix(Planned(table, Parsed(frame)), raises);
  }
}
