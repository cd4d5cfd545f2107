/** The emitter client (src/Emitter.php) with its MQTT client abstracted away: what the
    emitter hands to the client is recorded, in order, in `sent`. Only the topic
    construction and the handler bookkeeping are modelled. */
module Emitters {
  import opened Topics
  import opened ObjectMaps

  /** The payload of a link request, before its JSON encoding. */
  datatype LinkRequest = LinkRequest(key: Str, channel: Str, name: Str, isPrivate: bool, subscribe: bool)

  /** A call the emitter makes on the MQTT client. */
  datatype ClientCall =
    | Publish(topic: Str, message: Str, qos: nat)
      /** publish of the JSON-encoded request to `emitter/link/` with QoS 0 */
    | PublishLink(request: LinkRequest)
    | Subscribe(topic: Str)
    | Unsubscribe(topic: Str)
    | RegisterMessageHandler(wrapped: object)
    | RegisterLoopHandler(wrapped: object)
    | UnregisterMessageHandler(wrapped: object)
    | UnregisterLoopHandler(wrapped: object)

  /** The closure the emitter registers in place of a caller's handler; it calls that
      handler with the emitter instead of the client. */
  class WrappedHandler {
    const handler: object

    constructor (handler: object)
      ensures this.handler == handler
    {
      this.handler := handler;
    }
  }

  class Emitter {

    /** Maps each caller handler to the wrapper registered for it. */
    const handlerMap: ObjectMap

    /** Every call handed to the MQTT client so far. */
    var sent: seq<ClientCall>

    constructor ()
      ensures fresh(handlerMap) && handlerMap.objectHashMap == map[]
      ensures sent == []
    {
      handlerMap := new ObjectMap();
      sent := [];
    }

    /** `publish`: `me` then `ttl` are filled in, and the message goes to the formatted
        topic with QoS 0. */
    method Publish(key: Str, channel: Str, message: Str, ttl: Option<int>, me: Option<bool>)
      modifies this
      ensures sent == old(sent) + [ClientCall.Publish(Topic(key, channel, PublishOptions(ttl, me)), message, 0)]
    {
      var options: Options := [];
      if me.None? || me.value {
        options := options + [("me", "1")];
      } else {
        options := options + [("me", "0")];
      }
      if ttl.Some? && ttl.value != 0 {
        options := options + [("ttl", IntToDecimal(ttl.value))];
      }
      var topic := FormatChannel(key, channel, options);
      sent := sent + [ClientCall.Publish(topic, message, 0)];
    }

    /** `subscribe`: `last` is passed whenever it is given. */
    method Subscribe(key: Str, channel: Str, last: Option<int>)
      modifies this
      ensures sent == old(sent) + [ClientCall.Subscribe(Topic(key, channel, SubscribeOptions(last)))]
    {
      var options: Options := [];
      if last.Some? {
        options := options + [("last", IntToDecimal(last.value))];
      }
      var topic := FormatChannel(key, channel, options);
      sent := sent + [ClientCall.Subscribe(topic)];
    }

    /** `unsubscribe`: the topic carries no options. */
    method Unsubscribe(key: Str, channel: Str)
      modifies this
      ensures sent == old(sent) + [ClientCall.Unsubscribe(Topic(key, channel, []))]
    {
      var topic := FormatChannel(key, channel, []);
      sent := sent + [ClientCall.Unsubscribe(topic)];
    }

    /** `link`: options as for `publish`; the request names the formatted topic as its
        channel and the raw key as its key. */
    method Link(key: Str, channel: Str, name: Str, isPrivate: bool, subscribe: bool, ttl: Option<int>, me: Option<bool>)
      modifies this
      ensures sent == old(sent) + [PublishLink(LinkRequest(key, Topic(key, channel, PublishOptions(ttl, me)), name, isPrivate, subscribe))]
    {
      var options: Options := [];
      if me.None? || me.value {
        options := options + [("me", "1")];
      } else {
        options := options + [("me", "0")];
      }
      if ttl.Some? && ttl.value != 0 {
        options := options + [("ttl", IntToDecimal(ttl.value))];
      }
      var formattedChannel := FormatChannel(key, channel, options);
      var request := LinkRequest(key, formattedChannel, name, isPrivate, subscribe);
      sent := sent + [PublishLink(request)];
    }

    /** `addMessageHandler`: a fresh wrapper is mapped to the handler (replacing any
        earlier one) and registered with the client. */
    method AddMessageHandler(handler: object)
      modifies this, handlerMap
      ensures handlerMap.Has(handler) && fresh(handlerMap.Get(handler))
      ensures handlerMap.objectHashMap == old(handlerMap.objectHashMap)[handler := handlerMap.Get(handler)]
      ensures handlerMap.Get(handler) is WrappedHandler && (handlerMap.Get(handler) as WrappedHandler).handler == handler
      ensures sent == old(sent) + [RegisterMessageHandler(handlerMap.Get(handler))]
    {
      var wrapped := new WrappedHandler(handler);
      handlerMap.Add(handler, wrapped);
      sent := sent + [RegisterMessageHandler(wrapped)];
    }

    /** `addLoopHandler`: as `addMessageHandler`, registered as a loop handler. */
    method AddLoopHandler(handler: object)
      modifies this, handlerMap
      ensures handlerMap.Has(handler) && fresh(handlerMap.Get(handler))
      ensures handlerMap.objectHashMap == old(handlerMap.objectHashMap)[handler := handlerMap.Get(handler)]
      ensures handlerMap.Get(handler) is WrappedHandler && (handlerMap.Get(handler) as WrappedHandler).handler == handler
      ensures sent == old(sent) + [RegisterLoopHandler(handlerMap.Get(handler))]
    {
      var wrapped := new WrappedHandler(handler);
      handlerMap.Add(handler, wrapped);
      sent := sent + [RegisterLoopHandler(wrapped)];
    }

    /** `removeMessageHandler`: the wrapper mapped to the handler is unregistered; the
        map entry itself stays. */
    method RemoveMessageHandler(handler: object)
      requires handlerMap.Has(handler)
      modifies this
      ensures unchanged(handlerMap) && handlerMap.Has(handler)
      ensures sent == old(sent) + [UnregisterMessageHandler(handlerMap.Get(handler))]
    {
      var wrapped := handlerMap.Get(handler);
      sent := sent + [UnregisterMessageHandler(wrapped)];
    }

    /** `removeLoopHandler`: as `removeMessageHandler`, for a loop handler. */
    method RemoveLoopHandler(handler: object)
      requires handlerMap.Has(handler)
      modifies this
      ensures unchanged(handlerMap) && handlerMap.Has(handler)
      ensures sent == old(sent) + [UnregisterLoopHandler(handlerMap.Get(handler))]
    {
      var wrapped := handlerMap.Get(handler);
      sent := sent + [UnregisterLoopHandler(wrapped)];
    }
  }

  /** Removing a handler unregisters the very wrapper that was registered for it, but its
      entry stays in the handler map: after an add and a remove the map still holds one
      entry. */
  method RemovedHandlerStaysMapped(handler: object) returns (entries: nat, sameWrapper: bool)
    ensures entries == 1 && sameWrapper
  {
    var emitter := new Emitter();
    emitter.AddMessageHandler(handler);
    emitter.RemoveMessageHandler(handler);
    entries := emitter.handlerMap.Count();
    sameWrapper := |emitter.sent| == 2 && emitter.sent[0].RegisterMessageHandler?
      && emitter.sent[1].UnregisterMessageHandler?
      && emitter.sent[0].wrapped == emitter.sent[1].wrapped;
  }
}
