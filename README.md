# emitter-php-sdk: topic construction and handler map, in Dafny

The PHP emitter client is a thin wrapper over an MQTT client. Two parts of it have
logic of their own, and this project models both.

- The channel formatter, `Emitter::formatChannel`. It turns a key, a channel and an
  ordered option map into the MQTT topic string that emitter.io expects:
  `key/channel/?name=value&name=value`.
- `ObjectMap`, the identity-keyed map from each caller handler to the wrapper closure
  that the emitter registers for it.

Files:

- `topic.dfy` (module `Topics`) holds the topic text as pure functions: `Base`, `Joined`,
  `Query` and `Topic`. It also holds `FormatChannel`, a method that builds the topic by
  appends in a loop, as the PHP does, and is proved equal to `Topic`. Next to them are
  the option maps of `publish`, `link` and `subscribe`, PHP's `rtrim`, and PHP's decimal
  rendering of integers, with their lemmas.
- `object_map.dfy` (module `ObjectMaps`) holds class `ObjectMap`, whose field
  `objectHashMap: map<object, object>` its methods update in place. Dafny's `object`
  equality is reference identity, which is what keying by `spl_object_hash` gives.
- `emitter.dfy` (module `Emitters`) holds class `Emitter`, with the MQTT client
  abstracted into `sent`, the ordered log of calls handed to it. Each method states the
  exact call it makes, the topic included. The handler methods state what they do to the
  handler map.

Three behaviours of the code are easy to miss, and the model keeps all three.

- With an empty key, the channel is dropped and the base is `/`, whatever the channel is
  (src/Emitter.php:301-310). `BaseEmptyKey` states this.
- `ttl` is added whenever it is non-null and non-zero, so negative values are rendered
  too, with a leading `-` (src/Emitter.php:145-147).
- The `rtrim` that removes the separator after the last pair also strips any `&` at the
  end of the last value (src/Emitter.php:320-322). `Joined` and `RTrim` state this.

## Model

| member | source | states |
|---|---|---|
| Topics.RTrim | src/Emitter.php:321 | `rtrim` gives the longest prefix that does not end in the trimmed character, and it drops nothing but that character |
| Topics.NatToDecimal | src/Emitter.php:318 | an integer option value is rendered as a non-empty string of decimal digits with no leading zero |
| Topics.IntToDecimal | src/Emitter.php:318 | a rendered integer never contains `&` and starts with `-` exactly when it is negative |
| Topics.NatDecimalRoundTrip | src/Emitter.php:318 | reading back the digits of a non-negative value gives the value |
| Topics.IntDecimalRoundTrip | src/Emitter.php:318 | reading back a rendered `ttl` or `last` gives the integer, so the rendering loses nothing |
| Topics.Base | src/Emitter.php:301-310 | the part before any query always ends in `/` and, for a non-empty key, starts with the key |
| Topics.BaseWithSeparator | src/Emitter.php:303-310 | with a key not ending in `/`, the base is `key/channel`, plus `/` only if that does not already end in `/` |
| Topics.BaseWithoutSeparator | src/Emitter.php:304-310 | with a key ending in `/`, no separator is inserted: `key + channel`, plus `/` only if absent |
| Topics.BaseEmptyKey | src/Emitter.php:301-310 | with an empty key, the channel is dropped and the base is exactly `/` |
| Topics.Prefixed | src/Emitter.php:301-305 | with an empty key the prefix is empty; otherwise it starts with the key, ends with the channel, and has at most one separator between them |
| Topics.BaseSlashNotDoubled | src/Emitter.php:308-310 | `/` is never doubled: the base adds at most one character to the prefixed channel, and it ends in `//` exactly when the prefixed channel already does |
| Topics.ChannelRoundTrip | src/Emitter.php:303-310 | with a non-empty key and a channel not ending in `/`, the channel is recovered exactly from the base |
| Topics.Joined | src/Emitter.php:313-323 | the joined pairs are non-empty, start with the first name and `=`, and never end in `&` |
| Topics.Query | src/Emitter.php:313-324 | the query is empty exactly when there are no options; otherwise it starts with `?` and does not end in `&` |
| Topics.JoinedAsAppended | src/Emitter.php:316-323 | the joined query is every pair but the last followed by `&`, then the last pair with its value's trailing `&`s trimmed |
| Topics.Topic | src/Emitter.php:299-327 | the topic `formatChannel` returns is never shorter than its base, and is exactly as long as the base when there are no options |
| Topics.TopicWithOptions | src/Emitter.php:313-324 | with options, the topic is the base, then `?`, then the joined pairs, and it never ends in `&` |
| Topics.SplitJoined | src/Emitter.php:317-323 | when no name or value contains `&`, splitting the query at `&` gives the `name=value` pairs in insertion order |
| Topics.ExampleTopic | src/Emitter.php:299-327 | key `ABC123`, channel `articles` and options `me=1`, `ttl=10` give `ABC123/articles/?me=1&ttl=10` |
| Topics.FormatChannel | src/Emitter.php:299-327 | the loop of appends with `rtrim` on the last pass returns exactly `Topic(key, channel, options)` |
| Topics.PublishOptions | src/Emitter.php:136-147 | `me` always comes first, `0` only for an explicit false, and `ttl` is second exactly when it is non-null and non-zero; no name or value contains `&` |
| Topics.SubscribeOptions | src/Emitter.php:160-164 | `last` is the one option exactly when it is non-null, zero included; no name or value contains `&` |
| Topics.PublishTopicShape | src/Emitter.php:136-149 | the `publish` and `link` topic is the base, then `?me=` with `0` only for an explicit false, then `&ttl=` and the decimal ttl exactly when ttl is non-null and non-zero |
| Topics.SubscribeTopicShape | src/Emitter.php:160-166 | the `subscribe` topic is the base plus `?last=` and the decimal value exactly when `last` is non-null, zero included |
| Topics.UnsubscribeTopicShape | src/Emitter.php:176 | the `unsubscribe` topic is exactly the base and carries no query |
| ObjectMaps.ObjectMap.constructor | src/ObjectMap.php:15 | a new map is empty and counts 0 |
| ObjectMaps.ObjectMap.Has | src/ObjectMap.php:51-53 | a key is mapped exactly when it is among the map's keys, and a mapped key means the count is positive |
| ObjectMaps.ObjectMap.Get | src/ObjectMap.php:38-40 | the object returned is the one stored under the key |
| ObjectMaps.ObjectMap.Count | src/ObjectMap.php:78-80 | the count is the number of key objects mapped, and it is 0 exactly for the empty map |
| ObjectMaps.ObjectMap.Add | src/ObjectMap.php:25-27 | afterwards the key is mapped to the subject, last write wins; count grows by one only for a new key; every other key keeps its mapping |
| ObjectMaps.ObjectMap.Remove | src/ObjectMap.php:61-63 | afterwards the key is unmapped; removing an absent key changes nothing; count drops by one only for a present key; every other key keeps its mapping |
| ObjectMaps.ObjectMap.Clear | src/ObjectMap.php:68-70 | afterwards the map is empty: count is 0 and no key is mapped |
| ObjectMaps.IdentityKeyed | src/ObjectMap.php:25-27 | two distinct objects with the same contents are two keys: mapping both gives count 2, and the first keeps its value |
| Emitters.WrappedHandler.constructor | src/Emitter.php:68-70 | the wrapper registered in place of a caller's handler remembers that handler |
| Emitters.Emitter.constructor | src/Emitter.php:28-30 | a new emitter has an empty, fresh handler map and has handed nothing to the client |
| Emitters.Emitter.Publish | src/Emitter.php:135-154 | exactly one publish is handed to the client, with QoS 0 and the topic formatted from the `me` and `ttl` options |
| Emitters.Emitter.Subscribe | src/Emitter.php:159-170 | exactly one subscribe is handed to the client, with the topic formatted from the `last` option |
| Emitters.Emitter.Unsubscribe | src/Emitter.php:175-181 | exactly one unsubscribe is handed to the client, with the topic formatted without options |
| Emitters.Emitter.Link | src/Emitter.php:195-222 | one link request is published; its channel is the topic formatted as for `publish`, and its key, name, private and subscribe fields are the arguments |
| Emitters.Emitter.AddMessageHandler | src/Emitter.php:67-76 | a fresh wrapper of this handler is mapped to it, replacing any earlier one, and that wrapper is registered as a message handler |
| Emitters.Emitter.AddLoopHandler | src/Emitter.php:81-90 | a fresh wrapper of this handler is mapped to it, replacing any earlier one, and that wrapper is registered as a loop handler |
| Emitters.Emitter.RemoveMessageHandler | src/Emitter.php:95-101 | the wrapper mapped to the handler is unregistered, and the handler map is left unchanged |
| Emitters.Emitter.RemoveLoopHandler | src/Emitter.php:106-112 | the wrapper mapped to the handler is unregistered as a loop handler, and the handler map is left unchanged |
| Emitters.RemovedHandlerStaysMapped | src/Emitter.php:67-101 | add then remove unregisters the very wrapper that was registered, and the map still holds one entry |

## Left out

- `connect`, `disconnect`, `isConnected`, `loop` and `interrupt` are left out. They are connection handling, socket I/O and a blocking event loop, all inside the external MQTT client.
- `keygen` is left out. It is a network round trip through the client loop, then a JSON decode of the server's reply.
- `presence`, `me` and `publishWithLink` are left out. Each is one client `publish` call with no logic of its own.
- `json_encode` is a foreign library call and is left out. A link request is logged as the `LinkRequest` value it would encode.
- The MQTT client is not modelled. Calls to it are recorded in `Emitter.sent`, and nothing reacts to them.
- Emitters.Emitter.Publish, Emitters.Emitter.Subscribe, Emitters.Emitter.Unsubscribe, Emitters.Emitter.Link, Emitters.Emitter.AddMessageHandler, Emitters.Emitter.AddLoopHandler, Emitters.Emitter.RemoveMessageHandler and Emitters.Emitter.RemoveLoopHandler assume a connected client. The `$client` field (src/Emitter.php:18) is uninitialised until `connect`, and before that every one of these methods throws an `Error`. The model never takes that error path. In `addMessageHandler` and `addLoopHandler` the error comes after `handlerMap->add` (src/Emitter.php:72-73, 86-87), so the PHP keeps a map entry whose wrapper was never registered. The model does not capture that state.
- The bodies of the wrapper closures are not modelled, and neither is the float `elapsedTime` passed to loop handlers. A wrapper is a fresh object that remembers its handler.
- `spl_object_hash` internals are not modelled, including hash reuse after an object is garbage-collected. Keys are object identities.
- ObjectMaps.ObjectMap.Get: a missing key is excluded by a precondition. In PHP, the lookup emits a warning and then fails the declared `object` return type with a TypeError, and nothing in the source catches it.
- Emitters.Emitter.RemoveMessageHandler: a handler that was never added is excluded by a precondition. The PHP would fail in `ObjectMap::get`, as above. The same holds for `Emitters.Emitter.RemoveLoopHandler`.
- PHP integers are 64 bits wide. `ttl` and `last` are unbounded integers here, which covers every 64-bit value.
- PHP option arrays cannot hold a name twice. A sequence of pairs can, and the formatter model does not need the names to be distinct.
- Strings are sequences of characters, not bytes. The formatter only compares and appends them, so nothing depends on the encoding.
