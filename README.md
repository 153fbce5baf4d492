# homa-fibaro bridge, modelled in Dafny

`homa-fibaro.js` connects a Fibaro home-automation hub to an MQTT bus. After
the bus connects, it asks the hub for its device list. It builds a handler for
every device of a recognised type (binary light, dimmable light, temperature
sensor, door sensor) and lets each handler publish its initial state. It then
polls the hub's `refreshStates` endpoint with a change cursor and hands every
change to the handler of the device it names. Inbound bus messages on
`/devices/zwave-<id>/...` go to that device's handler, whose `handle` only logs.

The model has four modules:

- `Wrappers` (wrappers.dfy) holds `Option`.
- `Topics` (topics.dfy) covers topics. A device id is written into a topic as
  its JavaScript string form (`DecimalString`). It builds the two topic shapes
  `/devices/zwave-<id>/controls/<name>` and `.../meta/type`. `ParseDeviceTopic`
  is the regular expression `^/devices/zwave-(\d+)/`. Its lemmas prove that it
  captures exactly what the expression captures, and that every published topic
  routes back to its device.
- `Devices` (devices.dfy) covers the handler classes. `initialise` and
  `applyUpdate` of `ZDevice` and its four subclasses are pure functions from a
  property map to the ordered list of `(topic, payload, retained)`
  publications. A missing property reads as `Undefined`, just as JavaScript
  gives `undefined`. So `BinaryLight.initialise` publishes an undefined switch
  value when the hub reports none.
- `FibaroBridge` (bridge.dfy) holds the module-level state as a class `Bridge`
  with the fields `handlers` (the registry), `last` (`pollFibaro.last`) and
  `log` (everything published). Its methods are the enumeration callback, one
  poll round and the message callback. The loops of the first two are proved
  against fold functions (`RegistryAfter`, `EnumerationPubs`, `ChangesPubs`).
  Lemmas about those folds state what enumeration and polling do.

Where the code departs from the bridge's intended design, the model follows the code:

- There is no configuration gate. The hub URL and credentials are constants
  (homa-fibaro.js:6-8).
- Only `BinaryLight` adds publications. The other three classes only delegate
  to `ZDevice`. No handler ever calls `fibaroCallAction`.
- Inbound routing matches any topic that starts with `/devices/zwave-<digits>/`,
  not only `.../controls/<name>/on`.
- The registry is a JavaScript array, so its keys are the decimal strings of
  the ids. A topic with a leading zero, such as `/devices/zwave-07/x`, reaches
  no handler, even when device 7 is registered. `OnMessage` states this through
  `DecimalString`.
- The poll callback ignores `error`, and a body that fails to parse throws.
  There is no retry path as such.
- The cursor is sent as `pollFibaro.last || "0"`. So an empty-string cursor is
  sent as `"0"` too (`CursorParam`).
- The enumeration callback checks `id in handlers` after the type dispatch. If
  a device id repeats with an unrecognised type, the earlier handler is
  initialised again with the new properties. `Bridge.Enumerate` keeps this.
  The lemmas about "unknown types are not initialised" assume unique ids, as
  the hub guarantees, and start from an empty registry, as on the first
  `connect` event.

## Model

| member | source | states |
|---|---|---|
| `Topics.DecimalString` | homa-fibaro.js:36-37 | the id written into a topic is a non-empty digit string, with a leading zero only for id 0 |
| `Topics.DecimalRoundTrip` | homa-fibaro.js:146-148 | reading back an id's decimal key gives the id, so distinct ids get distinct registry keys and topics |
| `Topics.DecimalStringInjective` | homa-fibaro.js:146-148 | two ids with the same string key are the same id |
| `Topics.CanonicalRoundTrip` | homa-fibaro.js:170 | a digit string without a superfluous leading zero is exactly the key of the id it denotes |
| `Topics.DigitRun` | homa-fibaro.js:168 | `\d+` greedily takes the whole leading run of ASCII digits: all of it are digits, and the next character is not one |
| `Topics.ParseDeviceTopic` | homa-fibaro.js:168 | a match captures a non-empty string of digits |
| `Topics.ParseDeviceTopicMatches` | homa-fibaro.js:168-169 | the parse returns `digits` if and only if the topic starts with `/devices/zwave-` + digits + `/` (both directions), and `None` when there is no match |
| `Topics.PublishedTopicsRouteBack` | homa-fibaro.js:168-170 | every control and metadata topic the handlers publish for device `id` matches the inbound expression and captures exactly `id`'s key |
| `Topics.ControlTopic` | homa-fibaro.js:37 | a control topic `/devices/zwave-<id>/controls/<name>` starts with the device head that the inbound expression matches with `id`'s key as capture, and ends with the control name |
| `Topics.MetaTypeTopic` | homa-fibaro.js:36 | a metadata topic matches the inbound expression with `id`'s key, ends in `/meta/type`, and is the control's topic with that suffix |
| `Topics.ControlTopicNotMeta` | homa-fibaro.js:37 | a value topic of the controls used here does not end in `/meta/type` |
| `FibaroBridge.Register` | homa-fibaro.js:146-155 | the type dispatch for one device: a recognised type puts a handler of its own class under the id, replacing an earlier one; an unknown type changes nothing; no other id's handler changes |
| `Devices.VariantOf` | homa-fibaro.js:147-155 | the type dispatch maps exactly the four type strings to their handler classes; any other string gives no handler |
| `Devices.InitPubs` | homa-fibaro.js:82-110 | `initialise` of DimmableLight, TemperatureSensor and DoorSensor publishes exactly what `ZDevice.initialise` publishes |
| `Devices.InitPubsOnDeviceTopics` | homa-fibaro.js:35-64 | every publication of `initialise` is retained and on one of six topics of the device: battery-level, power or switch, as a value or as its `meta/type` |
| `Devices.UpdatePubs` | homa-fibaro.js:85-113 | `applyUpdate` with an empty change publishes nothing; the three non-binary classes publish exactly what `ZDevice.applyUpdate` publishes |
| `Devices.UpdatePubsOnValueTopics` | homa-fibaro.js:45-73 | every publication of `applyUpdate` is retained, carries a defined value and is on a value topic of the device, never a metadata topic |
| `Devices.BatteryInitPublished` | homa-fibaro.js:31-39 | for every handler class, `initialise` publishes on a battery-level topic (value or metadata) if and only if `batteryLevel` is present, and the type `"text"` likewise; when it is present, the first two publications are that type and then the battery value |
| `Devices.BatteryUpdatePublished` | homa-fibaro.js:40-48 | for every handler class, `applyUpdate` publishes on the battery-level topic if and only if the change carries `batteryLevel`, then with that value, and publishes no metadata topic at all |
| `Devices.UpdateTopics` | homa-fibaro.js:40-74 | `applyUpdate` publishes only on the battery-level, power and switch value topics, and on the battery-level one only when the change carries `batteryLevel` |
| `Devices.DeadFlagPublishesNothing` | homa-fibaro.js:32-44 | whether `dead` is absent or has any value, including `"1"`, neither `initialise` nor `applyUpdate` publishes differently |
| `Devices.BinaryLightInitOrder` | homa-fibaro.js:56-65 | BinaryLight `initialise` publishes exactly the base publications, then, if and only if `valueSensor` is present, the power type `"text"` directly followed by the power value, then the switch type `"switch"` and the switch value, whether or not a value was reported; nothing else |
| `Devices.BinaryLightUpdateOrder` | homa-fibaro.js:66-74 | BinaryLight `applyUpdate` publishes exactly the base publications, then the power value if and only if the change carries `valueSensor`, then the switch value if and only if it carries `value`; nothing else |
| `Devices.UpdateIsValuePartOfInit` | homa-fibaro.js:31-74 | for every class, `applyUpdate(m)` publishes exactly, and in the same order, the defined-value, non-metadata publications that `initialise(m)` makes |
| `FibaroBridge.CursorParam` | homa-fibaro.js:116-120 | the cursor sent is never empty; it is the stored cursor when that is a non-empty string, and `"0"` otherwise |
| `FibaroBridge.RegistryKeys` | homa-fibaro.js:145-159 | enumeration adds to the registry exactly the ids of devices of a recognised type |
| `FibaroBridge.RegistryFromScratch` | homa-fibaro.js:145-159 | from an empty registry with unique ids, a device is registered if and only if its type is recognised, and under the handler class its type names |
| `FibaroBridge.EnumerationPublishesRecognised` | homa-fibaro.js:145-159 | from an empty registry with unique ids, enumeration publishes, in device order, exactly the `initialise` publications of each recognised device; an unknown type adds nothing and does not stop later devices |
| `FibaroBridge.ChangesPubsAppend` | homa-fibaro.js:125-131 | changes are applied in list order: routing `a + b` publishes what `a` publishes followed by what `b` publishes |
| `FibaroBridge.ChangePubsRouteBack` | homa-fibaro.js:126-130 | a change publishes only if its id is registered, and only on topics that route back to that id |
| `FibaroBridge.ChangesPublishOnlyForRegistered` | homa-fibaro.js:125-131 | every publication of a poll round is retained and on a topic of a registered device named by some change; changes for unknown ids publish nothing |
| `FibaroBridge.Bridge.constructor` | homa-fibaro.js:10 | the bridge starts with an empty registry, no cursor and nothing published |
| `FibaroBridge.Bridge.Enumerate` | homa-fibaro.js:142-164 | on a transport error or a status other than 200, the outcome is exit with -1 and nothing changes; otherwise the registry and the publications are those of enumerating the device list in order, the cursor is untouched, and polling starts |
| `FibaroBridge.Bridge.AddDevice` | homa-fibaro.js:145-158 | one device: its handler is registered when its type is recognised, then whatever handler its id has is initialised with its properties |
| `FibaroBridge.Bridge.PollStep` | homa-fibaro.js:115-136 | the request carries `CursorParam` of the old cursor; afterwards the cursor is the response's `last`, even without `changes`; the registry is unchanged; the log grows by the updates of the registered changes, in list order |
| `FibaroBridge.Bridge.ApplyChange` | homa-fibaro.js:126-130 | a change for a registered id appends that handler's `applyUpdate` publications; any other change appends nothing |
| `FibaroBridge.Bridge.OnMessage` | homa-fibaro.js:167-175 | a message reaches a handler if and only if its topic matches the expression and the captured digits are a registered id's key; no state changes and nothing is published, since `handle` only logs |

## Left out

- The HTTP transport (`request`) is not modelled: responses are inputs to `Enumerate` and `PollStep`, already parsed.
- `fibaroCallAction` is not modelled, since nothing calls it.
- The MQTT connection and the publish transport are not modelled: a publish is an append to `log`.
- `JSON.parse` is not modelled. A body that does not parse throws in the original, and that path is not modelled.
- The unbounded re-poll is not modelled: `PollStep` is one round, and running it again is the next round.
- `console.log` and `console.dir` are not modelled, so the dead-device message, the subscribe message and `handle`'s message are not visible.
- `FibaroBridge.Bridge.OnMessage`: `handle` is called with the payload as its first (`control`) argument. This has no visible effect, since `handle` only logs, so the model does not show it.
- Ids are non-negative integers whose JavaScript string form is their decimal digits. Fractional, negative or very large ids, whose string form differs, are not modelled.
- Property values and cursors are strings. Numeric values, which JavaScript's `==` and `||` treat a little differently, are not modelled.
- `FibaroBridge.RegistryFromScratch`: assumes unique device ids and an empty starting registry. `Bridge.Enumerate` itself covers repeated ids.
- `FibaroBridge.EnumerationPublishesRecognised`: assumes unique device ids and an empty starting registry. From a registry that already holds an id, a device of unknown type with that id re-initialises the old handler, so the lemma does not hold there. `Bridge.Enumerate` itself covers that case.
- Repeated `connect` events are not modelled as a sequence. Each one runs the enumeration again over the existing registry, which `Bridge.Enumerate` covers for one event. Each one also calls `pollFibaro` again, which starts a second poll chain beside the running one. Interleaved poll chains are not modelled: `PollStep` is one round of one chain. Whether the MQTT helper emits `connect` again on reconnect is not part of this model.
- logger.js is not part of this model: it only configures console logging.
