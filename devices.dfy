/**
 * The device handlers: ZDevice and its four subclasses. Each handler's
 * `initialise(properties)` and `applyUpdate(change)` is a fixed sequence of
 * conditional publishes decided by which keys the property map holds, so
 * each is a function from the map to the ordered publications it makes.
 */
module Devices {
  import opened Wrappers
  import opened Topics

  /** A property read out of a hub record: a missing key reads as JavaScript's `undefined`. */
  datatype Value = Undefined | Str(s: string)

  /** A hub property map (a device's `properties`, or the fields of one change record). */
  type Properties = map<string, string>

  function Get(properties: Properties, key: string): (v: Value)
    ensures v.Str? <==> key in properties
    ensures v.Str? ==> v.s == properties[key]
  {
    if key in properties then Str(properties[key]) else Undefined
  }

  /** One call publish(topic, payload, retained) on the bus. */
  datatype Pub = Pub(topic: string, payload: Value, retained: bool)

  /** The handler classes the bridge instantiates. */
  datatype Variant = BinaryLight | DimmableLight | TemperatureSensor | DoorSensor

  /** The hub's type string for each handler class. */
  function TypeName(v: Variant): string {
    match v
    case BinaryLight => "binary_light"
    case DimmableLight => "dimmable_light"
    case TemperatureSensor => "temperature_sensor"
    case DoorSensor => "door_sensor"
  }

  /** The device-type dispatch of the enumeration callback; unknown types give None. */
  function VariantOf(deviceType: string): (r: Option<Variant>)
    ensures r.Some? ==> TypeName(r.value) == deviceType
    ensures forall v :: TypeName(v) == deviceType ==> r == Some(v)
  {
    if deviceType == "binary_light" then Some(BinaryLight)
    else if deviceType == "dimmable_light" then Some(DimmableLight)
    else if deviceType == "temperature_sensor" then Some(TemperatureSensor)
    else if deviceType == "door_sensor" then Some(DoorSensor)
    else None
  }

  /** The control names the handlers publish under. */
  const BatteryControl: string := "battery-level"
  const PowerControl: string := "power"
  const SwitchControl: string := "switch"

  /** A retained publication of a control's metadata type. */
  function MetaPub(id: nat, control: string, metaType: string): Pub {
    Pub(MetaTypeTopic(id, control), Str(metaType), true)
  }

  /** A retained publication of a control's value. */
  function ValuePub(id: nat, control: string, payload: Value): Pub {
    Pub(ControlTopic(id, control), payload, true)
  }

  /** Every topic a handler of device `id` can publish on. */
  function DeviceTopics(id: nat): set<string> {
    { ControlTopic(id, BatteryControl), MetaTypeTopic(id, BatteryControl),
      ControlTopic(id, PowerControl), MetaTypeTopic(id, PowerControl),
      ControlTopic(id, SwitchControl), MetaTypeTopic(id, SwitchControl) }
  }

  /** The value topics among them: those an update may publish on. */
  function ValueTopics(id: nat): set<string> {
    { ControlTopic(id, BatteryControl), ControlTopic(id, PowerControl), ControlTopic(id, SwitchControl) }
  }

  /**
   * ZDevice.initialise: a `dead` flag only logs; a battery level publishes
   * its metadata type "text" and then its value.
   */
  function BaseInitPubs(id: nat, properties: Properties): seq<Pub> {
    if "batteryLevel" in properties then
      [MetaPub(id, BatteryControl, "text"), ValuePub(id, BatteryControl, Get(properties, "batteryLevel"))]
    else
      []
  }

  /** ZDevice.applyUpdate: a `dead` flag only logs; a battery level publishes its value. */
  function BaseUpdatePubs(id: nat, change: Properties): seq<Pub> {
    if "batteryLevel" in change then [ValuePub(id, BatteryControl, Get(change, "batteryLevel"))] else []
  }

  /**
   * BinaryLight.initialise: the base publications, the power control when
   * the device reports a sensor value, and always the switch control, whose
   * value is published even when the device reports none.
   */
  function BinaryLightInitPubs(id: nat, properties: Properties): seq<Pub> {
    BaseInitPubs(id, properties)
      + (if "valueSensor" in properties then
           [MetaPub(id, PowerControl, "text"), ValuePub(id, PowerControl, Get(properties, "valueSensor"))]
         else
           [])
      + [MetaPub(id, SwitchControl, "switch"), ValuePub(id, SwitchControl, Get(properties, "value"))]
  }

  /**
   * The order of BinaryLight.initialise: the base publications first, the
   * switch metadata and value last, and the power metadata and value,
   * directly one after the other, in between exactly when a sensor value
   * is reported. Nothing else is published.
   */
  lemma BinaryLightInitOrder(id: nat, properties: Properties)
    ensures var r := InitPubs(BinaryLight, id, properties);
      var b := |BaseInitPubs(id, properties)|;
      && |r| == b + 2 + (if "valueSensor" in properties then 2 else 0)
      && r[..b] == BaseInitPubs(id, properties)
      && ("valueSensor" in properties ==>
            r[b..b + 2] == [MetaPub(id, PowerControl, "text"), ValuePub(id, PowerControl, Get(properties, "valueSensor"))])
      && r[|r| - 2..] == [MetaPub(id, SwitchControl, "switch"), ValuePub(id, SwitchControl, Get(properties, "value"))]
      && (MetaPub(id, PowerControl, "text") in r <==> "valueSensor" in properties)
      && ((exists p :: p in r && p.topic == ControlTopic(id, PowerControl)) <==> "valueSensor" in properties)
  {
    var r := InitPubs(BinaryLight, id, properties);
    if "valueSensor" in properties {
      assert r[|BaseInitPubs(id, properties)| + 1] == ValuePub(id, PowerControl, Get(properties, "valueSensor"));
    }
  }

  /**
   * BinaryLight.applyUpdate: the base publications, then the power value
   * if the change carries a sensor value, then the switch value if it
   * carries a value.
   */
  function BinaryLightUpdatePubs(id: nat, change: Properties): seq<Pub> {
    BaseUpdatePubs(id, change)
      + (if "valueSensor" in change then [ValuePub(id, PowerControl, Get(change, "valueSensor"))] else [])
      + (if "value" in change then [ValuePub(id, SwitchControl, Get(change, "value"))] else [])
  }

  /**
   * The order of BinaryLight.applyUpdate: the base publications first, then
   * the power value exactly when the change carries a sensor value, then the
   * switch value exactly when it carries a value. Nothing else is published.
   */
  lemma BinaryLightUpdateOrder(id: nat, change: Properties)
    ensures var r := UpdatePubs(BinaryLight, id, change);
      var b := |BaseUpdatePubs(id, change)|;
      && |r| == b + (if "valueSensor" in change then 1 else 0) + (if "value" in change then 1 else 0)
      && r[..b] == BaseUpdatePubs(id, change)
      && ("valueSensor" in change ==> r[b] == ValuePub(id, PowerControl, Str(change["valueSensor"])))
      && ("value" in change ==> r[|r| - 1] == ValuePub(id, SwitchControl, Str(change["value"])))
  {
  }

  /**
   * `initialise` of the handler class `v` for device `id`. DimmableLight,
   * TemperatureSensor and DoorSensor only delegate to ZDevice.
   */
  function InitPubs(v: Variant, id: nat, properties: Properties): (r: seq<Pub>)
    ensures v != BinaryLight ==> r == BaseInitPubs(id, properties)
  {
    match v
    case BinaryLight => BinaryLightInitPubs(id, properties)
    case _ => BaseInitPubs(id, properties)
  }

  /** Every publication of `initialise` is retained and lies on one of the device's own topics. */
  lemma InitPubsOnDeviceTopics(v: Variant, id: nat, properties: Properties)
    ensures forall p :: p in InitPubs(v, id, properties) ==> p.retained && p.topic in DeviceTopics(id)
  {
  }

  /**
   * `applyUpdate` of the handler class `v` for device `id`; an empty change
   * publishes nothing.
   */
  function UpdatePubs(v: Variant, id: nat, change: Properties): (r: seq<Pub>)
    ensures change == map[] ==> r == []
    ensures v != BinaryLight ==> r == BaseUpdatePubs(id, change)
  {
    match v
    case BinaryLight => BinaryLightUpdatePubs(id, change)
    case _ => BaseUpdatePubs(id, change)
  }

  /** Every publication of `applyUpdate` is a retained, defined value on one of the device's value topics. */
  lemma UpdatePubsOnValueTopics(v: Variant, id: nat, change: Properties)
    ensures forall p :: p in UpdatePubs(v, id, change) ==> p.retained && p.topic in ValueTopics(id) && p.payload.Str?
  {
  }

  /**
   * `initialise` publishes on a battery-level topic, value or metadata,
   * exactly when a battery level is reported; then its metadata and value
   * come first.
   */
  lemma BatteryInitPublished(v: Variant, id: nat, properties: Properties)
    ensures MetaPub(id, BatteryControl, "text") in InitPubs(v, id, properties) <==> "batteryLevel" in properties
    ensures (exists p :: p in InitPubs(v, id, properties) && p.topic in BatteryTopics(id)) <==> "batteryLevel" in properties
    ensures "batteryLevel" in properties ==>
      InitPubs(v, id, properties)[..2] == [MetaPub(id, BatteryControl, "text"), ValuePub(id, BatteryControl, Str(properties["batteryLevel"]))]
  {
    var r := InitPubs(v, id, properties);
    if "batteryLevel" in properties {
      assert r[0] in r && r[0].topic in BatteryTopics(id);
    } else {
      OtherControlsNotBattery(id);
      assert forall p :: p in r ==> p.topic !in BatteryTopics(id) by {
        if v == BinaryLight {
          assert r == BinaryLightInitPubs(id, properties);
        }
      }
    }
  }

  /** The two battery-level topics of a device: its value and its metadata. */
  function BatteryTopics(id: nat): set<string> {
    { ControlTopic(id, BatteryControl), MetaTypeTopic(id, BatteryControl) }
  }

  /** The power and switch topics of a device are none of its battery-level topics. */
  lemma OtherControlsNotBattery(id: nat)
    ensures forall c :: c in {PowerControl, SwitchControl} ==>
      ControlTopic(id, c) !in BatteryTopics(id) && MetaTypeTopic(id, c) !in BatteryTopics(id)
  {
    var k := |DevicePrefix + DecimalString(id) + "/controls/"|;
    assert |ControlTopic(id, BatteryControl)| == k + 13;
    assert |MetaTypeTopic(id, BatteryControl)| == k + 23;
    assert |ControlTopic(id, PowerControl)| == k + 5 && |MetaTypeTopic(id, PowerControl)| == k + 15;
    assert |ControlTopic(id, SwitchControl)| == k + 6 && |MetaTypeTopic(id, SwitchControl)| == k + 16;
  }

  /** The battery value is updated exactly when the change carries a battery level, and no metadata is updated. */
  lemma BatteryUpdatePublished(v: Variant, id: nat, change: Properties)
    ensures ValuePub(id, BatteryControl, Get(change, "batteryLevel")) in UpdatePubs(v, id, change) <==> "batteryLevel" in change
    ensures (exists p :: p in UpdatePubs(v, id, change) && p.topic == ControlTopic(id, BatteryControl)) <==> "batteryLevel" in change
    ensures forall p :: p in UpdatePubs(v, id, change) ==> !IsMetaTopic(p.topic)
  {
    var r := UpdatePubs(v, id, change);
    UpdateTopics(v, id, change);
    ControlTopicNotMeta(id, BatteryControl);
    ControlTopicNotMeta(id, PowerControl);
    ControlTopicNotMeta(id, SwitchControl);
    if "batteryLevel" in change {
      assert r[0] == ValuePub(id, BatteryControl, Get(change, "batteryLevel"));
      assert r[0] in r;
    } else {
      OtherControlsNotBattery(id);
    }
  }

  /** The topics `applyUpdate` publishes on; the battery-level one only for a change with a battery level. */
  lemma UpdateTopics(v: Variant, id: nat, change: Properties)
    ensures forall p :: p in UpdatePubs(v, id, change) ==>
      || (p.topic == ControlTopic(id, BatteryControl) && "batteryLevel" in change)
      || p.topic == ControlTopic(id, PowerControl)
      || p.topic == ControlTopic(id, SwitchControl)
  {
    if v == BinaryLight {
      assert UpdatePubs(v, id, change) == BinaryLightUpdatePubs(id, change);
    }
  }

  /** A `dead` flag changes neither what `initialise` nor what `applyUpdate` publishes. */
  lemma DeadFlagPublishesNothing(v: Variant, id: nat, properties: Properties, dead: string)
    ensures InitPubs(v, id, properties["dead" := dead]) == InitPubs(v, id, properties - {"dead"})
    ensures UpdatePubs(v, id, properties["dead" := dead]) == UpdatePubs(v, id, properties - {"dead"})
  {
  }

  /** The publications among `pubs` that carry a defined value on a non-metadata topic. */
  function ValuePubsOf(pubs: seq<Pub>): (r: seq<Pub>)
    ensures |r| <= |pubs|
  {
    if pubs == [] then []
    else (if !IsMetaTopic(pubs[0].topic) && pubs[0].payload.Str? then [pubs[0]] else []) + ValuePubsOf(pubs[1..])
  }

  lemma {:induction false} ValuePubsOfAppend(a: seq<Pub>, b: seq<Pub>)
    ensures ValuePubsOf(a + b) == ValuePubsOf(a) + ValuePubsOf(b)
    decreases |a|
  {
    if a == [] {
      assert a + b == b;
    } else {
      assert (a + b)[0] == a[0] && (a + b)[1..] == a[1..] + b;
      ValuePubsOfAppend(a[1..], b);
    }
  }

  /** What `initialise` publishes for one control: its metadata, then its value. */
  lemma ControlPairValues(id: nat, control: string, metaType: string, payload: Value)
    requires |control| > 0 && control[|control| - 1] != 'e'
    ensures ValuePubsOf([MetaPub(id, control, metaType), ValuePub(id, control, payload)])
      == if payload.Str? then [ValuePub(id, control, payload)] else []
  {
    ControlTopicNotMeta(id, control);
    var pair := [MetaPub(id, control, metaType), ValuePub(id, control, payload)];
    assert pair[1..][1..] == [];
  }

  /**
   * `applyUpdate` with a change republishes exactly the defined values
   * that `initialise` with the same map would publish, in the same order,
   * without any metadata.
   */
  lemma UpdateIsValuePartOfInit(v: Variant, id: nat, m: Properties)
    ensures UpdatePubs(v, id, m) == ValuePubsOf(InitPubs(v, id, m))
  {
    var battery := if "batteryLevel" in m then [MetaPub(id, BatteryControl, "text"), ValuePub(id, BatteryControl, Get(m, "batteryLevel"))] else [];
    ControlPairValues(id, BatteryControl, "text", Get(m, "batteryLevel"));
    assert ValuePubsOf(BaseInitPubs(id, m)) == BaseUpdatePubs(id, m);
    if v == BinaryLight {
      var power := if "valueSensor" in m then [MetaPub(id, PowerControl, "text"), ValuePub(id, PowerControl, Get(m, "valueSensor"))] else [];
      var switch := [MetaPub(id, SwitchControl, "switch"), ValuePub(id, SwitchControl, Get(m, "value"))];
      ControlPairValues(id, PowerControl, "text", Get(m, "valueSensor"));
      ControlPairValues(id, SwitchControl, "switch", Get(m, "value"));
      assert InitPubs(v, id, m) == BaseInitPubs(id, m) + power + switch;
      ValuePubsOfAppend(BaseInitPubs(id, m), power);
      ValuePubsOfAppend(BaseInitPubs(id, m) + power, switch);
    }
  }
}
