/**
 * The bridge's module-level state and the three callbacks that change or
 * read it: the enumeration that builds the handler registry once the bus
 * is connected, one step of the refreshStates poll, and the routing of
 * inbound bus messages. Every publish is an append to `log`.
 */
module FibaroBridge {
  import opened Wrappers
  import opened Topics
  import opened Devices

  /** One entry of the hub's `devices` list. */
  datatype Device = Device(id: nat, deviceType: string, properties: Properties)

  /** The answer to the `devices` request: a transport error, or a status with the parsed list. */
  datatype DevicesResponse = TransportError | HttpResponse(statusCode: int, devices: seq<Device>)

  /** What the enumeration callback does next: start polling, or exit the process. */
  datatype BootOutcome = StartPolling | Exit(code: int)

  /** One record of a refreshStates response: the device id and the fields that changed. */
  datatype Change = Change(id: nat, fields: Properties)

  /** A parsed refreshStates response: the new cursor and, when present, the list of changes. */
  datatype PollResponse = PollResponse(last: Value, changes: Option<seq<Change>>)

  /** The status code the enumeration callback accepts. */
  const HttpOk: int := 200

  /** The exit status of the process when enumeration fails. */
  const EnumerationFailureExit: int := -1

  /**
   * The registry after the type dispatch for one device: a recognised type
   * puts a handler of its own class under the device's id, replacing any
   * earlier one; an unknown type leaves the registry as it was. Every other
   * id keeps its handler.
   */
  function Register(handlers: map<nat, Variant>, d: Device): (r: map<nat, Variant>)
    ensures d.id in r <==> d.id in handlers || VariantOf(d.deviceType).Some?
    ensures VariantOf(d.deviceType).Some? ==> Some(r[d.id]) == VariantOf(d.deviceType)
    ensures VariantOf(d.deviceType).None? ==> r == handlers
    ensures forall k :: k != d.id ==> (k in r <==> k in handlers)
    ensures forall k :: k in handlers && k != d.id ==> r[k] == handlers[k]
  {
    match VariantOf(d.deviceType)
    case Some(v) => handlers[d.id := v]
    case None => handlers
  }

  /** The registry after the type dispatch for every device of `devices`, in order. */
  function RegistryAfter(handlers: map<nat, Variant>, devices: seq<Device>): map<nat, Variant>
    decreases |devices|
  {
    if devices == [] then handlers
    else Register(RegistryAfter(handlers, devices[..|devices| - 1]), devices[|devices| - 1])
  }

  /** The `initialise` call for `d`, made when its id is in the registry after its own dispatch. */
  function InitCall(handlers: map<nat, Variant>, d: Device): seq<Pub> {
    if d.id in handlers then InitPubs(handlers[d.id], d.id, d.properties) else []
  }

  /** What enumerating `devices` publishes, starting from the registry `handlers`. */
  function EnumerationPubs(handlers: map<nat, Variant>, devices: seq<Device>): seq<Pub>
    decreases |devices|
  {
    if devices == [] then []
    else
      EnumerationPubs(handlers, devices[..|devices| - 1])
        + InitCall(RegistryAfter(handlers, devices), devices[|devices| - 1])
  }

  /** The `applyUpdate` call for one change, made only when its id is registered. */
  function ChangePubs(handlers: map<nat, Variant>, c: Change): seq<Pub> {
    if c.id in handlers then UpdatePubs(handlers[c.id], c.id, c.fields) else []
  }

  /** What routing `changes` in list order publishes. */
  function ChangesPubs(handlers: map<nat, Variant>, changes: seq<Change>): seq<Pub>
    decreases |changes|
  {
    if changes == [] then []
    else ChangesPubs(handlers, changes[..|changes| - 1]) + ChangePubs(handlers, changes[|changes| - 1])
  }

  /**
   * The `last` query parameter of a poll: `pollFibaro.last || "0"`, so the
   * stored cursor unless it is undefined or the empty string.
   */
  function CursorParam(last: Value): (r: string)
    ensures r != []
    ensures last.Str? && last.s != [] ==> r == last.s
    ensures r != "0" ==> last == Str(r)
  {
    if last.Str? && last.s != [] then last.s else "0"
  }

  /** The hub reports every device id once. */
  ghost predicate UniqueIds(devices: seq<Device>) {
    forall i, j :: 0 <= i < j < |devices| ==> devices[i].id != devices[j].id
  }

  /** The ids of the devices whose type the bridge recognises. */
  ghost function RecognisedIds(devices: seq<Device>): set<nat> {
    set i | 0 <= i < |devices| && VariantOf(devices[i].deviceType).Some? :: devices[i].id
  }

  /**
   * Reference for enumeration: each device of a recognised type, in order,
   * initialised by its own handler class; other devices contribute nothing.
   */
  function RecognisedInits(devices: seq<Device>): seq<Pub>
    decreases |devices|
  {
    if devices == [] then []
    else
      var d := devices[|devices| - 1];
      RecognisedInits(devices[..|devices| - 1])
        + match VariantOf(d.deviceType) case Some(v) => InitPubs(v, d.id, d.properties) case None => []
  }

  /** Enumeration adds exactly the ids of the recognised devices to the registry. */
  lemma {:induction false} RegistryKeys(handlers: map<nat, Variant>, devices: seq<Device>)
    ensures RegistryAfter(handlers, devices).Keys == handlers.Keys + RecognisedIds(devices)
    decreases |devices|
  {
    if devices != [] {
      var init := devices[..|devices| - 1];
      var d := devices[|devices| - 1];
      RegistryKeys(handlers, init);
      RecognisedIdsSnoc(devices);
    }
  }

  /** The recognised ids of a list are those of all but its last device, plus the last one's if recognised. */
  lemma RecognisedIdsSnoc(devices: seq<Device>)
    requires devices != []
    ensures var d := devices[|devices| - 1];
      RecognisedIds(devices) ==
        RecognisedIds(devices[..|devices| - 1]) + (if VariantOf(d.deviceType).Some? then {d.id} else {})
  {
    var init := devices[..|devices| - 1];
    var d := devices[|devices| - 1];
    var extra: set<nat> := if VariantOf(d.deviceType).Some? then {d.id} else {};
    forall x | x in RecognisedIds(devices)
      ensures x in RecognisedIds(init) + extra
    {
      var i :| 0 <= i < |devices| && VariantOf(devices[i].deviceType).Some? && devices[i].id == x;
      if i < |init| {
        assert init[i] == devices[i];
      }
    }
    forall x | x in RecognisedIds(init) + extra
      ensures x in RecognisedIds(devices)
    {
      if x in RecognisedIds(init) {
        var i :| 0 <= i < |init| && VariantOf(init[i].deviceType).Some? && init[i].id == x;
        assert devices[i] == init[i];
      } else {
        assert devices[|devices| - 1].id == x;
      }
    }
  }

  /**
   * Starting from an empty registry with unique ids, a device is registered
   * exactly when its type is recognised, and with its matching handler class.
   */
  lemma {:induction false} RegistryFromScratch(devices: seq<Device>)
    requires UniqueIds(devices)
    ensures forall i :: 0 <= i < |devices| ==>
      && (devices[i].id in RegistryAfter(map[], devices) <==> VariantOf(devices[i].deviceType).Some?)
      && (devices[i].id in RegistryAfter(map[], devices) ==>
            Some(RegistryAfter(map[], devices)[devices[i].id]) == VariantOf(devices[i].deviceType))
    decreases |devices|
  {
    if devices != [] {
      var init := devices[..|devices| - 1];
      var d := devices[|devices| - 1];
      RegistryFromScratch(init);
      RegistryKeys(map[], init);
      var before := RegistryAfter(map[], init);
      assert RegistryAfter(map[], devices) == Register(before, d);
      assert d.id !in before by {
        assert forall i :: 0 <= i < |init| ==> init[i].id != d.id;
      }
      forall i | 0 <= i < |init|
        ensures init[i] == devices[i] && init[i].id != d.id
      {
      }
    }
  }

  /**
   * With unique ids, enumeration publishes, in device order, exactly the
   * initial publications of the recognised devices; a device of unknown
   * type is neither initialised nor does it stop the devices after it.
   */
  lemma {:induction false} EnumerationPublishesRecognised(devices: seq<Device>)
    requires UniqueIds(devices)
    ensures EnumerationPubs(map[], devices) == RecognisedInits(devices)
    decreases |devices|
  {
    if devices != [] {
      var init := devices[..|devices| - 1];
      var d := devices[|devices| - 1];
      assert UniqueIds(init);
      EnumerationPublishesRecognised(init);
      RegistryKeys(map[], init);
      assert d.id !in RecognisedIds(init);
    }
  }

  /** Routing two lists of changes one after the other publishes what each list publishes, in order. */
  lemma {:induction false} ChangesPubsAppend(handlers: map<nat, Variant>, a: seq<Change>, b: seq<Change>)
    ensures ChangesPubs(handlers, a + b) == ChangesPubs(handlers, a) + ChangesPubs(handlers, b)
    decreases |b|
  {
    if b == [] {
      assert a + b == a;
    } else {
      var bs := b[..|b| - 1];
      assert (a + b)[..|a + b| - 1] == a + bs;
      assert (a + b)[|a + b| - 1] == b[|b| - 1];
      ChangesPubsAppend(handlers, a, bs);
    }
  }

  /** The updates of one change land on topics that route back to the change's own, registered device. */
  lemma ChangePubsRouteBack(handlers: map<nat, Variant>, c: Change)
    ensures forall p :: p in ChangePubs(handlers, c) ==>
      p.retained && c.id in handlers && ParseDeviceTopic(p.topic) == Some(DecimalString(c.id))
  {
    if c.id in handlers {
      UpdatePubsOnValueTopics(handlers[c.id], c.id, c.fields);
      PublishedTopicsRouteBack(c.id, BatteryControl);
      PublishedTopicsRouteBack(c.id, PowerControl);
      PublishedTopicsRouteBack(c.id, SwitchControl);
    }
  }

  /**
   * A poll step publishes only on topics of registered devices that
   * appear in the change list: changes for unknown ids are dropped.
   */
  lemma {:induction false} ChangesPublishOnlyForRegistered(handlers: map<nat, Variant>, changes: seq<Change>)
    ensures forall p :: p in ChangesPubs(handlers, changes) ==>
      && p.retained
      && exists i :: 0 <= i < |changes| && changes[i].id in handlers
           && ParseDeviceTopic(p.topic) == Some(DecimalString(changes[i].id))
    decreases |changes|
  {
    if changes != [] {
      var k := |changes| - 1;
      var init := changes[..k];
      ChangesPublishOnlyForRegistered(handlers, init);
      ChangePubsRouteBack(handlers, changes[k]);
      forall p | p in ChangesPubs(handlers, changes)
        ensures p.retained
        ensures exists i ::
          0 <= i < |changes| && changes[i].id in handlers && ParseDeviceTopic(p.topic) == Some(DecimalString(changes[i].id))
      {
        if p in ChangesPubs(handlers, init) {
          var j :| 0 <= j < |init| && init[j].id in handlers && ParseDeviceTopic(p.topic) == Some(DecimalString(init[j].id));
          assert changes[j] == init[j];
        } else {
          assert p in ChangePubs(handlers, changes[k]);
        }
      }
    }
  }

  /** Regrouping appends to the log, stated on its own so the loop proofs need not unfold what is appended. */
  lemma AppendAssociative(a: seq<Pub>, b: seq<Pub>, c: seq<Pub>)
    ensures a + b + c == a + (b + c)
  {
  }

  /** Enumerating one more device extends the registry and the publications by that device's step. */
  lemma EnumerationStep(handlers: map<nat, Variant>, devices: seq<Device>, i: nat)
    requires i < |devices|
    ensures RegistryAfter(handlers, devices[..i + 1]) == Register(RegistryAfter(handlers, devices[..i]), devices[i])
    ensures EnumerationPubs(handlers, devices[..i + 1]) ==
      EnumerationPubs(handlers, devices[..i]) + InitCall(RegistryAfter(handlers, devices[..i + 1]), devices[i])
  {
    assert devices[..i + 1][..i] == devices[..i];
  }

  /** Routing one more change extends the publications by that change's step. */
  lemma ChangesStep(handlers: map<nat, Variant>, changes: seq<Change>, i: nat)
    requires i < |changes|
    ensures ChangesPubs(handlers, changes[..i + 1]) == ChangesPubs(handlers, changes[..i]) + ChangePubs(handlers, changes[i])
  {
    assert changes[..i + 1][..i] == changes[..i];
  }

  /**
   * The bridge's module-level state: the handler registry (`handlers`),
   * the poll cursor (`pollFibaro.last`) and everything published so far.
   */
  class Bridge {
    var handlers: map<nat, Variant>
    var last: Value
    var log: seq<Pub>

    /** The state at start-up: no handlers, no cursor, nothing published. */
    constructor ()
      ensures handlers == map[] && last == Undefined && log == []
    {
      handlers := map[];
      last := Undefined;
      log := [];
    }

    /**
     * The `devices` response callback: on a transport error or a status
     * other than 200 the process exits with -1; otherwise each device is
     * dispatched on its type, registered and initialised, and polling starts.
     */
    method Enumerate(response: DevicesResponse) returns (outcome: BootOutcome)
      modifies this
      ensures last == old(last)
      ensures response.TransportError? || response.statusCode != HttpOk ==>
        outcome == Exit(EnumerationFailureExit) && handlers == old(handlers) && log == old(log)
      ensures response.HttpResponse? && response.statusCode == HttpOk ==>
        && outcome == StartPolling
        && handlers == RegistryAfter(old(handlers), response.devices)
        && log == old(log) + EnumerationPubs(old(handlers), response.devices)
    {
      if response.TransportError? || response.statusCode != HttpOk {
        return Exit(EnumerationFailureExit);
      }
      var devices := response.devices;
      var i := 0;
      while i < |devices|
        invariant 0 <= i <= |devices|
        invariant handlers == RegistryAfter(old(handlers), devices[..i])
        invariant log == old(log) + EnumerationPubs(old(handlers), devices[..i])
        invariant last == old(last)
      {
        EnumerationStep(old(handlers), devices, i);
        AddDevice(devices[i]);
        AppendAssociative(old(log), EnumerationPubs(old(handlers), devices[..i]), InitCall(handlers, devices[i]));
        i := i + 1;
      }
      assert devices[..|devices|] == devices;
      outcome := StartPolling;
    }

    /**
     * The body of the enumeration loop for one device: dispatch on its type
     * and register the handler, then initialise whatever handler its id has.
     */
    method AddDevice(d: Device)
      modifies this
      ensures handlers == Register(old(handlers), d)
      ensures log == old(log) + InitCall(handlers, d)
      ensures last == old(last)
    {
      var v := VariantOf(d.deviceType);
      if v.Some? {
        handlers := handlers[d.id := v.value];
      }
      if d.id in handlers {
        log := log + InitPubs(handlers[d.id], d.id, d.properties);
      }
    }

    /**
     * One round of pollFibaro: the request carries the cursor (`sent`); the
     * response replaces the cursor, even without a change list, and each
     * change for a registered id is applied by its handler in list order.
     */
    method PollStep(response: PollResponse) returns (sent: string)
      modifies this
      ensures sent == CursorParam(old(last))
      ensures last == response.last && handlers == old(handlers)
      ensures log == old(log) + match response.changes case Some(cs) => ChangesPubs(handlers, cs) case None => []
    {
      sent := CursorParam(last);
      last := response.last;
      if response.changes.Some? {
        var changes := response.changes.value;
        for i := 0 to |changes|
          invariant handlers == old(handlers) && last == response.last
          invariant log == old(log) + ChangesPubs(handlers, changes[..i])
        {
          ChangesStep(handlers, changes, i);
          ApplyChange(changes[i]);
          AppendAssociative(old(log), ChangesPubs(handlers, changes[..i]), ChangePubs(handlers, changes[i]));
        }
        assert changes[..|changes|] == changes;
      }
    }

    /** The body of the change loop: a change for a registered id goes to that handler's `applyUpdate`. */
    method ApplyChange(c: Change)
      modifies this
      ensures handlers == old(handlers) && last == old(last)
      ensures log == old(log) + ChangePubs(handlers, c)
    {
      if c.id in handlers {
        log := log + UpdatePubs(handlers[c.id], c.id, c.fields);
      }
    }

    /**
     * The bus `message` callback: a topic matching ^/devices/zwave-(\d+)/
     * whose captured id names a registered handler goes to that handler,
     * whose `handle` only logs; every other topic is ignored. Nothing is
     * published and no state changes.
     */
    method OnMessage(topic: string, payload: string) returns (target: Option<nat>)
      ensures target.Some? ==>
        target.value in handlers && ParseDeviceTopic(topic) == Some(DecimalString(target.value))
      ensures target.None? ==>
        forall id :: id in handlers ==> ParseDeviceTopic(topic) != Some(DecimalString(id))
    {
      var m := ParseDeviceTopic(topic);
      target := None;
      if m.Some? && IsCanonicalDecimal(m.value) && DecimalValue(m.value) in handlers {
        CanonicalRoundTrip(m.value);
        target := Some(DecimalValue(m.value));
      } else {
        forall id | id in handlers
          ensures m != Some(DecimalString(id))
        {
          DecimalRoundTrip(id);
        }
      }
    }
  }
}
