/** The coordinator and the device tracker platform as objects: one device table, shared by reference with
    every published `SprData`, and a callback that creates entities from it
    (custom_components/spr/coordinator.py, custom_components/spr/device_tracker.py). */
module Coordinator {
  import opened Common
  import opened Grace

  class SprDevice {
    const mac: string
    var name: string
    var ip: string
    var attributes: Attributes
    var rawConnected: bool
    var connected: bool
    var lastSeen: Option<nat>

    function Value(): Device
      reads this
    {
      Device(mac, name, ip, attributes, rawConnected, connected, lastSeen)
    }

    constructor (mac: string)
      ensures Value() == NewDevice(mac)
    {
      this.mac := mac;
      name, ip, attributes := "", "", NO_ATTRIBUTES;
      rawConnected, connected, lastSeen := false, false, None;
    }

    /** The per-device part of a poll. */
    method Update(raw: RawDevice, now: nat, grace: nat)
      modifies this
      ensures Value() == Updated(old(Value()), raw, now, grace)
      ensures name == (if raw.name == "" then old(name) else raw.name)
      ensures ip == (if raw.ip == "" then old(ip) else raw.ip)
      ensures attributes == raw.attributes && rawConnected == raw.connected
      ensures lastSeen == if raw.connected then Some(now)
                          else if raw.lastSeen == 0 then old(lastSeen)
                          else if old(lastSeen).Some? && raw.lastSeen * 1_000_000 <= old(lastSeen).value
                          then old(lastSeen)
                          else Some(raw.lastSeen * 1_000_000)
      ensures connected <==> raw.connected || (lastSeen.Some? && now - lastSeen.value < grace)
    {
      if raw.name != "" {
        name := raw.name;
      }
      if raw.ip != "" {
        ip := raw.ip;
      }
      attributes := raw.attributes;
      rawConnected := raw.connected;
      if rawConnected {
        lastSeen := Some(now);
      } else if raw.lastSeen != 0 {
        var reported := Reported(raw.lastSeen);
        if lastSeen.None? || reported > lastSeen.value {
          lastSeen := Some(reported);
        }
      }
      connected := rawConnected || (lastSeen.Some? && now - lastSeen.value < grace);
    }
  }

  /** The dictionary object holding the devices. */
  class DeviceDict {
    var entries: map<string, SprDevice>

    constructor ()
      ensures entries == map[]
    {
      entries := map[];
    }

    /** Each device sits under its own address, so no device sits under two. */
    predicate Valid()
      reads this, entries.Values
    {
      forall mac | mac in entries :: entries[mac].mac == mac
    }

    function View(): map<string, Device>
      reads this, entries.Values
    {
      map mac | mac in entries :: entries[mac].Value()
    }

    /** The device under an address, created if there is none. */
    method FindOrCreate(mac: string) returns (dev: SprDevice)
      requires Valid()
      modifies this
      ensures Valid() && mac in entries && entries[mac] == dev
      ensures entries == old(entries)[mac := dev]
      ensures if mac in old(entries) then dev == old(entries)[mac] else fresh(dev) && dev.Value() == NewDevice(mac)
    {
      if mac !in entries {
        dev := new SprDevice(mac);
        entries := entries[mac := dev];
      }
      dev := entries[mac];
    }

    /** One row of a poll, updating its device in place. */
    method ProcessRaw(raw: RawDevice, now: nat, grace: nat, format: Format)
      requires Valid()
      modifies this, entries.Values
      ensures Valid() && View() == WithRaw(old(View()), raw, now, grace, format)
      ensures Extends(old(entries))
      ensures entries.Keys == old(entries.Keys) + (if IsSkipped(format(raw.mac)) then {} else {format(raw.mac)})
    {
      hide Updated, IsSkipped, NewDevice, SprDevice.Value;
      var mac := format(raw.mac);
      if IsSkipped(mac) {
        return;
      }
      ghost var before := View();
      var dev := FindOrCreate(mac);
      label created:
      dev.Update(raw, now, grace);
      forall m | m in entries
        ensures entries[m].Value() == WithRaw(before, raw, now, grace, format)[m]
      {
        if m != mac {
          assert entries[m] != dev;
          assert entries[m].Value() == old(entries[m].Value());
        }
      }
    }

    /** Every device of an earlier table is still under its address, and every other device is new. */
    twostate predicate Extends(known: map<string, SprDevice>)
      reads this
    {
      && known.Keys <= entries.Keys
      && forall mac | mac in entries ::
           if mac in known then entries[mac] == known[mac] else fresh(entries[mac])
    }

    /** All rows of a poll, in order. */
    method ProcessRaws(poll: Poll, format: Format) returns (seen: set<string>, newMacs: set<string>)
      requires Valid()
      modifies this, entries.Values
      ensures Valid() && View() == WithRaws(old(View()), poll.raws, poll.now, poll.grace, format)
      ensures Extends(old(entries))
      ensures seen == SeenMacs(poll.raws, format)
      ensures entries.Keys == old(entries.Keys) + seen
      ensures newMacs == seen - old(entries.Keys)
    {
      hide WithRaw, IsSkipped, SeenMacs, SprDevice.Value, View, Valid;
      seen, newMacs := {}, {};
      assert SeenMacs([], format) == {} by { NoneSeen(format); }
      for i := 0 to |poll.raws|
        invariant Valid()
        invariant View() == WithRaws(old(View()), poll.raws[..i], poll.now, poll.grace, format)
        invariant Extends(old(entries))
        invariant seen == SeenMacs(poll.raws[..i], format)
        invariant entries.Keys == old(entries.Keys) + seen
        invariant newMacs == seen - old(entries.Keys)
      {
        assert poll.raws[..i + 1] == poll.raws[..i] + [poll.raws[i]];
        assert poll.raws[..i + 1][..i] == poll.raws[..i];
        SeenMacsSnoc(poll.raws[..i], poll.raws[i], format);
        var mac := format(poll.raws[i].mac);
        if !IsSkipped(mac) {
          seen := seen + {mac};
          if mac !in entries {
            newMacs := newMacs + {mac};
          }
        }
        ProcessRaw(poll.raws[i], poll.now, poll.grace, format);
      }
      assert poll.raws[..|poll.raws|] == poll.raws;
    }

    /** Drops the devices the poll did not list. */
    method Evict(seen: set<string>)
      requires Valid()
      modifies this
      ensures Valid()
      ensures entries == map mac | mac in old(entries) && mac in seen :: old(entries)[mac]
    {
      var rest := entries.Keys;
      while rest != {}
        invariant rest <= old(entries).Keys
        invariant entries == map mac | mac in old(entries) && (mac in seen || mac in rest) :: old(entries)[mac]
      {
        var mac :| mac in rest;
        if mac !in seen {
          entries := entries - {mac};
        }
        rest := rest - {mac};
      }
    }
  }

  lemma NoneSeen(format: Format)
    ensures SeenMacs([], format) == {}
  {
  }

  /** A published state: it refers to the coordinator's table rather than copying it. */
  datatype SprData = SprData(devices: DeviceDict)

  class SprCoordinator {
    const format: Format
    const devices: DeviceDict
    var data: Option<SprData>

    constructor (format: Format)
      ensures this.format == format && fresh(devices) && devices.entries == map[] && data == None
    {
      this.format := format;
      devices := new DeviceDict();
      data := None;
    }

    /** Every published state shares the one table. */
    predicate Shares()
      reads this
    {
      data.Some? ==> data.value.devices == devices
    }

    /** `_async_update_data` up to the dispatch: process the rows, then drop what was not listed. */
    method UpdateDevices(poll: Poll) returns (newMacs: set<string>)
      requires devices.Valid()
      modifies devices, devices.entries.Values
      ensures devices.Valid()
      ensures devices.View() == AfterPoll(old(devices.View()), poll, format)
      ensures devices.entries.Keys == SeenMacs(poll.raws, format)
      ensures newMacs == devices.entries.Keys - old(devices.entries.Keys)
    {
      hide WithRaws, SeenMacs, SprDevice.Value;
      var seen;
      seen, newMacs := devices.ProcessRaws(poll, format);
      devices.Evict(seen);
    }
  }

  /** The device tracker platform: the addresses it has made entities for, and the entities, oldest first. */
  class DeviceTracker {
    const coordinator: SprCoordinator
    var tracked: set<string>
    var entities: seq<string>

    /** The start of `async_setup_entry`. */
    constructor (coordinator: SprCoordinator)
      ensures this.coordinator == coordinator && tracked == {} && entities == []
    {
      this.coordinator := coordinator;
      tracked, entities := {}, [];
    }

    /** One entity per tracked address. */
    ghost predicate Valid()
      reads this
    {
      && (forall mac :: mac in tracked <==> mac in entities)
      && forall i, j | 0 <= i < j < |entities| :: entities[i] != entities[j]
    }

    /** `add_new_devices`, reading whatever table the published state refers to. */
    method AddNewDevices()
      requires Valid() && coordinator.data.Some?
      requires forall mac | mac in coordinator.data.value.devices.entries :: coordinator.format(mac) == mac
      modifies this
      ensures Valid()
      ensures tracked == old(tracked) + coordinator.data.value.devices.entries.Keys
      ensures Creates(old(entities), coordinator.data.value.devices.entries.Keys, entities)
    {
      var rest := coordinator.data.value.devices.entries.Keys - tracked;
      ghost var all := rest;
      var created: seq<string> := [];
      while rest != {}
        invariant rest <= all
        invariant forall mac :: mac in created <==> mac in all - rest
        invariant forall i, j | 0 <= i < j < |created| :: created[i] != created[j]
      {
        var mac :| mac in rest;
        assert forall i | 0 <= i < |created| :: created[i] in created;
        created := created + [coordinator.format(mac)];
        rest := rest - {mac};
      }
      assert forall i | 0 <= i < |created| :: created[i] in created;
      assert forall i | 0 <= i < |entities| :: entities[i] in entities;
      tracked := tracked + set mac | mac in created;
      entities := entities + created;
    }

    /** `is_connected` of the entity for an address. */
    function IsConnected(mac: string): (home: bool)
      requires coordinator.data.Some?
      reads coordinator, coordinator.data.value.devices, coordinator.data.value.devices.entries.Values
      ensures var devs := coordinator.data.value.devices.View(); home <==> mac in devs && devs[mac].connected
    {
      var table := coordinator.data.value.devices.entries;
      mac in table && table[mac].connected
    }
  }

  /** One configured router: its coordinator and, once the platform is set up, its device tracker. */
  class SprEntry {
    const coordinator: SprCoordinator
    var tracker: DeviceTracker?

    constructor (format: Format)
      requires IsIdempotent(format)
      ensures Valid() && View() == START
    {
      coordinator := new SprCoordinator(format);
      tracker := null;
    }

    ghost predicate Valid()
      reads this, coordinator, coordinator.devices, coordinator.devices.entries.Values
      reads if tracker == null then {} else {tracker}
    {
      && IsIdempotent(coordinator.format)
      && coordinator.Shares() && coordinator.devices.Valid()
      && (forall mac | mac in coordinator.devices.entries :: coordinator.format(mac) == mac)
      && (tracker != null ==> tracker.coordinator == coordinator && tracker.Valid() && coordinator.data.Some?)
    }

    function View(): Home
      reads this, coordinator, coordinator.devices, coordinator.devices.entries.Values
      reads if tracker == null then {} else {tracker}
    {
      Home(coordinator.devices.View(), coordinator.data.Some?,
           if tracker == null then None else Some(tracker.entities))
    }

    /** `_async_update_data` on a response. New devices are announced before the new state is stored, so the
        callback still reads the previous one. */
    method UpdateData(poll: Poll) returns (data: SprData)
      requires Valid()
      modifies coordinator.devices, coordinator.devices.entries.Values
      modifies if tracker == null then {} else {tracker}
      ensures Valid() && data == SprData(coordinator.devices)
      ensures coordinator.devices.View() == AfterPoll(old(coordinator.devices.View()), poll, coordinator.format)
      ensures tracker != null ==>
                if coordinator.devices.entries.Keys - old(coordinator.devices.entries.Keys) != {}
                then Creates(old(tracker.entities), coordinator.devices.entries.Keys, tracker.entities)
                else tracker.entities == old(tracker.entities)
    {
      hide AfterPoll, Creates, SeenMacs;
      var newMacs := coordinator.UpdateDevices(poll);
      SeenAreFormatted(poll.raws, coordinator.format);
      if newMacs != {} && coordinator.data.Some? && tracker != null {
        tracker.AddNewDevices();
      }
      data := SprData(coordinator.devices);
    }

    /** A scheduled or requested refresh; no response stands for any error. */
    method Refresh(response: Option<Poll>)
      requires Valid()
      modifies coordinator`data, coordinator.devices, coordinator.devices.entries.Values
      modifies if tracker == null then {} else {tracker}
      ensures Valid()
      ensures Step(old(View()), View(), if response.Some? then Answered(response.value) else Failed, coordinator.format)
    {
      hide AfterPoll, Creates, SprDevice.Value, IsIdempotent;
      if response.None? {
        return;
      }
      assert View().devs.Keys == coordinator.devices.entries.Keys;
      var data := UpdateData(response.value);
      assert View().devs.Keys == coordinator.devices.entries.Keys;
      coordinator.data := Some(data);
    }

    /** Setting up the device tracker platform, after the first refresh. */
    method SetUpTracker()
      requires Valid() && tracker == null && coordinator.data.Some?
      modifies this
      ensures Valid()
      ensures Step(old(View()), View(), SetUp, coordinator.format)
    {
      var platform := new DeviceTracker(coordinator);
      platform.AddNewDevices();
      tracker := platform;
    }
  }

  ghost predicate IsIdempotent(format: Format) {
    forall s :: format(format(s)) == format(s)
  }

  lemma SeenAreFormatted(raws: seq<RawDevice>, format: Format)
    requires IsIdempotent(format)
    ensures forall mac | mac in SeenMacs(raws, format) :: format(mac) == mac
  {
  }

  // ---- runs ----

  /** The device table, whether a state has been published, and the entities once the platform is set up. */
  datatype Home = Home(devs: map<string, Device>, hasData: bool, entities: Option<seq<string>>)

  const START := Home(map[], false, None)

  datatype Op = SetUp | Answered(poll: Poll) | Failed

  /** One new entity for each of the addresses that has none. */
  ghost predicate Creates(entities: seq<string>, macs: set<string>, entities': seq<string>) {
    && entities <= entities'
    && (forall mac :: mac in entities' <==> mac in entities || mac in macs)
    && ((forall i, j | 0 <= i < j < |entities| :: entities[i] != entities[j]) ==>
          forall i, j | 0 <= i < j < |entities'| :: entities'[i] != entities'[j])
  }

  ghost predicate Step(h: Home, h': Home, op: Op, format: Format) {
    match op
    case Failed => h' == h
    case SetUp =>
      && h.hasData && h.entities.None? && h'.entities.Some?
      && Creates([], h.devs.Keys, h'.entities.value)
      && h' == h.(entities := h'.entities)
    case Answered(poll) =>
      && h'.devs == AfterPoll(h.devs, poll, format) && h'.hasData
      && (h'.entities.Some? <==> h.entities.Some?)
      && (h.entities.Some? ==>
            if h'.devs.Keys - h.devs.Keys != {} then Creates(h.entities.value, h'.devs.Keys, h'.entities.value)
            else h'.entities == h.entities)
  }

  /** A run, as the operations and the states before and after them. */
  ghost predicate IsHistory(states: seq<Home>, ops: seq<Op>, format: Format) {
    && |states| == |ops| + 1 && states[0] == START
    && forall i | 0 <= i < |ops| :: Step(states[i], states[i + 1], ops[i], format)
  }

  /** Some state from the platform's set-up to `n` held the address. */
  ghost predicate WasListed(states: seq<Home>, n: nat, mac: string)
    requires n < |states|
  {
    exists k :: 0 <= k <= n && states[k].entities.Some? && mac in states[k].devs
  }

  /** Over any run, once the platform is set up, every address that is or was in the table since then has
      exactly one entity, however often its device was deleted and added again, and there are no others. */
  lemma {:induction false} EachAddressHasOneEntity(states: seq<Home>, ops: seq<Op>, format: Format, n: nat)
    requires IsHistory(states, ops, format) && n < |states| && states[n].entities.Some?
    ensures var entities := states[n].entities.value;
            && (forall mac :: mac in entities <==> WasListed(states, n, mac))
            && (forall mac | mac in states[n].devs :: mac in entities)
            && forall i, j | 0 <= i < j < |entities| :: entities[i] != entities[j]
  {
    hide AfterPoll;
    assert n > 0;
    assert Step(states[n - 1], states[n], ops[n - 1], format);
    forall mac | mac in states[n].devs ensures WasListed(states, n, mac) {
    }
    if states[n - 1].entities.None? {
      NoEntitiesBefore(states, ops, format, n - 1);
      forall mac | WasListed(states, n, mac) ensures mac in states[n].devs {
        var k :| 0 <= k <= n && states[k].entities.Some? && mac in states[k].devs;
        assert k == n;
      }
    } else {
      EachAddressHasOneEntity(states, ops, format, n - 1);
      if states[n].devs.Keys - states[n - 1].devs.Keys == {} {
        forall mac | mac in states[n].devs ensures mac in states[n - 1].devs {
          assert mac !in states[n].devs.Keys - states[n - 1].devs.Keys;
        }
      }
      forall mac ensures WasListed(states, n, mac) <==> WasListed(states, n - 1, mac) || mac in states[n].devs {
        if WasListed(states, n, mac) {
          var k :| 0 <= k <= n && states[k].entities.Some? && mac in states[k].devs;
          assert k == n || k <= n - 1;
        }
      }
    }
  }

  /** The platform is set up once; before that there are no entities. */
  lemma {:induction false} NoEntitiesBefore(states: seq<Home>, ops: seq<Op>, format: Format, n: nat)
    requires IsHistory(states, ops, format) && n < |states| && states[n].entities.None?
    ensures forall k | 0 <= k <= n :: states[k].entities.None?
  {
    hide AfterPoll, Creates;
    if n > 0 {
      assert Step(states[n - 1], states[n], ops[n - 1], format);
      NoEntitiesBefore(states, ops, format, n - 1);
    }
  }

  /** The polls answered among the first `n` operations. */
  function PollsOf(ops: seq<Op>): seq<Poll> {
    if ops == [] then []
    else
      var last := ops[|ops| - 1];
      PollsOf(ops[..|ops| - 1]) + if last.Answered? then [last.poll] else []
  }

  /** Failed polls and entity creation leave the table alone: it is always that of the answered polls. */
  lemma {:induction false} TableFollowsPolls(states: seq<Home>, ops: seq<Op>, format: Format, n: nat)
    requires IsHistory(states, ops, format) && n < |states|
    ensures states[n].devs == AfterPolls(PollsOf(ops[..n]), format)
  {
    hide AfterPoll, Creates;
    if n > 0 {
      assert Step(states[n - 1], states[n], ops[n - 1], format);
      TableFollowsPolls(states, ops, format, n - 1);
      assert ops[..n][..n - 1] == ops[..n - 1];
      var before := PollsOf(ops[..n - 1]);
      if ops[n - 1].Answered? {
        assert (before + [ops[n - 1].poll])[..|before|] == before;
      } else {
        assert before + [] == before;
      }
    }
  }
}
