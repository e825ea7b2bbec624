/** Presence as Home Assistant keeps it: polls of the plugin, with a grace period before a device counts as
    away (custom_components/spr/coordinator.py). Times are in microseconds. */
module Grace {
  import opened Common

  /** The attributes every poll replaces wholesale. */
  datatype Attributes = Attributes(
    groups: seq<string>, tags: seq<string>, wired: bool, iface: string, signal: int,
    rxBytes: nat, txBytes: nat, blocked: bool, guest: bool)

  const NO_ATTRIBUTES := Attributes([], [], false, "", 0, 0, 0, false, false)

  /** A device of a polled state; `lastSeen` is in whole seconds, 0 for never. */
  datatype RawDevice = RawDevice(
    mac: string, name: string, ip: string, connected: bool, lastSeen: nat, attributes: Attributes)

  datatype Device = Device(
    mac: string, name: string, ip: string, attributes: Attributes,
    rawConnected: bool, connected: bool, lastSeen: Option<nat>)

  function NewDevice(mac: string): Device {
    Device(mac, "", "", NO_ATTRIBUTES, false, false, None)
  }

  function Reported(seconds: nat): nat {
    seconds * 1_000_000
  }

  /** The new `last_seen`: now for a connected device, else a non-zero reported time if it is newer. */
  function Sighted(last: Option<nat>, now: nat, connected: bool, seconds: nat): Option<nat> {
    if connected then Some(now)
    else if seconds != 0 && (last.None? || Reported(seconds) > last.value) then Some(Reported(seconds))
    else last
  }

  function IsHome(rawConnected: bool, last: Option<nat>, now: nat, grace: nat): bool {
    rawConnected || (last.Some? && now - last.value < grace)
  }

  function Updated(dev: Device, raw: RawDevice, now: nat, grace: nat): Device {
    var last := Sighted(dev.lastSeen, now, raw.connected, raw.lastSeen);
    Device(dev.mac, if raw.name != "" then raw.name else dev.name, if raw.ip != "" then raw.ip else dev.ip,
           raw.attributes, raw.connected, IsHome(raw.connected, last, now, grace), last)
  }

  const ZERO_MAC := "00:00:00:00:00:00"

  predicate IsSkipped(mac: string) {
    mac == "" || mac == ZERO_MAC
  }

  /** A successful poll: when it was processed, the grace period then, the devices, and the address
      formatting of Home Assistant's device registry. */
  datatype Poll = Poll(now: nat, grace: nat, raws: seq<RawDevice>)

  type Format = string -> string

  function WithRaw(devs: map<string, Device>, raw: RawDevice, now: nat, grace: nat, format: Format)
    : map<string, Device>
  {
    var mac := format(raw.mac);
    if IsSkipped(mac) then devs
    else devs[mac := Updated(if mac in devs then devs[mac] else NewDevice(mac), raw, now, grace)]
  }

  function WithRaws(devs: map<string, Device>, raws: seq<RawDevice>, now: nat, grace: nat, format: Format)
    : map<string, Device>
  {
    if raws == [] then devs
    else WithRaw(WithRaws(devs, raws[..|raws| - 1], now, grace, format), raws[|raws| - 1], now, grace, format)
  }

  /** The valid addresses of a poll. */
  function SeenMacs(raws: seq<RawDevice>, format: Format): set<string> {
    set raw | raw in raws && !IsSkipped(format(raw.mac)) :: format(raw.mac)
  }

  lemma SeenMacsSnoc(raws: seq<RawDevice>, raw: RawDevice, format: Format)
    ensures SeenMacs(raws + [raw], format) ==
            SeenMacs(raws, format) + if IsSkipped(format(raw.mac)) then {} else {format(raw.mac)}
  {
  }

  /** The device table after a poll: every listed device updated, every other one dropped. */
  function AfterPoll(devs: map<string, Device>, poll: Poll, format: Format): map<string, Device> {
    var all := WithRaws(devs, poll.raws, poll.now, poll.grace, format);
    map mac | mac in all && mac in SeenMacs(poll.raws, format) :: all[mac]
  }

  function AfterPolls(polls: seq<Poll>, format: Format): map<string, Device> {
    if polls == [] then map[]
    else AfterPoll(AfterPolls(polls[..|polls| - 1], format), polls[|polls| - 1], format)
  }

  // ---- what one device has been through ----

  /** One row about a device, and the time of its poll. */
  datatype Row = Row(now: nat, raw: RawDevice)

  function RowsIn(raws: seq<RawDevice>, now: nat, mac: string, format: Format): seq<Row> {
    if raws == [] then []
    else
      var raw := raws[|raws| - 1];
      var before := RowsIn(raws[..|raws| - 1], now, mac, format);
      if !IsSkipped(format(raw.mac)) && format(raw.mac) == mac
      then before + [Row(now, raw)] else before
  }

  /** The rows about a device since it was last missing from a poll. */
  function RowsSince(polls: seq<Poll>, mac: string, format: Format): seq<Row> {
    if polls == [] then []
    else
      var last := polls[|polls| - 1];
      if mac !in SeenMacs(last.raws, format) then []
      else RowsSince(polls[..|polls| - 1], mac, format) + RowsIn(last.raws, last.now, mac, format)
  }

  function FoldRows(start: Option<nat>, rows: seq<Row>): Option<nat> {
    if rows == [] then start
    else
      var row := rows[|rows| - 1];
      Sighted(FoldRows(start, rows[..|rows| - 1]), row.now, row.raw.connected, row.raw.lastSeen)
  }

  lemma {:induction false} FoldConcat(start: Option<nat>, a: seq<Row>, b: seq<Row>)
    ensures FoldRows(start, a + b) == FoldRows(FoldRows(start, a), b)
  {
    if b == [] {
      assert a + b == a;
    } else {
      assert (a + b)[..|a + b| - 1] == a + b[..|b| - 1];
      FoldConcat(start, a, b[..|b| - 1]);
    }
  }

  function LastSeenIn(devs: map<string, Device>, mac: string): Option<nat> {
    if mac in devs then devs[mac].lastSeen else None
  }

  lemma {:induction false} RowsOfSeen(raws: seq<RawDevice>, now: nat, mac: string, format: Format)
    ensures RowsIn(raws, now, mac, format) != [] <==> mac in SeenMacs(raws, format)
  {
    if raws != [] {
      var n := |raws| - 1;
      RowsOfSeen(raws[..n], now, mac, format);
      assert raws == raws[..n] + [raws[n]];
    }
  }

  /** What processing one row does to the device of an address, and to its rows. */
  lemma RawStep(devs: map<string, Device>, raw: RawDevice, now: nat, grace: nat, mac: string, format: Format)
    ensures var all := WithRaw(devs, raw, now, grace, format);
            var hit := !IsSkipped(format(raw.mac)) && format(raw.mac) == mac;
            && (!hit ==> (mac in all <==> mac in devs) && (mac in all ==> all[mac] == devs[mac]))
            && (hit ==>
                  && mac in all
                  && all[mac].lastSeen == Sighted(LastSeenIn(devs, mac), now, raw.connected, raw.lastSeen)
                  && all[mac].rawConnected == raw.connected
                  && all[mac].connected == IsHome(raw.connected, all[mac].lastSeen, now, grace))
  {
    hide Sighted, IsHome, IsSkipped;
  }

  lemma RowsInSnoc(raws: seq<RawDevice>, now: nat, mac: string, format: Format)
    requires raws != []
    ensures var before, raw := RowsIn(raws[..|raws| - 1], now, mac, format), raws[|raws| - 1];
            var hit := !IsSkipped(format(raw.mac)) && format(raw.mac) == mac;
            RowsIn(raws, now, mac, format) == if hit then before + [Row(now, raw)] else before
  {
  }

  lemma FoldSnoc(start: Option<nat>, rows: seq<Row>, row: Row)
    ensures FoldRows(start, rows + [row]) ==
            Sighted(FoldRows(start, rows), row.now, row.raw.connected, row.raw.lastSeen)
  {
    assert (rows + [row])[..|rows|] == rows;
  }

  /** Processing a poll's rows: which devices there are, and each one's time and flags. */
  lemma {:induction false} RawsFold(devs: map<string, Device>, raws: seq<RawDevice>, now: nat, grace: nat, mac: string,
                                    format: Format)
    ensures var all, rows := WithRaws(devs, raws, now, grace, format), RowsIn(raws, now, mac, format);
            && (mac in all <==> mac in devs || rows != [])
            && (mac in all ==> all[mac].lastSeen == FoldRows(LastSeenIn(devs, mac), rows))
            && (rows != [] ==>
                  && all[mac].rawConnected == rows[|rows| - 1].raw.connected
                  && all[mac].connected == IsHome(all[mac].rawConnected, all[mac].lastSeen, now, grace))
  {
    hide Sighted, IsHome, IsSkipped, WithRaw;
    if raws != [] {
      hide RowsIn, FoldRows;
      var n := |raws| - 1;
      var raw := raws[n];
      RawsFold(devs, raws[..n], now, grace, mac, format);
      RowsInSnoc(raws, now, mac, format);
      RawStep(WithRaws(devs, raws[..n], now, grace, format), raw, now, grace, mac, format);
      FoldSnoc(LastSeenIn(devs, mac), RowsIn(raws[..n], now, mac, format), Row(now, raw));
    }
  }

  /** Some row of a poll formats to the address, which is neither empty nor all zeros. */
  ghost predicate IsListed(raws: seq<RawDevice>, mac: string, format: Format) {
    mac != "" && mac != "00:00:00:00:00:00" && exists raw :: raw in raws && format(raw.mac) == mac
  }

  lemma ListedIsSeen(raws: seq<RawDevice>, mac: string, format: Format)
    ensures IsListed(raws, mac, format) <==> mac in SeenMacs(raws, format)
  {
  }

  /** After any run of polls the table holds exactly the last poll's valid addresses, each with the fold of
      the rows since it was last missing. */
  lemma {:induction false} PollsFold(polls: seq<Poll>, mac: string, format: Format)
    ensures var devs, rows := AfterPolls(polls, format), RowsSince(polls, mac, format);
            && (mac in devs <==> polls != [] && IsListed(polls[|polls| - 1].raws, mac, format))
            && (mac in devs <==> rows != [])
            && (mac in devs ==>
                  var last := polls[|polls| - 1];
                  && devs[mac].lastSeen == FoldRows(None, rows)
                  && devs[mac].rawConnected == rows[|rows| - 1].raw.connected
                  && devs[mac].connected == IsHome(devs[mac].rawConnected, devs[mac].lastSeen, last.now, last.grace))
  {
    hide WithRaws, RowsIn, SeenMacs, IsHome, FoldRows, IsListed;
    if polls != [] {
      var before, last := polls[..|polls| - 1], polls[|polls| - 1];
      PollsFold(before, mac, format);
      var devs := AfterPolls(before, format);
      RawsFold(devs, last.raws, last.now, last.grace, mac, format);
      RowsOfSeen(last.raws, last.now, mac, format);
      ListedIsSeen(last.raws, mac, format);
      var earlier, rows := RowsSince(before, mac, format), RowsIn(last.raws, last.now, mac, format);
      FoldConcat(None, earlier, rows);
      assert FoldRows(None, []) == None by { NoRows(); }
    }
  }

  lemma NoRows()
    ensures FoldRows(None, []) == None
  {
  }

  // ---- names, addresses and attributes ----

  function NamesOf(rows: seq<Row>): seq<string> {
    seq(|rows|, i requires 0 <= i < |rows| => rows[i].raw.name)
  }

  function IpsOf(rows: seq<Row>): seq<string> {
    seq(|rows|, i requires 0 <= i < |rows| => rows[i].raw.ip)
  }

  /** What is left of a text after updates of which the empty ones do not count. */
  function Kept(start: string, texts: seq<string>): string {
    if texts == [] then start
    else
      var last := texts[|texts| - 1];
      if last != "" then last else Kept(start, texts[..|texts| - 1])
  }

  lemma {:induction false} KeptConcat(start: string, a: seq<string>, b: seq<string>)
    ensures Kept(start, a + b) == Kept(Kept(start, a), b)
  {
    if b == [] {
      assert a + b == a;
    } else {
      assert (a + b)[..|a + b| - 1] == a + b[..|b| - 1];
      KeptConcat(start, a, b[..|b| - 1]);
    }
  }

  /** The last non-empty text, or nothing when there is none. */
  ghost predicate IsLastNonEmpty(texts: seq<string>, v: string) {
    if v == "" then forall i | 0 <= i < |texts| :: texts[i] == ""
    else exists i :: 0 <= i < |texts| && texts[i] == v && forall j | i < j < |texts| :: texts[j] == ""
  }

  lemma {:induction false} KeptIsLast(texts: seq<string>)
    ensures IsLastNonEmpty(texts, Kept("", texts))
  {
    if texts != [] {
      var n := |texts| - 1;
      KeptIsLast(texts[..n]);
      if texts[n] == "" && Kept("", texts) != "" {
        var v := Kept("", texts);
        var i :| 0 <= i < n && texts[..n][i] == v && forall j | i < j < n :: texts[..n][j] == "";
        assert texts[i] == v && forall j | i < j < |texts| :: texts[j] == "" by {
          assert forall j | i < j < n :: texts[j] == texts[..n][j];
        }
      } else if texts[n] == "" {
        assert forall i | 0 <= i < n :: texts[i] == texts[..n][i];
      }
    }
  }

  /** A device's name, IP and attributes as its rows since a start leave them. */
  ghost predicate FieldsFrom(name: string, ip: string, rows: seq<Row>, dev: Device) {
    && dev.name == Kept(name, NamesOf(rows)) && dev.ip == Kept(ip, IpsOf(rows))
    && (rows != [] ==> dev.attributes == rows[|rows| - 1].raw.attributes)
  }

  function NameIn(devs: map<string, Device>, mac: string): string {
    if mac in devs then devs[mac].name else ""
  }

  function IpIn(devs: map<string, Device>, mac: string): string {
    if mac in devs then devs[mac].ip else ""
  }

  lemma FieldsSnoc(name: string, ip: string, rows: seq<Row>, raw: RawDevice, now: nat, dev: Device, next: Device)
    requires dev.name == Kept(name, NamesOf(rows)) && dev.ip == Kept(ip, IpsOf(rows))
    requires next.name == (if raw.name != "" then raw.name else dev.name)
    requires next.ip == (if raw.ip != "" then raw.ip else dev.ip) && next.attributes == raw.attributes
    ensures FieldsFrom(name, ip, rows + [Row(now, raw)], next)
  {
    var more := rows + [Row(now, raw)];
    assert NamesOf(more) == NamesOf(rows) + [raw.name] && IpsOf(more) == IpsOf(rows) + [raw.ip];
    assert (NamesOf(rows) + [raw.name])[..|rows|] == NamesOf(rows);
    assert (IpsOf(rows) + [raw.ip])[..|rows|] == IpsOf(rows);
  }

  lemma {:induction false} RawsFields(devs: map<string, Device>, raws: seq<RawDevice>, now: nat, grace: nat,
                                      mac: string, format: Format)
    ensures var all, rows := WithRaws(devs, raws, now, grace, format), RowsIn(raws, now, mac, format);
            && (mac in all <==> mac in devs || rows != [])
            && (mac in all ==> FieldsFrom(NameIn(devs, mac), IpIn(devs, mac), rows, all[mac]))
  {
    hide Sighted, IsHome, IsSkipped, Kept;
    var rows := RowsIn(raws, now, mac, format);
    if raws == [] {
      NothingKept(NameIn(devs, mac));
      NothingKept(IpIn(devs, mac));
    } else {
      var n := |raws| - 1;
      var raw := raws[n];
      RawsFields(devs, raws[..n], now, grace, mac, format);
      var before, earlier := WithRaws(devs, raws[..n], now, grace, format), RowsIn(raws[..n], now, mac, format);
      if !IsSkipped(format(raw.mac)) && format(raw.mac) == mac {
        var dev := if mac in before then before[mac] else NewDevice(mac);
        if mac !in before {
          assert earlier == [];
          NothingKept("");
        }
        FieldsSnoc(NameIn(devs, mac), IpIn(devs, mac), earlier, raw, now, dev, Updated(dev, raw, now, grace));
      }
    }
  }

  lemma NothingKept(start: string)
    ensures Kept(start, []) == start && NamesOf([]) == [] && IpsOf([]) == []
  {
  }

  lemma FieldsConcat(earlier: seq<Row>, rows: seq<Row>, name: string, ip: string, dev: Device)
    requires name == Kept("", NamesOf(earlier)) && ip == Kept("", IpsOf(earlier))
    requires rows != [] && FieldsFrom(name, ip, rows, dev)
    ensures FieldsFrom("", "", earlier + rows, dev)
  {
    hide Kept;
    assert NamesOf(earlier + rows) == NamesOf(earlier) + NamesOf(rows);
    assert IpsOf(earlier + rows) == IpsOf(earlier) + IpsOf(rows);
    KeptConcat("", NamesOf(earlier), NamesOf(rows));
    KeptConcat("", IpsOf(earlier), IpsOf(rows));
  }

  lemma {:induction false} PollsKeep(polls: seq<Poll>, mac: string, format: Format)
    requires mac in AfterPolls(polls, format)
    ensures FieldsFrom("", "", RowsSince(polls, mac, format), AfterPolls(polls, format)[mac])
    decreases |polls|, 0
  {
    hide WithRaws, RowsIn, SeenMacs, Kept, IsListed, NamesOf, IpsOf, FoldRows, IsHome, FieldsFrom;
    var before, last := polls[..|polls| - 1], polls[|polls| - 1];
    var devs := AfterPolls(before, format);
    RowsOfSeen(last.raws, last.now, mac, format);
    RawsFields(devs, last.raws, last.now, last.grace, mac, format);
    FieldsSoFar(before, mac, format);
    FieldsConcat(RowsSince(before, mac, format), RowsIn(last.raws, last.now, mac, format),
                 NameIn(devs, mac), IpIn(devs, mac), AfterPolls(polls, format)[mac]);
  }

  lemma {:induction false} FieldsSoFar(polls: seq<Poll>, mac: string, format: Format)
    ensures var devs, rows := AfterPolls(polls, format), RowsSince(polls, mac, format);
            NameIn(devs, mac) == Kept("", NamesOf(rows)) && IpIn(devs, mac) == Kept("", IpsOf(rows))
    decreases |polls|, 1
  {
    hide AfterPolls, RowsSince, Kept, NamesOf, IpsOf, FoldRows, IsHome, IsListed;
    PollsFold(polls, mac, format);
    if mac in AfterPolls(polls, format) {
      PollsKeep(polls, mac, format);
    } else {
      NothingKept("");
    }
  }

  /** A device's name and IP are the last non-empty ones reported since it was last missing, and its other attributes
      those of its last row. */
  lemma FieldsAreLatest(polls: seq<Poll>, mac: string, format: Format)
    requires mac in AfterPolls(polls, format)
    ensures RowsSince(polls, mac, format) != []
    ensures var dev, rows := AfterPolls(polls, format)[mac], RowsSince(polls, mac, format);
            && IsLastNonEmpty(NamesOf(rows), dev.name) && IsLastNonEmpty(IpsOf(rows), dev.ip)
            && dev.attributes == rows[|rows| - 1].raw.attributes
  {
    hide AfterPolls, RowsSince, IsLastNonEmpty, Kept, NamesOf, IpsOf;
    PollsFold(polls, mac, format);
    PollsKeep(polls, mac, format);
    KeptIsLast(NamesOf(RowsSince(polls, mac, format)));
    KeptIsLast(IpsOf(RowsSince(polls, mac, format)));
  }

  // ---- the closed form ----

  /** Row `i` counts as a sighting at time `t`: it is the last connected row, or reports a non-zero time
      after the last connected row. */
  ghost predicate SightingAt(rows: seq<Row>, i: int, t: nat) {
    && 0 <= i < |rows|
    && (forall j | i < j < |rows| :: !rows[j].raw.connected)
    && if rows[i].raw.connected then t == rows[i].now
       else rows[i].raw.lastSeen != 0 && t == rows[i].raw.lastSeen * 1_000_000
  }

  /** `v` is the latest sighting, or nothing when there is none. */
  ghost predicate IsLatest(rows: seq<Row>, v: Option<nat>) {
    match v
    case None => forall i, t: nat :: !SightingAt(rows, i, t)
    case Some(x) => (exists i :: SightingAt(rows, i, x)) && forall i, t: nat | SightingAt(rows, i, t) :: t <= x
  }

  lemma {:induction false} FoldIsLatest(rows: seq<Row>)
    ensures IsLatest(rows, FoldRows(None, rows))
  {
    if rows != [] {
      var n := |rows| - 1;
      var before, row := rows[..n], rows[n];
      FoldIsLatest(before);
      var v, w := FoldRows(None, before), FoldRows(None, rows);
      assert forall i | 0 <= i < n :: rows[i] == before[i];
      if row.raw.connected {
        assert SightingAt(rows, n, row.now);
      } else {
        assert forall i, t: nat | i < n :: SightingAt(rows, i, t) <==> SightingAt(before, i, t);
        if row.raw.lastSeen != 0 {
          assert SightingAt(rows, n, Reported(row.raw.lastSeen));
        }
        if v.Some? {
          var i :| SightingAt(before, i, v.value);
          assert SightingAt(rows, i, v.value);
        }
      }
    }
  }

  /** Home Assistant's time for a device is its latest sighting since it was last missing: the time of the
      latest poll that found it connected, or a later non-zero reported time if that is newer. */
  lemma LastSeenIsLatestSighting(polls: seq<Poll>, mac: string, format: Format)
    requires mac in AfterPolls(polls, format)
    ensures IsLatest(RowsSince(polls, mac, format), AfterPolls(polls, format)[mac].lastSeen)
  {
    hide AfterPolls, RowsSince, FoldRows, IsLatest;
    PollsFold(polls, mac, format);
    FoldIsLatest(RowsSince(polls, mac, format));
  }

  /** A device is home exactly when its last row says so or some sighting lies within the grace period. */
  lemma HomeExactly(polls: seq<Poll>, mac: string, format: Format)
    requires mac in AfterPolls(polls, format)
    ensures polls != [] && RowsSince(polls, mac, format) != []
    ensures var rows, last := RowsSince(polls, mac, format), polls[|polls| - 1];
            AfterPolls(polls, format)[mac].connected <==>
              || rows[|rows| - 1].raw.connected
              || exists i, t: nat :: SightingAt(rows, i, t) && last.now - t < last.grace
  {
    hide AfterPolls, RowsSince, FoldRows;
    PollsFold(polls, mac, format);
    LastSeenIsLatestSighting(polls, mac, format);
  }

  // ---- the grace period ----

  ghost predicate ClockAdvances(polls: seq<Poll>) {
    forall i, j | 0 <= i < j < |polls| :: polls[i].now <= polls[j].now
  }

  ghost predicate ListedFrom(polls: seq<Poll>, i: nat, mac: string, format: Format) {
    forall k | i <= k < |polls| :: IsListed(polls[k].raws, mac, format)
  }

  lemma {:induction false} RowsInTime(raws: seq<RawDevice>, now: nat, mac: string, format: Format)
    ensures forall row | row in RowsIn(raws, now, mac, format) :: row.now == now
  {
    if raws != [] {
      RowsInTime(raws[..|raws| - 1], now, mac, format);
    }
  }

  /** A poll that found the device connected leaves a row from which every later row is as late. */
  lemma {:induction false} ConnectedRowStays(polls: seq<Poll>, i: nat, mac: string, format: Format) returns (k: nat)
    requires ClockAdvances(polls) && i < |polls| && ListedFrom(polls, i, mac, format)
    requires exists row :: row in RowsIn(polls[i].raws, polls[i].now, mac, format) && row.raw.connected
    ensures var rows := RowsSince(polls, mac, format);
            k < |rows| && rows[k].raw.connected && forall j | k <= j < |rows| :: polls[i].now <= rows[j].now
    decreases |polls|
  {
    var n := |polls| - 1;
    var last := polls[n];
    var earlier, rows := RowsSince(polls[..n], mac, format), RowsIn(last.raws, last.now, mac, format);
    RowsInTime(last.raws, last.now, mac, format);
    assert IsListed(last.raws, mac, format);
    ListedIsSeen(last.raws, mac, format);
    hide SeenMacs, RowsIn, IsListed;
    assert RowsSince(polls, mac, format) == earlier + rows;
    assert polls[i].now <= last.now;
    hide RowsSince;
    if i == n {
      var row :| row in rows && row.raw.connected;
      var j :| 0 <= j < |rows| && rows[j] == row;
      k := |earlier| + j;
    } else {
      PrefixOf(polls, n, i, mac, format);
      k := ConnectedRowStays(polls[..n], i, mac, format);
    }
  }

  lemma PrefixOf(polls: seq<Poll>, n: nat, i: nat, mac: string, format: Format)
    requires ClockAdvances(polls) && ListedFrom(polls, i, mac, format) && i < n <= |polls|
    ensures ClockAdvances(polls[..n]) && ListedFrom(polls[..n], i, mac, format) && polls[..n][i] == polls[i]
  {
    hide IsListed;
    assert forall k | 0 <= k < n :: polls[..n][k] == polls[k];
  }

  /** A device found connected at some poll and never missing since is still home at a later poll, as long
      as less than the grace period has passed. */
  lemma StaysHome(polls: seq<Poll>, i: nat, mac: string, format: Format)
    requires ClockAdvances(polls) && i < |polls| && ListedFrom(polls, i, mac, format)
    requires exists row :: row in RowsIn(polls[i].raws, polls[i].now, mac, format) && row.raw.connected
    requires var last := polls[|polls| - 1]; last.now - polls[i].now < last.grace
    ensures mac in AfterPolls(polls, format) && AfterPolls(polls, format)[mac].connected
  {
    hide AfterPolls, RowsSince, RowsIn, SeenMacs, FoldRows, IsListed;
    PollsFold(polls, mac, format);
    assert IsListed(polls[|polls| - 1].raws, mac, format);
    HomeExactly(polls, mac, format);
    var k := ConnectedRowStays(polls, i, mac, format);
    var rows := RowsSince(polls, mac, format);
    var l := LastConnected(rows, k);
    assert SightingAt(rows, l, rows[l].now);
  }

  lemma {:induction false} LastConnected(rows: seq<Row>, k: nat) returns (l: nat)
    requires k < |rows| && rows[k].raw.connected
    ensures k <= l < |rows| && rows[l].raw.connected && forall j | l < j < |rows| :: !rows[j].raw.connected
    decreases |rows| - k
  {
    l := k;
    if j :| k < j < |rows| && rows[j].raw.connected {
      l := LastConnected(rows, j);
    }
  }
}
