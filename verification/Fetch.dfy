/** From SPR's answers to what a refresh works with (code/refresh.go, the part without the lock). */
module Fetch {
  import opened Common
  import opened Presence
  import opened Devices
  import opened Traffic
  import opened Store
  import opened Version

  /** Everything a refresh is told after its device fetch succeeded: the device table with the order in which its
      rows happen to be visited, and the other answers, empty or absent when a request failed. */
  datatype Answers = Answers(
    devices: map<string, DeviceEntry>, order: seq<string>,
    topology: Option<seq<TopoNode>>, ifaces: seq<Interface>, lists: map<string, seq<Station>>, arp: seq<ArpEntry>,
    rxEls: seq<Element>, txEls: seq<Element>,
    hostname: string, version: string, release: string, tags: Option<seq<string>>)

  ghost predicate ValidAnswers(a: Answers) {
    IsIterationOrder(a.order, a.devices)
  }

  /** The part of the answers that presence rests on. */
  function PresenceData(a: Answers): Fetched {
    Fetched(a.topology, a.ifaces, a.lists, a.arp, UplinkName(a.ifaces))
  }

  function VersionOf(a: Answers): string {
    if a.version == "" then a.release else a.version
  }

  /** The version check a refresh makes, asked and answered at these times. */
  function CallOf(a: Answers, asked: nat, done: nat): Call {
    Call(VersionOf(a), asked, a.tags, done)
  }

  /** What the refresh makes of the answers, given the newest available version. */
  function ReadingOf(a: Answers, latest: string): Reading {
    Reading(
      Gathered(a.devices, a.order, PresenceOf(PresenceData(a)), CountersOf(a.rxEls), CountersOf(a.txEls)),
      Bytes(a.rxEls) % WORD, Bytes(a.txEls) % WORD,
      RouterInfo(a.hostname, VersionOf(a), latest, UpdateAvailable(VersionOf(a), latest),
                 UplinkName(a.ifaces), HasGuestBss(a.ifaces), 0))
  }

  /** The fetching half of `refreshState`, through all its loops. */
  method FetchReading(a: Answers, check: VersionCheck, asked: nat, done: nat) returns (r: Reading)
    modifies check
    ensures var call := CallOf(a, asked, done);
            && check.View() == AfterCall(old(check.View()), call)
            && r == ReadingOf(a, Answer(old(check.View()), call))
  {
    var guestEnabled, wan := ScanInterfaces(a.ifaces);
    var presence := GatherPresence(Fetched(a.topology, a.ifaces, a.lists, a.arp, wan));
    var rxByIP, rxTotal := Account(a.rxEls);
    var txByIP, txTotal := Account(a.txEls);
    AccountedIsCounters(a.rxEls, rxByIP, rxTotal);
    AccountedIsCounters(a.txEls, txByIP, txTotal);
    var version := a.version;
    if version == "" {
      version := a.release;
    }
    var latest := check.LatestAvailableVersion(version, asked, a.tags, done);
    r := Reading(
      Gathered(a.devices, a.order, presence, rxByIP, txByIP), rxTotal, txTotal,
      RouterInfo(a.hostname, version, latest, UpdateAvailable(version, latest), wan, guestEnabled, 0));
  }
}
