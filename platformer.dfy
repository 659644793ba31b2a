/** A platformer node's peer table and its health-tracking step, `Node.check_peer`. */
module Platformer {
  import opened Wrappers
  import opened Models
  import opened Health

  /** The record `check_peer` starts from: the stored one, or a fresh inactive record
      with health 0.0 when the url is unknown. */
  function GetOrCreate(store: map<string, Peer>, url: string): (p: Peer)
    ensures url in store ==> p == store[url]
    ensures url !in store ==> p == Peer(url, false, 0.0, ModuleLoadTime)
    ensures ValidStore(store) ==> p.url == url && ValidPeer(p)
  {
    if url in store then store[url] else Peer(url, false, 0.0, ModuleLoadTime)
  }

  /** The peer table after one check of `url` whose probe answered (`probeOk`: with status
      200) at `now`. Defined on valid tables only: on any other the validated assignment
      of the averaged health could raise. */
  function CheckedTable(store: map<string, Peer>, url: string, probeOk: bool, now: Timestamp): (r: map<string, Peer>)
    requires ValidStore(store)
    ensures r.Keys == store.Keys + {url}
    ensures |r| == if url in store then |store| else |store| + 1
    ensures forall u :: u in store && u != url ==> r[u] == store[u]
    ensures r[url].url == GetOrCreate(store, url).url
    ensures r[url].active == probeOk && r[url].lastChecked == now
    ensures r[url].health == Ema(GetOrCreate(store, url).health, probeOk)
    ensures url in store ==> r[url].health == Ema(store[url].health, probeOk)
    ensures url !in store ==> r[url] == Peer(url, probeOk, if probeOk then 0.5 else 0.0, now)
    ensures ValidStore(r)
  {
    var prior := GetOrCreate(store, url);
    var checked := prior.(active := probeOk, health := Ema(prior.health, probeOk), lastChecked := now);
    assert ValidPeer(checked) && checked.url == url;
    store[url := checked]
  }

  /** One probe that got a reply: the url checked, whether the status was 200, and when
      it was taken. A probe that raises changes nothing (see Node.CheckPeer). */
  datatype Probe = Probe(url: string, ok: bool, at: Timestamp)

  function Urls(probes: seq<Probe>): (us: set<string>)
    ensures forall i :: 0 <= i < |probes| ==> probes[i].url in us
    ensures forall u :: u in us ==> exists i :: 0 <= i < |probes| && probes[i].url == u
  {
    if probes == [] then {} else {probes[0].url} + Urls(probes[1..])
  }

  /** The peer table after a sequence of checks, oldest first. Whatever the order and
      outcomes, the invariant is kept and exactly the probed urls are added, once each. */
  function Replay(store: map<string, Peer>, probes: seq<Probe>): (r: map<string, Peer>)
    requires ValidStore(store)
    ensures ValidStore(r)
    ensures r.Keys == store.Keys + Urls(probes)
    decreases |probes|
  {
    if probes == [] then store
    else Replay(CheckedTable(store, probes[0].url, probes[0].ok, probes[0].at), probes[1..])
  }

  function Outcomes(probes: seq<Probe>): (os: seq<bool>)
    ensures |os| == |probes| && forall i :: 0 <= i < |probes| ==> os[i] == probes[i].ok
  {
    if probes == [] then [] else [probes[0].ok] + Outcomes(probes[1..])
  }

  /** Checking one url repeatedly folds the average over its outcomes, starting from the
      stored health (0.0 for an unknown url); the record reflects the last probe. */
  lemma {:induction false} ReplayOneUrl(store: map<string, Peer>, url: string, probes: seq<Probe>)
    requires ValidStore(store) && probes != []
    requires forall i :: 0 <= i < |probes| ==> probes[i].url == url
    ensures url in Replay(store, probes)
    ensures Replay(store, probes)[url].health == HealthAfter(GetOrCreate(store, url).health, Outcomes(probes))
    ensures Replay(store, probes)[url].active == probes[|probes| - 1].ok
    ensures Replay(store, probes)[url].lastChecked == probes[|probes| - 1].at
    decreases |probes|
  {
    var p := probes[0];
    var next := CheckedTable(store, url, p.ok, p.at);
    var os := Outcomes(probes);
    assert os[0] == p.ok && os[1..] == Outcomes(probes[1..]);
    if |probes| == 1 {
      assert Replay(store, probes) == Replay(next, []) == next;
      assert os[1..] == [];
    } else {
      ReplayOneUrl(next, url, probes[1..]);
      assert GetOrCreate(next, url).health == Ema(GetOrCreate(store, url).health, p.ok);
    }
  }

  /** The two-check scenario on a previously unknown, reachable url: one record is added,
      and its health is 0.5 after the first check and 0.75 after the second. */
  lemma TwoChecksOfNewUrl(store: map<string, Peer>, url: string, t1: Timestamp, t2: Timestamp)
    requires ValidStore(store) && url !in store
    ensures var once := CheckedTable(store, url, true, t1);
            var twice := CheckedTable(once, url, true, t2);
            |once| == |store| + 1 && |twice| == |once|
            && once[url].health == 0.5 && twice[url].health == 0.75
            && twice[url].active && twice[url].lastChecked == t2
  {
  }

  /** As written, `check_peer` can never complete: the validator assigns `None` to `health`,
      so a fresh record's health is `None` when the average is computed, and a stored
      record's new health is `None` when it is committed to a non-nullable column.
      `probe` is `None` when the HEAD request raises, which happens before either. */
  function CheckPeerAsWritten(store: map<string, Peer>, url: string, probe: Option<bool>): (r: Result<bool, Error>)
    ensures ValidStore(store) ==> r.Err?
    ensures probe.None? ==> r == Err(ProbeRaised)
    ensures ValidStore(store) && probe.Some? && url !in store ==> r == Err(NoneOperand)
    ensures ValidStore(store) && probe.Some? && url in store ==> r == Err(NotNullViolation("health"))
  {
    var loaded: Result<Option<real>, Error> :=
      if url in store then Ok(Some(store[url].health)) else ValidateHealthAsWritten(0.0);
    match loaded
    case Err(e) => Err(e)
    case Ok(attr) =>
      if probe.None? then Err(ProbeRaised)
      else if attr.None? then Err(NoneOperand)
      else
      var active := probe.value;
      match ValidateHealthAsWritten(Ema(attr.value, active))
      case Err(e) => Err(e)
      case Ok(stored) => if stored.None? then Err(NotNullViolation("health")) else Ok(active)
  }

  /** A node's view of its peers: the `Peer` table, keyed by url. */
  class Node {
    var peers: map<string, Peer>

    ghost predicate Valid()
      reads this
    {
      ValidStore(peers)
    }

    /** A node over an already persisted table. */
    constructor (initial: map<string, Peer>)
      requires ValidStore(initial)
      ensures Valid() && peers == initial
    {
      peers := initial;
    }

    /** Probe `url` and, when the probe gets a reply (`probe == Some(status was 200)`),
        fold the outcome into its health, stamp it `now` and write the record back under
        its url; returns the new `active`. When the probe raises (`probe == None`) the
        error propagates and no record is created or changed. This is the corrected
        program, in which the health validator hands back the value it checked; as
        written every check fails (see CheckPeerAsWritten). */
    method CheckPeer(url: string, probe: Option<bool>, now: Timestamp) returns (r: Result<bool, Error>)
      requires Valid()
      modifies this
      ensures Valid()
      ensures probe.None? ==> r == Err(ProbeRaised) && peers == old(peers)
      ensures probe.Some? ==> peers == CheckedTable(old(peers), url, probe.value, now)
      ensures probe.Some? ==> r == Ok(probe.value) && r.value == peers[url].active
    {
      var peer: Peer;
      if url in peers {
        peer := peers[url];
      } else {
        var created := NewPeer(url, false, 0.0, ModuleLoadTime);
        peer := created.value;
      }
      if probe.None? {
        return Err(ProbeRaised);
      }
      peer := peer.(active := probe.value);
      var validated := SetHealth(peer, Ema(peer.health, peer.active));
      // The validator's assertion cannot fail: the average of two values in [0, 1] is in [0, 1].
      peer := validated.value;
      peer := peer.(lastChecked := now);
      peers := peers[url := peer];
      r := Ok(peer.active);
    }
  }

  /** Two checks of the same url, not yet known, both answered with status 200: the table
      grows by that one record, updated in place by the second check, and every other
      record keeps its value. */
  method CheckTwice(node: Node, url: string, t1: Timestamp, t2: Timestamp)
    requires node.Valid() && url !in node.peers
    modifies node
    ensures node.Valid()
    ensures node.peers.Keys == old(node.peers.Keys) + {url}
    ensures forall u :: u in old(node.peers) ==> node.peers[u] == old(node.peers)[u]
    ensures node.peers[url] == Peer(url, true, 0.75, t2)
  {
    var first := node.CheckPeer(url, Some(true), t1);
    assert node.peers[url].health == 0.5;
    var second := node.CheckPeer(url, Some(true), t2);
  }
}
