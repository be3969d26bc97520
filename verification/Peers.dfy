/** The peer registry of `src/peer.rs`: what a listing that runs while peers come and go
    must see, and the cache that spares most listings a scan. */
module Peers {
  import opened ByteStrings
  import opened Options
  import Glob
  import opened OpenPatterns

  type Node = Key

  /** A registration key's value; a node that predates `kvIndex` reads as false. */
  datatype Raw = Registration(kvIndex: bool) | Malformed

  type Found = seq<(Node, Raw)>

  /** The registration keys alive at an instant. */
  type Registry = map<Node, Raw>

  /** The node's registration is there and lacks `kvIndex`. */
  predicate Older(at: Registry, node: Node) {
    node in at && at[node] == Registration(false)
  }

  /** `read_registrations` on the keys of `nodes`: a key gone or malformed is left out. */
  function Read(nodes: seq<Node>, at: Registry): Found {
    if nodes == [] then []
    else
      (if nodes[0] in at && at[nodes[0]].Registration? then [(nodes[0], at[nodes[0]])] else [])
      + Read(nodes[1..], at)
  }

  /** The scanned registrations a listing adds: older builds outside the sorted set. */
  function OutsideSet(ids: seq<Node>, scanned: Found): Found {
    if scanned == [] then []
    else
      (if scanned[0].1.Registration? && !scanned[0].1.kvIndex && scanned[0].0 !in ids then [scanned[0]] else [])
      + OutsideSet(ids, scanned[1..])
  }

  function Unindexed(found: Found): bool {
    exists i :: 0 <= i < |found| && found[i].1 == Registration(false)
  }

  /** Who should be listed: every registration read for a member of the sorted set, of any
      build, and an older build's scanned outside it. A current build that left the set does
      not come back from an older scan, and nothing malformed is listed. */
  predicate Listed(ids: seq<Node>, atRead: Registry, scanned: Found, node: Node, raw: Raw) {
    (node in ids && node in atRead && atRead[node] == raw && raw.Registration?) ||
    ((node, raw) in scanned && raw == Registration(false) && node !in ids)
  }

  /** `list_registrations`: `ids` is the reply of the range read, `atRead` the registry when
      their keys were read, `scanned` what the scan (fresh or cached) found. */
  method ListRegistrations(ids: seq<Node>, atRead: Registry, scanned: Found) returns (found: Found)
    ensures found == Read(ids, atRead) + OutsideSet(ids, scanned)
    ensures ListsExactly(found, ids, atRead, scanned)
  {
    found := Read(ids, atRead);
    for i := 0 to |scanned|
      invariant found + OutsideSet(ids, scanned[i..]) == Read(ids, atRead) + OutsideSet(ids, scanned)
    {
      assert scanned[i..][1..] == scanned[i + 1..];
      var (node, raw) := scanned[i];
      if raw.Registration? && !raw.kvIndex && node !in ids {
        found := found + [(node, raw)];
      }
    }
    ListingIsExact(ids, atRead, scanned);
  }

  ghost predicate ListsExactly(found: Found, ids: seq<Node>, atRead: Registry, scanned: Found) {
    forall node, raw :: (node, raw) in found <==> Listed(ids, atRead, scanned, node, raw)
  }

  lemma {:induction false} ReadExactly(nodes: seq<Node>, at: Registry, node: Node, raw: Raw)
    ensures (node, raw) in Read(nodes, at) <==>
            node in nodes && node in at && at[node] == raw && raw.Registration?
  {
    if nodes != [] {
      ReadExactly(nodes[1..], at, node, raw);
    }
  }

  lemma {:induction false} OutsideExactly(ids: seq<Node>, scanned: Found, node: Node, raw: Raw)
    ensures (node, raw) in OutsideSet(ids, scanned) <==>
            (node, raw) in scanned && raw == Registration(false) && node !in ids
  {
    if scanned != [] {
      OutsideExactly(ids, scanned[1..], node, raw);
    }
  }

  /** The listing holds them and no others. */
  lemma ListedExactly(ids: seq<Node>, atRead: Registry, scanned: Found, node: Node, raw: Raw)
    ensures (node, raw) in Read(ids, atRead) + OutsideSet(ids, scanned) <==>
            Listed(ids, atRead, scanned, node, raw)
  {
    ReadExactly(ids, atRead, node, raw);
    OutsideExactly(ids, scanned, node, raw);
  }

  lemma ListingIsExact(ids: seq<Node>, atRead: Registry, scanned: Found)
    ensures ListsExactly(Read(ids, atRead) + OutsideSet(ids, scanned), ids, atRead, scanned)
  {
    forall node, raw
      ensures (node, raw) in Read(ids, atRead) + OutsideSet(ids, scanned) <==> Listed(ids, atRead, scanned, node, raw)
    {
      ListedExactly(ids, atRead, scanned, node, raw);
    }
  }

  /** Where the members of the set are all registered, in the same order and each once. */
  lemma {:induction false} ReadKeepsOrder(nodes: seq<Node>, at: Registry)
    requires forall i :: 0 <= i < |nodes| ==> nodes[i] in at && at[nodes[i]].Registration?
    ensures |Read(nodes, at)| == |nodes|
    ensures forall i :: 0 <= i < |nodes| ==> Read(nodes, at)[i] == (nodes[i], at[nodes[i]])
  {
    if nodes != [] {
      ReadKeepsOrder(nodes[1..], at);
    }
  }

  /** A fresh listing reports an older build exactly when it read one: among the members of
      the sorted set when their keys were read, or among the scanned keys when theirs were.
      In particular an older node registered throughout is always seen, whether or not the
      sorted set still holds it from before a downgrade. */
  lemma FreshListingSees(ids: seq<Node>, atRead: Registry, scannedKeys: seq<Node>, atScan: Registry)
    ensures var found := Read(ids, atRead) + OutsideSet(ids, Read(scannedKeys, atScan));
            Unindexed(found) <==>
            exists node :: (node in ids && Older(atRead, node)) ||
                           (node !in ids && node in scannedKeys && Older(atScan, node))
    ensures (exists node :: node in scannedKeys && Older(atRead, node) && Older(atScan, node)) ==>
              Unindexed(Read(ids, atRead) + OutsideSet(ids, Read(scannedKeys, atScan)))
  {
    var a, b := Read(ids, atRead), OutsideSet(ids, Read(scannedKeys, atScan));
    forall node
      ensures (node, Registration(false)) in a + b <==>
              (node in ids && Older(atRead, node)) || (node !in ids && node in scannedKeys && Older(atScan, node))
    {
      ListedExactly(ids, atRead, Read(scannedKeys, atScan), node, Registration(false));
      ReadExactly(scannedKeys, atScan, node, Registration(false));
    }
    if Unindexed(a + b) {
      var i :| 0 <= i < |a + b| && (a + b)[i].1 == Registration(false);
      assert ((a + b)[i].0, Registration(false)) in a + b;
    }
    forall node | (node, Registration(false)) in a + b
      ensures Unindexed(a + b)
    {
      var i :| 0 <= i < |a + b| && (a + b)[i] == (node, Registration(false));
    }
  }

  // ---- The cache of the scan ----

  const LEGACY_SCAN_INTERVAL_MS: nat := 30_000

  class LegacyPeerScan {
    const maxAge: nat
    var last: Option<(nat, Found)>

    constructor (peerTtl: nat)
      ensures maxAge <= peerTtl && maxAge <= LEGACY_SCAN_INTERVAL_MS
      ensures maxAge == peerTtl || maxAge == LEGACY_SCAN_INTERVAL_MS
      ensures last == None
    {
      maxAge := if peerTtl < LEGACY_SCAN_INTERVAL_MS then peerTtl else LEGACY_SCAN_INTERVAL_MS;
      last := None;
    }

    method Forget()
      modifies this
      ensures last == None
    {
      last := None;
    }

    /** `scan` is what a scan would find now. The answer is that, or what a scan found less
        than `maxAge` ago; after `Forget` it is always that. */
    method Registrations(now: nat, scan: Found) returns (found: Found)
      modifies this
      ensures last.Some? && last.value.1 == found
      ensures old(last) == None ==> found == scan && last.value.0 == now
      ensures now < last.value.0 + maxAge || (found == scan && last.value.0 == now)
      ensures old(last).Some? && now < old(last).value.0 + maxAge ==> found == old(last).value.1 && last == old(last)
    {
      if last.Some? && now < last.value.0 + maxAge {
        return last.value.1;
      }
      last := Some((now, scan));
      return scan;
    }
  }

  // ---- The scan pattern ----

  const PEERS: Key := [112, 101, 101, 114, 115, 47]  // "peers/"

  function PeerKey(keyPrefix: Key, node: Node): Key {
    keyPrefix + PEERS + node
  }

  /** `peers_pattern`, which does not escape the prefix. */
  function PeersPattern(keyPrefix: Key): Key {
    keyPrefix + PEERS + [Glob.STAR]
  }

  /** A text without `[` or a backslash, read as a pattern, matches at least itself. */
  lemma {:induction false} PlainMatchesItself(s: Key, p: Key, t: Key)
    requires forall i :: 0 <= i < |s| ==> s[i] != Glob.OPEN && s[i] != Glob.BACKSLASH
    requires Glob.Match(p, t)
    ensures Glob.Match(s + p, s + t)
    decreases |s|
  {
    if s == [] {
      assert s + p == p && s + t == t;
    } else {
      PlainMatchesItself(s[1..], p, t);
      assert (s + p)[1..] == s[1..] + p && (s + t)[1..] == s[1..] + t;
      if s[0] == Glob.STAR {
        assert Glob.Match(s + p, (s + t)[1..]);
      }
    }
  }

  /** The exact condition, for every prefix: the scan finds all registrations if and only if
      it would find that of an empty id and the pattern is open-ended: it still has a star,
      and what follows its last star takes every character. */
  lemma FindsAllIff(keyPrefix: Key)
    ensures (forall node :: Glob.Match(PeersPattern(keyPrefix), PeerKey(keyPrefix, node))) <==>
            Glob.Match(PeersPattern(keyPrefix), PeerKey(keyPrefix, [])) && OpenEnded(PeersPattern(keyPrefix))
  {
    var p, t := PeersPattern(keyPrefix), keyPrefix + PEERS;
    MatchesExtensionsIff(p, t);
    assert t + [] == t;
    if forall node :: Glob.Match(p, PeerKey(keyPrefix, node)) {
      forall u
        ensures Glob.Match(p, t + u)
      {
        assert PeerKey(keyPrefix, u) == t + u;
      }
    }
    if forall u :: Glob.Match(p, t + u) {
      forall node
        ensures Glob.Match(p, PeerKey(keyPrefix, node))
      {
        assert PeerKey(keyPrefix, node) == t + node;
      }
    }
  }

  /** A pattern stays open-ended behind a text without `[` or a backslash. */
  lemma {:induction false} OpenEndedBehind(s: Key, p: Key)
    requires forall i :: 0 <= i < |s| ==> s[i] != Glob.OPEN && s[i] != Glob.BACKSLASH
    requires OpenEnded(p)
    ensures OpenEnded(s + p)
    decreases |s|
  {
    if s == [] {
      assert s + p == p;
    } else {
      OpenEndedBehind(s[1..], p);
      assert (s + p)[1..] == s[1..] + p;
    }
  }

  /** So it finds every registration of a deployment whose prefix holds no `[` and no
      backslash. */
  lemma PatternFindsPeers(keyPrefix: Key, node: Node)
    requires forall i :: 0 <= i < |keyPrefix| ==> keyPrefix[i] != Glob.OPEN && keyPrefix[i] != Glob.BACKSLASH
    ensures Glob.Match(PeersPattern(keyPrefix), PeerKey(keyPrefix, node))
  {
    var s := keyPrefix + PEERS;
    Glob.StarMatchesAll([]);
    PlainMatchesItself(s, [Glob.STAR], []);
    assert s + [] == PeerKey(keyPrefix, []);
    OpenEndedBehind(s, [Glob.STAR]);
    FindsAllIff(keyPrefix);
  }

  /** With a prefix such as `[a]` it finds none of them: the class does not match the
      bracket itself. */
  lemma PatternCanMissPeers(node: Node)
    ensures !Glob.Match(PeersPattern([Glob.OPEN, 97, Glob.CLOSE]), PeerKey([Glob.OPEN, 97, Glob.CLOSE], node))
  {
    var prefix: Key := [Glob.OPEN, 97, Glob.CLOSE];
    var p, t := PeersPattern(prefix), PeerKey(prefix, node);
    assert t[0] == Glob.OPEN && p[0] == Glob.OPEN;
    var body := p[1..];
    assert body[0] == 97 && body[1] == Glob.CLOSE;
    assert body[1..][0] == Glob.CLOSE;
    assert !Glob.ClassMatch(body[1..], t[0]).0;
    assert !Glob.ClassMatch(body, t[0]).0;
  }

  lemma {:induction false} ClassOf(s: Key, rest: Key, c: TextByte)
    requires forall i :: 0 <= i < |s| ==> s[i] != Glob.CLOSE && s[i] != Glob.BACKSLASH && s[i] != Glob.DASH
    ensures Glob.ClassMatch(s + [Glob.CLOSE] + rest, c) == (c in s, rest)
    decreases |s|
  {
    var p := s + [Glob.CLOSE] + rest;
    if s == [] {
      assert p[1..] == rest;
    } else {
      ClassOf(s[1..], rest, c);
      assert p[1..] == s[1..] + [Glob.CLOSE] + rest;
      assert s == [s[0]] + s[1..];
    }
  }

  /** A `[` in the prefix need not hide anything: `[peers/[]` finds every registration. */
  lemma PatternMayStillFind(node: Node)
    ensures var keyPrefix := [Glob.OPEN] + PEERS + [Glob.OPEN, Glob.CLOSE];
            Glob.Match(PeersPattern(keyPrefix), PeerKey(keyPrefix, node))
  {
    var keyPrefix := [Glob.OPEN] + PEERS + [Glob.OPEN, Glob.CLOSE];
    var p, t := PeersPattern(keyPrefix), PeerKey(keyPrefix, []);
    var rest := PEERS + [Glob.STAR];
    ClassOf(PEERS + [Glob.OPEN], rest, Glob.OPEN);
    ClassOf(PEERS + [Glob.OPEN], rest, 0);
    assert p[1..] == PEERS + [Glob.OPEN] + [Glob.CLOSE] + rest;
    assert t[1..] == PEERS + ([Glob.OPEN, Glob.CLOSE] + PEERS);
    Glob.StarMatchesAll([Glob.OPEN, Glob.CLOSE] + PEERS);
    PlainMatchesItself(PEERS, [Glob.STAR], [Glob.OPEN, Glob.CLOSE] + PEERS);
    OpenEndedBehind(PEERS, [Glob.STAR]);
    FindsAllIff(keyPrefix);
  }
}
