/** `watch_peers`: the diff of successive peer lists, replayed. */
module WatchPeers {
  import opened ByteStrings
  import opened Options

  type Node = Key

  datatype Peer = Peer(node: Node, address: Key)

  datatype Event = Joined(peer: Peer) | Left(node: Node)

  function NodeOf(e: Event): Node {
    match e case Joined(p) => p.node case Left(n) => n
  }

  /** The peers with a node id, by id; a repeated id keeps its last entry. */
  function Snapshot(peers: seq<Peer>): map<Node, Peer> {
    if peers == [] then map[]
    else
      var p := peers[|peers| - 1];
      var rest := Snapshot(peers[..|peers| - 1]);
      if p.node == [] then rest else rest[p.node := p]
  }

  /** Who is present after the events, or `None` when one makes no sense: a node joining
      that is there, or leaving that is not. */
  function Replay(present: set<Node>, events: seq<Event>): Option<set<Node>> {
    if events == [] then Some(present)
    else
      var before := Replay(present, events[..|events| - 1]);
      var e := events[|events| - 1];
      if before.None? then None
      else match e
        case Joined(p) => if p.node in before.value then None else Some(before.value + {p.node})
        case Left(n) => if n in before.value then Some(before.value - {n}) else None
  }

  lemma ReplaySnoc(present: set<Node>, events: seq<Event>, e: Event)
    ensures Replay(present, events + [e]) ==
            match Replay(present, events)
            case None => None
            case Some(s) =>
              (match e
               case Joined(p) => if p.node in s then None else Some(s + {p.node})
               case Left(n) => if n in s then Some(s - {n}) else None)
  {
    assert (events + [e])[..|events|] == events;
  }

  lemma {:induction false} SnapshotNames(peers: seq<Peer>)
    ensures forall n :: n in Snapshot(peers) ==> n != [] && Snapshot(peers)[n].node == n && Snapshot(peers)[n] in peers
    ensures forall p :: p in peers && p.node != [] ==> p.node in Snapshot(peers)
  {
    if peers != [] {
      var init, last := peers[..|peers| - 1], peers[|peers| - 1];
      SnapshotNames(init);
      assert peers == init + [last];
    }
  }

  /** Of several entries with one id the snapshot has the last. */
  lemma {:induction false} SnapshotKeepsLast(peers: seq<Peer>, i: nat)
    requires i < |peers| && peers[i].node != [] && forall j :: i < j < |peers| ==> peers[j].node != peers[i].node
    ensures peers[i].node in Snapshot(peers) && Snapshot(peers)[peers[i].node] == peers[i]
  {
    if i < |peers| - 1 {
      SnapshotKeepsLast(peers[..|peers| - 1], i);
    }
  }

  /** The event tells of this change: a peer that came, as the new snapshot has it, or a
      node that went. */
  predicate Tells(last: map<Node, Peer>, cur: map<Node, Peer>, e: Event) {
    match e
    case Joined(p) => p.node !in last && p.node in cur && cur[p.node] == p
    case Left(n) => n in last && n !in cur
  }

  /** The peer is some poll's, as its snapshot has it. */
  ghost predicate FromPoll(polls: seq<Option<seq<Peer>>>, p: Peer) {
    exists i :: 0 <= i < |polls| && polls[i].Some? &&
                p.node in Snapshot(polls[i].value) && Snapshot(polls[i].value)[p.node] == p
  }

  /** The non-empty node ids of the last successful poll. */
  function LastSeen(polls: seq<Option<seq<Peer>>>): set<Node> {
    if polls == [] then {}
    else match polls[|polls| - 1]
      case Some(peers) => Snapshot(peers).Keys
      case None => LastSeen(polls[..|polls| - 1])
  }

  class Watcher {
    var last: map<Node, Peer>
    var sent: seq<Event>  // everything the receiver got

    constructor ()
      ensures last == map[] && sent == []
    {
      last, sent := map[], [];
    }

    /** What was sent so far tells the receiver exactly who is in `last`. */
    ghost predicate Valid()
      reads this
    {
      Replay({}, sent) == Some(last.Keys)
    }

    /** One successful poll: tell who joined, then who left. */
    method Diff(peers: seq<Peer>)
      requires Valid()
      modifies this
      ensures Valid() && last == Snapshot(peers)
      ensures old(sent) <= sent
      ensures forall i :: |old(sent)| <= i < |sent| ==> Tells(old(last), last, sent[i])
    {
      var cur := Snapshot(peers);
      SnapshotNames(peers);
      var todo := cur.Keys - last.Keys;
      assert last.Keys + (cur.Keys - last.Keys - todo) == last.Keys;
      while todo != {}
        invariant todo <= cur.Keys - last.Keys
        invariant Replay({}, sent) == Some(last.Keys + (cur.Keys - last.Keys - todo))
        invariant old(sent) <= sent && last == old(last)
        invariant forall i :: |old(sent)| <= i < |sent| ==> Tells(last, cur, sent[i])
      {
        var n :| n in todo;
        ReplaySnoc({}, sent, Joined(cur[n]));
        sent := sent + [Joined(cur[n])];
        assert last.Keys + (cur.Keys - last.Keys - todo) + {n} == last.Keys + (cur.Keys - last.Keys - (todo - {n}));
        todo := todo - {n};
      }
      todo := last.Keys - cur.Keys;
      assert last.Keys + (cur.Keys - last.Keys - {}) == cur.Keys + todo;
      while todo != {}
        invariant todo <= last.Keys - cur.Keys
        invariant Replay({}, sent) == Some(cur.Keys + todo)
        invariant old(sent) <= sent && last == old(last)
        invariant forall i :: |old(sent)| <= i < |sent| ==> Tells(last, cur, sent[i])
      {
        var n :| n in todo;
        ReplaySnoc({}, sent, Left(n));
        sent := sent + [Left(n)];
        assert cur.Keys + todo - {n} == cur.Keys + (todo - {n});
        todo := todo - {n};
      }
      assert cur.Keys + {} == cur.Keys;
      last := cur;
    }
  }

  /** Peer-event replay: for every sequence of successful and failed polls, replaying what
      was sent from nobody gives exactly the non-empty ids of the last successful poll; each
      peer is sent as a poll had it. */
  method Watch(polls: seq<Option<seq<Peer>>>) returns (sent: seq<Event>)
    ensures Replay({}, sent) == Some(LastSeen(polls))
    ensures forall i :: 0 <= i < |sent| && sent[i].Joined? ==> FromPoll(polls, sent[i].peer)
  {
    var w := new Watcher();
    assert w.last.Keys == {};
    for i := 0 to |polls|
      invariant w.Valid() && w.last.Keys == LastSeen(polls[..i])
      invariant forall j :: 0 <= j < |w.sent| && w.sent[j].Joined? ==> FromPoll(polls, w.sent[j].peer)
    {
      assert polls[..i + 1][..i] == polls[..i];
      if polls[i].Some? {
        w.Diff(polls[i].value);
      }
    }
    assert polls[..|polls|] == polls;
    sent := w.sent;
  }

  /** The kinds of one node's events, in order. */
  function Kinds(events: seq<Event>, node: Node): seq<bool> {
    if events == [] then []
    else
      var e := events[|events| - 1];
      Kinds(events[..|events| - 1], node) + if NodeOf(e) == node then [e.Joined?] else []
  }

  /** Events that replay alternate for every node, starting with Joined; the node is present
      exactly after an odd number of them. */
  lemma {:induction false} EventsAlternate(events: seq<Event>, node: Node)
    requires Replay({}, events).Some?
    ensures forall i :: 0 <= i < |Kinds(events, node)| ==> (Kinds(events, node)[i] <==> i % 2 == 0)
    ensures node in Replay({}, events).value <==> |Kinds(events, node)| % 2 == 1
  {
    if events != [] {
      EventsAlternate(events[..|events| - 1], node);
    }
  }
}
