/** Listing through `SCAN`: pages that carry what did not fit in their cursor. */
module ScanListing {
  import opened ByteStrings
  import opened Options

  /** Where a pass stands: the server cursor of the next step, the keys left over from the
      last page, and whether the server pass is over. */
  datatype ScanCursor = ScanCursor(scan: nat, pending: seq<Key>, done: bool)

  const START: ScanCursor := ScanCursor(0, [], false)

  datatype ScanReply = ScanReply(next: nat, batch: seq<Key>)

  function Batches(replies: seq<ScanReply>): seq<Key> {
    if replies == [] then [] else replies[0].batch + Batches(replies[1..])
  }

  /** The server ends the pass with this reply and not before. */
  ghost predicate EndsAt(replies: seq<ScanReply>, n: nat) {
    n < |replies| && replies[n].next == 0 && forall i :: 0 <= i < n ==> replies[i].next != 0
  }

  datatype PageResult = PageResult(keys: seq<Key>, next: Option<ScanCursor>, used: nat, calls: seq<nat>)

  /** `scan_page` up to the fetch. `replies` is what the server would answer to any number
      of further `SCAN` calls; `calls` are the cursors it was called with. */
  method ScanPage(state: ScanCursor, limit: nat, replies: seq<ScanReply>, ghost end: nat) returns (page: PageResult)
    requires limit >= 1
    requires !state.done ==> EndsAt(replies, end)
    ensures page == PageOf(state, limit, replies)
  {
    var keys, scan, done := state.pending, state.scan, state.done;
    var used, calls := 0, [];
    ghost var all := Pull(state, limit, replies);
    assert replies[0..] == replies;
    while |keys| < limit && !done
      invariant used <= |replies| && |calls| == used
      invariant !done ==> used <= end
      invariant all == After(calls, Pull(ScanCursor(scan, keys, done), limit, replies[used..]))
      decreases |replies| - used
    {
      PullStep(calls, ScanCursor(scan, keys, done), limit, replies, used);
      calls := calls + [scan];
      var reply := replies[used];
      used := used + 1;
      keys := keys + reply.batch;
      scan := reply.next;
      done := reply.next == 0;
    }
    assert calls + [] == calls;
    assert all == Pulled(ScanCursor(scan, keys, done), calls);
    var pending := [];
    if |keys| > limit {
      keys, pending := keys[..limit], keys[limit..];
    } else {
      assert keys[..|keys|] == keys && keys[|keys|..] == [];
    }
    var next := if done && pending == [] then None else Some(ScanCursor(scan, pending, done));
    page := PageResult(keys, next, used, calls);
  }

  datatype Pulled = Pulled(cursor: ScanCursor, calls: seq<nat>)

  function After(calls: seq<nat>, p: Pulled): Pulled {
    p.(calls := calls + p.calls)
  }

  /** One call of the loop, as `Pull` makes it. */
  lemma PullStep(calls: seq<nat>, c: ScanCursor, limit: nat, replies: seq<ScanReply>, used: nat)
    requires used < |replies| && |c.pending| < limit && !c.done
    ensures var r := replies[used];
            After(calls, Pull(c, limit, replies[used..])) ==
            After(calls + [c.scan],
                  Pull(ScanCursor(r.next, c.pending + r.batch, r.next == 0), limit, replies[used + 1..]))
  {
    assert replies[used..][1..] == replies[used + 1..];
    var rest := Pull(ScanCursor(replies[used].next, c.pending + replies[used].batch, replies[used].next == 0), limit,
                     replies[used + 1..]);
    assert calls + ([c.scan] + rest.calls) == calls + [c.scan] + rest.calls;
  }

  /** Call `SCAN` until the keys at hand fill the page or the server pass is over. */
  function Pull(c: ScanCursor, limit: nat, replies: seq<ScanReply>): (p: Pulled)
    ensures |p.calls| <= |replies|
    decreases |replies|
  {
    if |c.pending| >= limit || c.done || replies == [] then Pulled(c, [])
    else
      var r := replies[0];
      var rest := Pull(ScanCursor(r.next, c.pending + r.batch, r.next == 0), limit, replies[1..]);
      Pulled(rest.cursor, [c.scan] + rest.calls)
  }

  /** Hand out `limit` of the keys at hand and carry the rest. */
  function PageOf(c: ScanCursor, limit: nat, replies: seq<ScanReply>): PageResult {
    var p := Pull(c, limit, replies);
    var keys := p.cursor.pending;
    var cut := if |keys| > limit then limit else |keys|;
    PageResult(keys[..cut],
               if p.cursor.done && keys[cut..] == [] then None else Some(p.cursor.(pending := keys[cut..])),
               |p.calls|, p.calls)
  }

  lemma {:induction false} BatchesAppend(a: seq<ScanReply>, b: seq<ScanReply>)
    ensures Batches(a + b) == Batches(a) + Batches(b)
    decreases |a|
  {
    if a == [] {
      assert a + b == b;
    } else {
      assert (a + b)[1..] == a[1..] + b;
      BatchesAppend(a[1..], b);
    }
  }

  /** The cursors a pass must call the server with: its own, then each reply's, stopping
      after the reply that ends the server pass. */
  ghost predicate Chained(scan: nat, calls: seq<nat>, replies: seq<ScanReply>) {
    && |calls| <= |replies|
    && (calls != [] ==> calls[0] == scan)
    && (forall i :: 0 < i < |calls| ==> calls[i] == replies[i - 1].next && replies[i - 1].next != 0)
  }

  lemma {:induction false} PullConserves(c: ScanCursor, limit: nat, replies: seq<ScanReply>, end: nat)
    requires !c.done ==> EndsAt(replies, end)
    ensures var p := Pull(c, limit, replies); var used := |p.calls|;
            && used <= |replies|
            && (c.done ==> used == 0)
            && (!c.done ==> used <= end + 1)
            && p.cursor.pending == c.pending + Batches(replies[..used])
            && (p.cursor.done <==> c.done || used == end + 1)
            && p.cursor.scan == (if used == 0 then c.scan else replies[used - 1].next)
            && (p.cursor.done || |p.cursor.pending| >= limit)
            && Chained(c.scan, p.calls, replies)
    decreases |replies|
  {
    if !(|c.pending| >= limit || c.done || replies == []) {
      var r := replies[0];
      var c' := ScanCursor(r.next, c.pending + r.batch, r.next == 0);
      if r.next != 0 {
        assert EndsAt(replies[1..], end - 1);
      }
      PullConserves(c', limit, replies[1..], if end == 0 then 0 else end - 1);
      var rest := Pull(c', limit, replies[1..]);
      var p := Pull(c, limit, replies);
      var used := |p.calls|;
      assert p.calls == [c.scan] + rest.calls;
      assert used == 1 + |rest.calls|;
      assert replies[..used] == [r] + replies[1..][..used - 1];
      assert Batches(replies[..used]) == r.batch + Batches(replies[1..][..used - 1]);
      forall i | 0 < i < used
        ensures p.calls[i] == replies[i - 1].next && replies[i - 1].next != 0
      {
        assert p.calls[i] == rest.calls[i - 1];
        if i > 1 {
          assert replies[1..][i - 2] == replies[i - 1];
        }
      }
    }
  }

  /** Before its last call it did not yet have keys enough for a page. */
  lemma {:induction false} PullIsFrugal(c: ScanCursor, limit: nat, replies: seq<ScanReply>)
    ensures var used := |Pull(c, limit, replies).calls|;
            used > 0 ==> used <= |replies| && |c.pending| + |Batches(replies[..used - 1])| < limit
    decreases |replies|
  {
    if !(|c.pending| >= limit || c.done || replies == []) {
      var r := replies[0];
      var c' := ScanCursor(r.next, c.pending + r.batch, r.next == 0);
      PullIsFrugal(c', limit, replies[1..]);
      var rest := |Pull(c', limit, replies[1..]).calls|;
      if rest > 0 {
        assert replies[..rest] == [r] + replies[1..][..rest - 1];
      } else {
        assert replies[..rest] == [];
      }
    }
  }

  /** One page: no key lost or made up, the carried ones next; a page that is not the last
      is full; the server is not called while there are keys enough for a page, nor after
      the end of its pass. */
  lemma PageConserves(c: ScanCursor, limit: nat, replies: seq<ScanReply>, end: nat)
    requires limit >= 1
    requires !c.done ==> EndsAt(replies, end)
    ensures var page := PageOf(c, limit, replies);
            && page.used <= |replies| && |page.keys| <= limit
            && page.keys + (if page.next.Some? then page.next.value.pending else []) ==
                c.pending + Batches(replies[..page.used])
            && (page.next.Some? ==> |page.keys| == limit)
            && (page.used > 0 ==> |c.pending| + |Batches(replies[..page.used - 1])| < limit)
            && (page.next.None? ==> c.done || page.used == end + 1)
            && (c.done ==> page.used == 0)
            && (page.next.Some? ==> (page.next.value.done <==> c.done || page.used == end + 1))
            && (page.next.Some? && !page.next.value.done ==>
                  page.used <= end && page.next.value.scan ==
                      (if page.used == 0 then c.scan else replies[page.used - 1].next))
            && Chained(c.scan, page.calls, replies) && |page.calls| == page.used
  {
    PullConserves(c, limit, replies, end);
    PullIsFrugal(c, limit, replies);
    var keys := Pull(c, limit, replies).cursor.pending;
    var cut := if |keys| > limit then limit else |keys|;
    assert keys == keys[..cut] + keys[cut..];
  }

  /** A pass of pages with the given limits, until a page has no cursor. */
  datatype Pass = Pass(keys: seq<Key>, used: nat, calls: seq<nat>, finished: bool)

  function PassOf(c: ScanCursor, limits: seq<nat>, replies: seq<ScanReply>): Pass
    decreases |limits|
  {
    if limits == [] then Pass([], 0, [], false)
    else
      var page := PageOf(c, limits[0], replies);
      if page.next.None? then Pass(page.keys, page.used, page.calls, true)
      else
        var rest := PassOf(page.next.value, limits[1..], replies[page.used..]);
        Pass(page.keys + rest.keys, page.used + rest.used, page.calls + rest.calls, rest.finished)
  }

  /** Where the pass stands after a page: the rest of the replies still end where they did. */
  lemma AfterPage(c: ScanCursor, limit: nat, replies: seq<ScanReply>, end: nat)
    requires limit >= 1 && (!c.done ==> EndsAt(replies, end))
    requires PageOf(c, limit, replies).next.Some?
    ensures var page := PageOf(c, limit, replies);
            && page.used <= |replies|
            && (!page.next.value.done ==> !c.done && page.used <= end && EndsAt(replies[page.used..], end - page.used))
            && (page.next.value.done && !c.done ==> page.used == end + 1)
  {
    PageConserves(c, limit, replies, end);
    var page := PageOf(c, limit, replies);
    if !page.next.value.done {
      var rest := replies[page.used..];
      assert rest[end - page.used] == replies[end];
      assert forall i :: 0 <= i < end - page.used ==> rest[i] == replies[page.used + i];
    }
  }

  /** What `PageConserves` says of the server calls, on its own so that inductions stay cheap. */
  lemma PageCalls(c: ScanCursor, limit: nat, replies: seq<ScanReply>, end: nat)
    requires limit >= 1 && (!c.done ==> EndsAt(replies, end))
    ensures var page := PageOf(c, limit, replies);
            && page.used == |page.calls| <= |replies|
            && (c.done ==> page.used == 0)
            && (!c.done ==> page.used <= end + 1)
            && (page.next.None? && !c.done ==> page.used == end + 1)
            && (page.next.Some? && !page.next.value.done ==>
                  page.next.value.scan == if page.used == 0 then c.scan else replies[page.used - 1].next)
            && Chained(c.scan, page.calls, replies)
  {
    PageConserves(c, limit, replies, end);
    PullConserves(c, limit, replies, end);
  }

  /** How many replies a pass takes. */
  lemma {:induction false} PassUsed(c: ScanCursor, limits: seq<nat>, replies: seq<ScanReply>, end: nat)
    requires forall i :: 0 <= i < |limits| ==> limits[i] >= 1
    requires !c.done ==> EndsAt(replies, end)
    ensures var pass := PassOf(c, limits, replies);
            && |pass.calls| == pass.used <= |replies|
            && (c.done ==> pass.used == 0)
            && (!c.done ==> pass.used <= end + 1)
            && (!c.done && pass.finished ==> pass.used == end + 1)
    decreases |limits|
  {
    if limits != [] {
      var page := PageOf(c, limits[0], replies);
      PageCalls(c, limits[0], replies, end);
      if page.next.Some? {
        AfterPage(c, limits[0], replies, end);
        var c', rest := page.next.value, replies[page.used..];
        PassUsed(c', limits[1..], rest, if c'.done then 0 else end - page.used);
      }
    }
  }

  /** The calls of the rest of a pass chain up with those of its first page. */
  lemma PageJoins(c: ScanCursor, limit: nat, replies: seq<ScanReply>, end: nat, more: seq<nat>)
    requires limit >= 1 && (!c.done ==> EndsAt(replies, end))
    requires var page := PageOf(c, limit, replies);
             && page.next.Some? && page.used <= |replies|
             && (page.next.value.done ==> more == [])
             && Chained(page.next.value.scan, more, replies[page.used..])
    ensures Chained(c.scan, PageOf(c, limit, replies).calls + more, replies)
  {
    PageCalls(c, limit, replies, end);
    AfterPage(c, limit, replies, end);
    var page := PageOf(c, limit, replies);
    ChainJoins(c.scan, page.calls, more, replies, page.next.value.scan);
  }

  /** Each call of a pass takes the cursor of the reply before it. */
  lemma {:induction false} PassChains(c: ScanCursor, limits: seq<nat>, replies: seq<ScanReply>, end: nat)
    requires forall i :: 0 <= i < |limits| ==> limits[i] >= 1
    requires !c.done ==> EndsAt(replies, end)
    ensures Chained(c.scan, PassOf(c, limits, replies).calls, replies)
    decreases |limits|
  {
    if limits != [] {
      var page := PageOf(c, limits[0], replies);
      PageCalls(c, limits[0], replies, end);
      if page.next.Some? {
        AfterPage(c, limits[0], replies, end);
        var c', rest := page.next.value, replies[page.used..];
        var end' := if c'.done then 0 else end - page.used;
        PassUsed(c', limits[1..], rest, end');
        PassChains(c', limits[1..], rest, end');
        PageJoins(c, limits[0], replies, end, PassOf(c', limits[1..], rest).calls);
      }
    }
  }

  function Carried(page: PageResult): seq<Key> {
    if page.next.Some? then page.next.value.pending else []
  }

  /** What it says of the keys, likewise. */
  lemma PageKeys(c: ScanCursor, limit: nat, replies: seq<ScanReply>, end: nat)
    requires limit >= 1 && (!c.done ==> EndsAt(replies, end))
    ensures var page := PageOf(c, limit, replies);
            && page.used <= |replies|
            && page.keys + Carried(page) == c.pending + Batches(replies[..page.used])
            && (page.next.Some? ==> |page.keys| == limit)
  {
    PageConserves(c, limit, replies, end);
  }

  /** The pass handed out a prefix of what was at hand and read, all of it if it finished,
      and at least a key per page if not. */
  ghost predicate HandsOut(pass: Pass, pending: seq<Key>, read: seq<Key>, pages: nat) {
    if pass.finished then pass.keys == pending + read else pass.keys <= pending + read && pages <= |pass.keys|
  }

  lemma PagesAdd(page: PageResult, tail: Pass, whole: Pass, pending: seq<Key>, replies: seq<ScanReply>, pages: nat)
    requires page.used + tail.used <= |replies|
    requires page.keys + Carried(page) == pending + Batches(replies[..page.used]) && |page.keys| >= 1
    requires HandsOut(tail, Carried(page), Batches(replies[page.used..][..tail.used]), pages)
    requires whole.keys == page.keys + tail.keys && whole.finished == tail.finished
    ensures HandsOut(whole, pending, Batches(replies[..page.used + tail.used]), pages + 1)
  {
    BatchesSplit(replies, page.used, tail.used);
    var read, more := Batches(replies[..page.used]), Batches(replies[page.used..][..tail.used]);
    assert pending + (read + more) == (pending + read) + more;
    assert (pending + read) + more == page.keys + (Carried(page) + more);
  }

  /** The keys a pass hands out. */
  lemma {:induction false} PassKeys(c: ScanCursor, limits: seq<nat>, replies: seq<ScanReply>, end: nat)
    requires forall i :: 0 <= i < |limits| ==> limits[i] >= 1
    requires !c.done ==> EndsAt(replies, end)
    ensures var pass := PassOf(c, limits, replies);
            pass.used <= |replies| && HandsOut(pass, c.pending, Batches(replies[..pass.used]), |limits|)
    decreases |limits|
  {
    if limits != [] {
      var whole, page := PassOf(c, limits, replies), PageOf(c, limits[0], replies);
      PageKeys(c, limits[0], replies, end);
      if page.next.None? {
        assert page.keys + [] == page.keys;
      } else {
        AfterPage(c, limits[0], replies, end);
        var c', rest := page.next.value, replies[page.used..];
        PassKeys(c', limits[1..], rest, if c'.done then 0 else end - page.used);
        PagesAdd(page, PassOf(c', limits[1..], rest), whole, c.pending, replies, |limits| - 1);
      }
    }
  }

  lemma BatchesSplit(replies: seq<ScanReply>, m: nat, n: nat)
    requires m + n <= |replies|
    ensures Batches(replies[..m + n]) == Batches(replies[..m]) + Batches(replies[m..][..n])
  {
    assert replies[..m + n] == replies[..m] + replies[m..][..n];
    BatchesAppend(replies[..m], replies[m..][..n]);
  }

  lemma ChainJoins(scan: nat, a: seq<nat>, b: seq<nat>, replies: seq<ScanReply>, mid: nat)
    requires Chained(scan, a, replies) && Chained(mid, b, replies[|a|..])
    requires b != [] ==> mid == (if a == [] then scan else replies[|a| - 1].next)
    requires b != [] && a != [] ==> replies[|a| - 1].next != 0
    ensures Chained(scan, a + b, replies)
  {
    forall i | 0 < i < |a + b|
      ensures (a + b)[i] == replies[i - 1].next && replies[i - 1].next != 0
    {
      if i > |a| {
        assert replies[|a|..][i - |a| - 1] == replies[i - 1];
      }
    }
  }

  /** Scan-page conservation: whatever the server's batches and the page limits, a finished
      pass hands out exactly the batches of one server pass, in order, and calls the server
      once per reply with the cursor of the reply before it, never again after the end. */
  lemma ScanPassConserves(limits: seq<nat>, replies: seq<ScanReply>, end: nat)
    requires forall i :: 0 <= i < |limits| ==> limits[i] >= 1
    requires EndsAt(replies, end)
    ensures var pass := PassOf(START, limits, replies);
            && (pass.finished ==> pass.keys == Batches(replies[..end + 1]) && pass.used == end + 1)
            && Chained(0, pass.calls, replies)
  {
    PassUsed(START, limits, replies, end);
    PassChains(START, limits, replies, end);
    PassKeys(START, limits, replies, end);
    assert forall keys: seq<Key> :: [] + keys == keys;
  }

  /** And it does finish: a page per key and one more are enough. */
  lemma ScanPassFinishes(limits: seq<nat>, replies: seq<ScanReply>, end: nat)
    requires forall i :: 0 <= i < |limits| ==> limits[i] >= 1
    requires EndsAt(replies, end) && |limits| > |Batches(replies[..end + 1])|
    ensures PassOf(START, limits, replies).finished
  {
    PassUsed(START, limits, replies, end);
    PassKeys(START, limits, replies, end);
    assert forall keys: seq<Key> :: [] + keys == keys;
    var used := PassOf(START, limits, replies).used;
    BatchesSplit(replies, used, end + 1 - used);
  }
}
