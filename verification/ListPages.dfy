/** `list_page`: which way a page reads is told by its cursor, so that a pass, served by any
    replicas with any ready flags, keeps the way of its first page. */
module ListPages {
  import opened ByteStrings
  import opened Options
  import opened Store
  import opened IndexListing
  import opened ScanListing

  /** The JSON form of a scan cursor, taken as a pair of functions. */
  datatype Codec = Codec(enc: ScanCursor -> Key, dec: Key -> Option<ScanCursor>)
  {
    ghost predicate Faithful() {
      && (forall c :: dec(enc(c)) == Some(c))
      && (forall c :: enc(c) != [] && enc(c)[0] == BRACE)
    }
  }

  const BRACE: TextByte := 123
  const LETTER_I: TextByte := 105
  const LETTER_S: TextByte := 115

  datatype Way = ByIndex(after: Option<Key>) | ByScan(from: ScanCursor) | NotACursor

  /** The dispatch of `list_page`. */
  function WayOf(codec: Codec, cursor: Option<Key>, indexReady: bool): Way {
    match cursor
    case None => if indexReady then ByIndex(None) else ByScan(START)
    case Some(c) =>
      if c != [] && c[0] == LETTER_I then ByIndex(Some(c[1..]))
      else
        var state := codec.dec(if c != [] && c[0] == LETTER_S then c[1..] else c);
        if state.None? then NotACursor else ByScan(state.value)
  }

  function IndexCursor(last: Key): Key {
    [LETTER_I] + last
  }

  function ScanCursorText(codec: Codec, c: ScanCursor): Key {
    [LETTER_S] + codec.enc(c)
  }

  /** The cursor texts `list_page` gives out, read back whatever the ready flag says; the ones
      older builds gave out resume as scans. */
  lemma CursorsReadBack(codec: Codec, last: Key, c: ScanCursor, indexReady: bool)
    requires codec.Faithful()
    ensures WayOf(codec, Some(IndexCursor(last)), indexReady) == ByIndex(Some(last))
    ensures WayOf(codec, Some(ScanCursorText(codec, c)), indexReady) == ByScan(c)
    ensures WayOf(codec, Some(codec.enc(c)), indexReady) == ByScan(c)
  {
    assert IndexCursor(last)[1..] == last;
    assert ScanCursorText(codec, c)[1..] == codec.enc(c);
  }

  /** A text is rejected exactly when it is no index cursor and what is left of it, without
      the letter of a scan cursor, does not decode. */
  lemma RejectedExactly(codec: Codec, cursor: Option<Key>, indexReady: bool)
    ensures WayOf(codec, cursor, indexReady).NotACursor? <==>
            cursor.Some? && !([LETTER_I] <= cursor.value) &&
            (if [LETTER_S] <= cursor.value then codec.dec(cursor.value[1..]) else codec.dec(cursor.value)).None?
    ensures cursor == Some([]) && codec.dec([]).None? ==> WayOf(codec, cursor, indexReady).NotACursor?
    ensures cursor.None? ==> WayOf(codec, cursor, indexReady) == if indexReady then ByIndex(None) else ByScan(START)
  {
  }

  // ---- A whole pass ----

  /** One call: the ready flag of the replica that serves it, the limit it was given, and
      what the server would answer an index page. */
  datatype Call = Call(ready: bool, limit: nat, range: IndexPage)
  {
    function Limit(): nat {
      if limit < 1 then 1 else limit
    }
  }

  /** The page up to the fetch: its keys, its cursor text, and the `SCAN` replies it took. */
  datatype Page = Page(keys: seq<Key>, next: Option<Key>, used: nat) | Rejected

  function TextOf(codec: Codec, way: Way, call: Call, replies: seq<ScanReply>): Page
    requires call.range.limit >= 1
  {
    match way
    case ByIndex(_) =>
      var next := call.range.Next();
      Page(call.range.Keys(), if next.None? then None else Some(IndexCursor(next.value)), 0)
    case ByScan(from) =>
      var page := PageOf(from, call.Limit(), replies);
      Page(page.keys, if page.next.None? then None else Some(ScanCursorText(codec, page.next.value)), page.used)
    case NotACursor => Rejected
  }

  /** The index pages read what `ZRANGEBYLEX` answers at some instant of the timeline. */
  ghost predicate ReadsIndex(states: seq<Db>, p: Key, way: Way, call: Call) {
    && call.range.limit == call.Limit()
    && (way.ByIndex? ==> call.range.Valid(states, p, way.after))
  }

  /** A finished pass of `list_page`: each call is given the cursor text of the page before;
      the last page has none, or the call was rejected. */
  ghost predicate ListPass(codec: Codec, states: seq<Db>, p: Key, cursor: Option<Key>, calls: seq<Call>,
                           replies: seq<ScanReply>)
    decreases |calls|
  {
    calls != [] &&
    var way := WayOf(codec, cursor, calls[0].ready);
    ReadsIndex(states, p, way, calls[0]) &&
    var page := TextOf(codec, way, calls[0], replies);
    if page.Rejected? || page.next.None? then |calls| == 1
    else page.used <= |replies| && ListPass(codec, states, p, page.next, calls[1..], replies[page.used..])
  }

  /** The keys the pages hand to the fetch, in order; `None` when a call was rejected. */
  ghost function ListedKeys(codec: Codec, states: seq<Db>, p: Key, cursor: Option<Key>, calls: seq<Call>,
                            replies: seq<ScanReply>): Option<seq<Key>>
    requires ListPass(codec, states, p, cursor, calls, replies)
    decreases |calls|
  {
    var page := TextOf(codec, WayOf(codec, cursor, calls[0].ready), calls[0], replies);
    if page.Rejected? then None
    else if page.next.None? then Some(page.keys)
    else
      var rest := ListedKeys(codec, states, p, page.next, calls[1..], replies[page.used..]);
      if rest.None? then None else Some(page.keys + rest.value)
  }

  /** How much one page holds, for the limit `max(limit, 1)`: no more than that, and that
      much if it has a cursor. An index page has one exactly if the interval held more. */
  ghost predicate Fits(codec: Codec, states: seq<Db>, p: Key, way: Way, call: Call, replies: seq<ScanReply>)
    requires ReadsIndex(states, p, way, call) && call.range.limit >= 1 && !way.NotACursor?
  {
    var page := TextOf(codec, way, call, replies);
    var most := if call.limit == 0 then 1 else call.limit;
    && |page.keys| <= most
    && (page.next.Some? ==> |page.keys| == most)
    && (way.ByIndex? ==>
          (page.next.Some? <==> exists k :: k in states[call.range.readAt].index && InWindow(k, p, way.after) &&
                                            k !in page.keys))
  }

  /** Every page of a pass fits, however small the limits. */
  ghost predicate AllFit(codec: Codec, states: seq<Db>, p: Key, cursor: Option<Key>, calls: seq<Call>,
                         replies: seq<ScanReply>)
    requires ListPass(codec, states, p, cursor, calls, replies)
    decreases |calls|
  {
    var way := WayOf(codec, cursor, calls[0].ready);
    way.NotACursor? ||
    (Fits(codec, states, p, way, calls[0], replies) &&
     var page := TextOf(codec, way, calls[0], replies);
     page.next.Some? ==> AllFit(codec, states, p, page.next, calls[1..], replies[page.used..]))
  }

  lemma {:induction false} IndexPagesFit(codec: Codec, states: seq<Db>, p: Key, cursor: Option<Key>,
                                         after: Option<Key>, calls: seq<Call>, replies: seq<ScanReply>)
    requires codec.Faithful() && ListPass(codec, states, p, cursor, calls, replies)
    requires WayOf(codec, cursor, calls[0].ready) == ByIndex(after)
    ensures AllFit(codec, states, p, cursor, calls, replies)
    decreases |calls|
  {
    var page := calls[0].range;
    PageFills(states, page, p, after);
    if page.Next().Some? {
      assert replies[0..] == replies;
      CursorsReadBack(codec, page.Next().value, START, calls[1].ready);
      IndexPagesFit(codec, states, p, Some(IndexCursor(page.Next().value)), page.Next(), calls[1..], replies);
    }
  }

  lemma {:induction false} ScanPagesFit(codec: Codec, states: seq<Db>, p: Key, cursor: Option<Key>, c: ScanCursor,
                                        calls: seq<Call>, replies: seq<ScanReply>, end: nat)
    requires codec.Faithful() && ListPass(codec, states, p, cursor, calls, replies)
    requires WayOf(codec, cursor, calls[0].ready) == ByScan(c) && (!c.done ==> EndsAt(replies, end))
    ensures AllFit(codec, states, p, cursor, calls, replies)
    decreases |calls|
  {
    var page := PageOf(c, calls[0].Limit(), replies);
    PageConserves(c, calls[0].Limit(), replies, end);
    if page.next.Some? {
      var c' := page.next.value;
      AfterPage(c, calls[0].Limit(), replies, end);
      CursorsReadBack(codec, [], c', calls[1].ready);
      ScanPagesFit(codec, states, p, Some(ScanCursorText(codec, c')), c', calls[1..], replies[page.used..],
                   if c'.done then 0 else end - page.used);
    }
  }

  /** Pages are of the size asked for, over every pass of either kind. */
  lemma PagesFit(codec: Codec, states: seq<Db>, p: Key, calls: seq<Call>, replies: seq<ScanReply>, end: nat)
    requires codec.Faithful() && ListPass(codec, states, p, None, calls, replies) && EndsAt(replies, end)
    ensures AllFit(codec, states, p, None, calls, replies)
  {
    if calls[0].ready {
      IndexPagesFit(codec, states, p, None, None, calls, replies);
    } else {
      ScanPagesFit(codec, states, p, None, START, calls, replies, end);
    }
  }

  function Ranges(calls: seq<Call>): seq<IndexPage> {
    seq(|calls|, i requires 0 <= i < |calls| => calls[i].range)
  }

  function Limits(calls: seq<Call>): seq<nat> {
    seq(|calls|, i requires 0 <= i < |calls| => calls[i].Limit())
  }

  /** The keys of index pages in order. */
  function RangeKeys(pages: seq<IndexPage>): seq<Key> {
    if pages == [] then [] else pages[0].Keys() + RangeKeys(pages[1..])
  }

  /** A pass that takes up an index cursor is an index pass, whatever the flags say. */
  lemma {:induction false} IndexPassStays(codec: Codec, states: seq<Db>, p: Key, cursor: Option<Key>,
                                          after: Option<Key>, calls: seq<Call>, replies: seq<ScanReply>)
    requires codec.Faithful() && ListPass(codec, states, p, cursor, calls, replies)
    requires WayOf(codec, cursor, calls[0].ready) == ByIndex(after)
    ensures FinishedPass(states, Ranges(calls), p, after)
    ensures ListedKeys(codec, states, p, cursor, calls, replies) == Some(RangeKeys(Ranges(calls)))
    decreases |calls|
  {
    var page := calls[0].range;
    assert Ranges(calls)[0] == page && Ranges(calls)[1..] == Ranges(calls[1..]);
    if page.Next().Some? {
      var last := page.Next().value;
      assert replies[0..] == replies;
      CursorsReadBack(codec, last, START, calls[1].ready);
      IndexPassStays(codec, states, p, Some(IndexCursor(last)), Some(last), calls[1..], replies);
    } else {
      assert page.Keys() + [] == page.Keys();
    }
  }

  /** A pass that takes up a scan cursor is a scan pass, whatever the flags say. */
  lemma {:induction false} ScanPassStays(codec: Codec, states: seq<Db>, p: Key, cursor: Option<Key>, c: ScanCursor,
                                         calls: seq<Call>, replies: seq<ScanReply>)
    requires codec.Faithful() && ListPass(codec, states, p, cursor, calls, replies)
    requires WayOf(codec, cursor, calls[0].ready) == ByScan(c)
    ensures PassOf(c, Limits(calls), replies).finished
    ensures ListedKeys(codec, states, p, cursor, calls, replies) == Some(PassOf(c, Limits(calls), replies).keys)
    decreases |calls|
  {
    var page := PageOf(c, calls[0].Limit(), replies);
    assert Limits(calls)[0] == calls[0].Limit() && Limits(calls)[1..] == Limits(calls[1..]);
    if page.next.Some? {
      var c' := page.next.value;
      CursorsReadBack(codec, [], c', calls[1].ready);
      ScanPassStays(codec, states, p, Some(ScanCursorText(codec, c')), c', calls[1..], replies[page.used..]);
    }
  }

  /** A pass keeps the way of its first page: whatever the ready flags of the replicas that
      serve it, it is a finished index pass if the first one was up and else a finished scan
      pass, hands on exactly their keys, and is never rejected. */
  lemma PassKeepsItsWay(codec: Codec, states: seq<Db>, p: Key, calls: seq<Call>, replies: seq<ScanReply>)
    requires codec.Faithful() && ListPass(codec, states, p, None, calls, replies)
    ensures var listed := ListedKeys(codec, states, p, None, calls, replies);
            if calls[0].ready
            then FinishedPass(states, Ranges(calls), p, None) && listed == Some(RangeKeys(Ranges(calls)))
            else PassOf(START, Limits(calls), replies).finished &&
                 listed == Some(PassOf(START, Limits(calls), replies).keys)
  {
    if calls[0].ready {
      IndexPassStays(codec, states, p, None, None, calls, replies);
    } else {
      ScanPassStays(codec, states, p, None, START, calls, replies);
    }
  }

  /** A pass an older build began goes on as the scan it was. */
  lemma OlderPassGoesOn(codec: Codec, states: seq<Db>, p: Key, c: ScanCursor, calls: seq<Call>, replies: seq<ScanReply>)
    requires codec.Faithful() && ListPass(codec, states, p, Some(codec.enc(c)), calls, replies)
    ensures PassOf(c, Limits(calls), replies).finished
    ensures ListedKeys(codec, states, p, Some(codec.enc(c)), calls, replies) ==
            Some(PassOf(c, Limits(calls), replies).keys)
  {
    CursorsReadBack(codec, [], c, calls[0].ready);
    ScanPassStays(codec, states, p, Some(codec.enc(c)), c, calls, replies);
  }

  /** So a pass begun as a scan loses and invents no key, however the flags flap: its pages
      concatenate to the batches of one server pass. */
  lemma ListPassConserves(codec: Codec, states: seq<Db>, p: Key, calls: seq<Call>, replies: seq<ScanReply>, end: nat)
    requires codec.Faithful() && ListPass(codec, states, p, None, calls, replies)
    requires !calls[0].ready && EndsAt(replies, end)
    ensures ListedKeys(codec, states, p, None, calls, replies) == Some(Batches(replies[..end + 1]))
  {
    PassKeepsItsWay(codec, states, p, calls, replies);
    ScanPassConserves(Limits(calls), replies, end);
  }
}
