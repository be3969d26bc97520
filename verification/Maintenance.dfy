/** The gate's two operations as a replica runs them on the server, other clients stepping
    in during the backfill. `Gate` takes them apart into single steps. */
module Maintenance {
  import opened ByteStrings
  import opened Options
  import opened Store
  import opened Coverage
  import opened Server
  import opened Backfill

  class Replica {
    var ready: bool

    constructor ()
      ensures !ready
    {
      ready := false;
    }

    /** `gate_index`: with an older peer in sight the flag goes down and the mark goes; with
        none the flag follows the mark. Without an answer from the server the mark may still
        have gone (`took`), and a flag that would follow it stays as it is. */
    method GateIndex(server: Redis, olderPeer: bool, took: bool, answered: bool)
      requires answered ==> took
      modifies this, server`marked
      ensures olderPeer ==> !ready && server.marked == (old(server.marked) && !took)
      ensures !olderPeer ==> server.marked == old(server.marked)
      ensures !olderPeer ==> ready == (if answered then server.marked else old(ready))
      ensures (old(server.marked) || old(ready) ==> Covers(old(server.State()))) ==>
                (server.marked || ready ==> Covers(server.State()))
    {
      ghost var was := server.State();
      if olderPeer {
        ready := false;
        if took {
          server.marked := false;
        }
        assert forall k :: server.State().Live(k) <==> was.Live(k);
        return;
      }
      if answered {
        ready := server.marked;
      }
    }

    /** `complete_index`: backfill, list the peers again (`olderPeer`, or no answer), and only
        on a clean list set the mark and raise the flag; otherwise the server is as the others
        and the backfill left it. The index is complete then unless an older build wrote
        meanwhile, so flag and mark come up rightly whenever the second listing sees every
        older build that wrote. */
    method CompleteIndex(server: Redis, turns: seq<Turn>, olderPeer: Option<bool>, took: bool, answered: bool)
      returns (indexed: nat)
      requires turns != [] && (answered ==> took)
      requires ScanPromise(server.State(), LiveKeys(server.State()), {}, turns)
      modifies this, server
      ensures indexed == CountIndexed(old(server.State()), turns)
      ensures var filled := AfterTurns(old(server.State()), turns);
              server.State() == if olderPeer == Some(false) && took then filled.(marked := true) else filled
      ensures ready == (old(ready) || (olderPeer == Some(false) && answered))
      ensures AllIndexed(turns) ==> Covers(server.State())
    {
      indexed := BackfillIndex(server, turns);
      var unindexed := if olderPeer.Some? then olderPeer.value else true;
      if unindexed {
        return;
      }
      ghost var filled := server.State();
      if took {
        server.marked := true;
      }
      assert forall k :: server.State().Live(k) <==> filled.Live(k);
      if !answered {
        return;
      }
      ready := true;
    }
  }
}
