/** A lease handle as the object its holders share, over the server its scripts change. */
module LeaseHandle {
  import opened ByteStrings
  import opened Options
  import opened Store
  import opened Lease

  class LeaseServer {
    var keys: map<Key, Cell>
    var now: int

    function State(): LeaseDb
      reads this
    {
      LeaseDb(keys, now)
    }

    constructor (db: LeaseDb)
      ensures State() == db
    {
      keys, now := db.keys, db.now;
    }

    /** Whatever all others do until our next command is served. */
    method Become(db: LeaseDb)
      modifies this
      ensures State() == db
    {
      keys, now := db.keys, db.now;
    }

    method RunAcquire(k: Key, node: Value, ttl: nat) returns (grant: Grant)
      modifies this
      ensures (State(), grant) == AcquireScript(old(State()), k, node, ttl)
    {
      if State().Live(k) {
        return Refused;
      }
      keys := keys[k := Cell(node, Some(now + ttl))];
      var fence := if State().Live(FenceKey(k)) then keys[FenceKey(k)] else Cell(Number(0), None);
      if fence.value.Blob? || fence.value.n == INT64_MAX {
        return Failed;
      }
      keys := keys[FenceKey(k) := fence.(value := Number(fence.value.n + 1))];
      return Granted(fence.value.n + 1);
    }

    method RunRenew(k: Key, node: Value, ttl: nat) returns (updated: bool)
      modifies this
      ensures (State(), updated) == RenewScript(old(State()), k, node, ttl)
    {
      updated := State().HeldBy(k, node);
      if updated {
        keys := keys[k := keys[k].(expiry := Some(now + ttl))];
      }
    }

    method RunRelease(k: Key, node: Value) returns (deleted: bool)
      modifies this
      ensures (State(), deleted) == ReleaseScript(old(State()), k, node)
    {
      deleted := State().HeldBy(k, node);
      if deleted {
        keys := keys - {k};
      }
    }
  }

  datatype Outcome = Fine | LeaseExpired | BackendUnavailable

  class LeaseState {
    const key: Key
    const holder: Value
    const ttl: nat
    const token: int
    var released: bool

    constructor (key: Key, holder: Value, ttl: nat, token: int)
      ensures this.key == key && this.holder == holder && this.ttl == ttl && this.token == token && !released
    {
      this.key, this.holder, this.ttl, this.token := key, holder, ttl, token;
      released := false;
    }

    /** `try_acquire_async`, with the TTL already clamped to at least 1 ms: a handle exactly
        when the key was free and the fence counted, carrying the new fence value. */
    static method TryAcquire(server: LeaseServer, key: Key, holder: Value, ttl: nat) returns (state: LeaseState?)
      modifies server
      ensures server.State() == AcquireScript(old(server.State()), key, holder, ttl).0
      ensures state != null <==> AcquireScript(old(server.State()), key, holder, ttl).1.Granted?
      ensures state != null ==>
              fresh(state) && !state.released && state.key == key && state.holder == holder && state.ttl == ttl
      ensures state != null ==> Granted(state.token) == AcquireScript(old(server.State()), key, holder, ttl).1
      ensures state != null ==> !old(server.State().Live(key)) && HeldFor(server.State(), key, holder, ttl)
    {
      AcquireExactly(server.State(), key, holder, ttl);
      var grant := server.RunAcquire(key, holder, ttl);
      if grant.Granted? {
        state := new LeaseState(key, holder, ttl, grant.token);
      } else {
        state := null;
      }
    }

    /** `renew_state`. Others may bring the server to any state `meanwhile` between the check
        of the flag and the script, and a holder of this handle may release it
        (`releasedMeanwhile`). The script's reply may be lost, whether or not it ran (`took`).
        The lease is prolonged exactly when the script ran and the node still held the key
        then; success means that it was, and without a reply the flag stays as it is. */
    method Renew(server: LeaseServer, meanwhile: LeaseDb, releasedMeanwhile: bool, took: bool, answered: bool)
      returns (outcome: Outcome)
      requires answered ==> took
      modifies this, server
      ensures old(released) ==> released && outcome == LeaseExpired && server.State() == old(server.State())
      ensures !old(released) ==>
                server.State() == if took then RenewScript(meanwhile, key, holder, ttl).0 else meanwhile
      ensures outcome == Fine <==> !old(released) && answered && meanwhile.HeldBy(key, holder)
      ensures outcome == Fine ==> HeldFor(server.State(), key, holder, ttl)
      ensures outcome == BackendUnavailable <==> !old(released) && !answered
      ensures released <==> old(released) || releasedMeanwhile || outcome == LeaseExpired
    {
      if released {
        return LeaseExpired;
      }
      RenewExactly(meanwhile, key, holder, ttl);
      released := releasedMeanwhile;
      server.Become(meanwhile);
      var updated := false;
      if took {
        updated := server.RunRenew(key, holder, ttl);
      }
      if !answered {
        return BackendUnavailable;
      }
      if !updated {
        released := true;
        return LeaseExpired;
      }
      return Fine;
    }

    /** `release_state`: the first call deletes the key if its script runs (`took`) and the
        node still holds it, every later one does nothing. Its reply is not looked at. */
    method Release(server: LeaseServer, meanwhile: LeaseDb, took: bool)
      modifies this, server
      ensures released
      ensures old(released) ==> server.State() == old(server.State())
      ensures !old(released) ==>
                server.State() == if took then ReleaseScript(meanwhile, key, holder).0 else meanwhile
      ensures !old(released) && took && meanwhile.HeldBy(key, holder) ==>
                !server.State().Live(key) && OnlyKey(meanwhile, server.State(), key)
      ensures !old(released) && !meanwhile.HeldBy(key, holder) ==> server.State() == meanwhile
    {
      if released {
        return;
      }
      ReleaseExactly(meanwhile, key, holder);
      released := true;
      server.Become(meanwhile);
      if took {
        var _ := server.RunRelease(key, holder);
      }
    }
  }
}
