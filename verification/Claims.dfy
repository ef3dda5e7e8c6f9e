/**
 The single-writer claim of one key: what the claim file can hold, the
 takeover rule, and `acquire`, `recover` and `release` run without interference.
 Instants are seconds on the one host's clock.
 */
module Claims {
  import opened Wrappers

  type Token = string

  datatype Record = Record(owner: Token, startedAt: int, lease: int, pid: int)

  /** `Corrupt` is a file that exists and does not read back: empty, torn, or unreadable. */
  datatype File = Missing | Corrupt | Intact(record: Record)

  datatype Refusal =
    | LockHeld
    | AlreadyClaimed(holder: Option<Token>)
    | LeaseRunning
    | OwnerAlive
    | TempPublished
    | Unrecognisable
    | NotTheOwner

  datatype Error = InvalidArgument | ClaimBusy(refusal: Refusal) | WriteFailed

  /** Whether writing the body of a new claim file works, or raises and leaves it torn. */
  datatype Write = Written | Torn

  predicate IsExpired(record: Record, now: int) {
    now >= record.startedAt + record.lease
  }

  predicate IsProcessAlive(pid: int, pids: set<int>) {
    pid > 0 && pid in pids
  }

  /** The first of the three takeover conditions that fails, in the order the code tests them. */
  function TakeoverRefusal(record: Record, now: int, alive: bool, tempPublished: bool): Option<Refusal> {
    if !IsExpired(record, now) then Some(LeaseRunning)
    else if alive then Some(OwnerAlive)
    else if tempPublished then Some(TempPublished)
    else None
  }

  /** The caller's own verdict on the recorded process, or else a probe of the recorded pid. */
  predicate OwnerAliveNow(file: File, pids: set<int>, processAlive: Option<bool>) {
    file.Intact? && if processAlive.Some? then processAlive.value else IsProcessAlive(file.record.pid, pids)
  }

  predicate ValidArguments(owner: Token, lease: int) {
    owner != "" && lease > 0
  }

  class ClaimKey {
    var file: File
    var locked: bool // another process is inside the critical section

    constructor ()
      ensures file == Missing && !locked
    {
      file := Missing;
      locked := false;
    }

    method CreateClaim(record: Record, write: Write) returns (r: Result<Record, Error>)
      modifies this`file
      ensures !old(file).Missing? ==>
                file == old(file) && r.Err? && r.error.ClaimBusy? && r.error.refusal.AlreadyClaimed?
                && r.error.refusal.holder == (if file.Intact? then Some(file.record.owner) else None)
      ensures old(file).Missing? && write.Torn? ==> file == Corrupt && r == Err(WriteFailed)
      ensures old(file).Missing? && write.Written? ==> file == Intact(record) && r == Ok(record)
    {
      if !file.Missing? {
        return Err(ClaimBusy(AlreadyClaimed(if file.Intact? then Some(file.record.owner) else None)));
      }
      file := Corrupt;
      if write.Torn? {
        return Err(WriteFailed);
      }
      file := Intact(record);
      return Ok(record);
    }

    /** Succeeds exactly on a free key, never touches a file that is there. */
    method Acquire(owner: Token, lease: int, now: int, pid: int, write: Write) returns (r: Result<Record, Error>)
      modifies this`file
      ensures r.Ok? <==> owner != "" && lease > 0 && !locked && old(file).Missing? && write.Written?
      ensures r.Ok? ==> r.value == Record(owner, now, lease, pid) && file == Intact(r.value)
      ensures owner == "" || lease <= 0 ==> r == Err(InvalidArgument)
      ensures owner != "" && lease > 0 && locked ==> r == Err(ClaimBusy(LockHeld))
      ensures owner != "" && lease > 0 && !locked && !old(file).Missing? ==>
                r == Err(ClaimBusy(AlreadyClaimed(if file.Intact? then Some(file.record.owner) else None)))
      ensures !old(file).Missing? ==> file == old(file)
      ensures r.Err? ==> file == old(file) || (file.Corrupt? && write.Torn?)
    {
      if !ValidArguments(owner, lease) {
        return Err(InvalidArgument);
      }
      if locked {
        return Err(ClaimBusy(LockHeld));
      }
      r := CreateClaim(Record(owner, now, lease, pid), write);
    }

    /**
     Takes over exactly when nothing intact is there, or the lease is over, the
     recorded process gone and nothing published; otherwise the file stays.
     */
    method Recover(owner: Token, lease: int, now: int, pid: int, pids: set<int>,
                   processAlive: Option<bool>, tempPublished: bool, write: Write)
      returns (r: Result<Record, Error>)
      modifies this`file
      ensures owner == "" || lease <= 0 ==> r == Err(InvalidArgument)
      ensures owner != "" && lease > 0 && locked ==> r == Err(ClaimBusy(LockHeld))
      ensures var gone := if processAlive.Some? then !processAlive.value
                          else old(file).Intact? && (old(file).record.pid <= 0 || old(file).record.pid !in pids);
              var taken := old(file).Intact? ==>
                             now - old(file).record.startedAt >= old(file).record.lease && gone && !tempPublished;
              && (r.Ok? <==> owner != "" && lease > 0 && !locked && write.Written? && taken)
              && (!taken ==> file == old(file))
              && (!taken && owner != "" && lease > 0 && !locked ==>
                    r == Err(ClaimBusy(if now - old(file).record.startedAt < old(file).record.lease then LeaseRunning
                                       else if !gone then OwnerAlive else TempPublished)))
      ensures r.Ok? ==> r.value == Record(owner, now, lease, pid) && file == Intact(r.value)
      ensures r.Err? ==> file == old(file) || (file.Corrupt? && write.Torn?)
    {
      if !ValidArguments(owner, lease) {
        return Err(InvalidArgument);
      }
      if locked {
        return Err(ClaimBusy(LockHeld));
      }
      if !file.Missing? {
        if file.Intact? {
          var alive := OwnerAliveNow(file, pids, processAlive);
          var refusal := TakeoverRefusal(file.record, now, alive, tempPublished);
          if refusal.Some? {
            return Err(ClaimBusy(refusal.value));
          }
        }
        file := Missing;
      }
      r := CreateClaim(Record(owner, now, lease, pid), write);
    }

    /** Removes the file exactly when it carries the caller's token. */
    method Release(owner: Token) returns (r: Result<(), Error>)
      modifies this`file
      ensures r.Ok? <==> !locked && (old(file).Missing? || (old(file).Intact? && old(file).record.owner == owner))
      ensures file == if r.Ok? then Missing else old(file)
      ensures r.Err? ==>
                r == Err(ClaimBusy(if locked then LockHeld else if file.Corrupt? then Unrecognisable else NotTheOwner))
    {
      if locked {
        return Err(ClaimBusy(LockHeld));
      }
      if file.Missing? {
        return Ok(());
      }
      if file.Corrupt? {
        return Err(ClaimBusy(Unrecognisable));
      }
      if file.record.owner != owner {
        return Err(ClaimBusy(NotTheOwner));
      }
      file := Missing;
      return Ok(());
    }
  }
}
