/** The log file being written, its rotation, and what is handed to the completion callback. */
module LogFiles {
  import opened Bytes

  // A UUID; new ones are drawn from a supply that never repeats.
  type Cid = nat
  type Timestamp = Option<string>

  datatype Line =
    | Record(value: string)
    | LowHeadroom(ts: Timestamp, lowOnBytes: bool, lowOnInodes: bool)
    | Recovered(ts: Timestamp, dropped: nat)
    | RateLimited(ts: Timestamp, count: nat)

  datatype CompletedLog = CompletedLog(cid: Cid, nextCid: Cid)

  /** The state of log collection: the current file, the completed logs handed over so far, the next
      unused UUID, and every line written, in order, whichever file it went to. */
  datatype Control = Control(cid: Cid, bytesWritten: nat, handed: seq<CompletedLog>, supply: Cid, written: seq<Line>)

  function WriteLine(c: Control, line: Line, size: nat): Control {
    c.(bytesWritten := c.bytesWritten + size, written := c.written + [line])
  }

  /** Starts a new file and hands the old one over with the new UUID as its successor. If the new file
      cannot be opened, the old one stays current; the UUID drawn for the new one is not used again. */
  function RotateLog(c: Control, opens: bool): Control {
    if opens then
      c.(cid := c.supply, bytesWritten := 0, supply := c.supply + 1,
         handed := c.handed + [CompletedLog(c.cid, c.supply)])
    else c.(supply := c.supply + 1)
  }

  datatype Rotation = NotNeeded | Rotated | OpenFailed

  /** A file that is large or old enough is rotated. */
  function RotateIfNeeded(c: Control, maxSize: nat, aged: bool, opens: bool): (Control, Rotation) {
    if c.bytesWritten >= maxSize || aged then (RotateLog(c, opens), if opens then Rotated else OpenFailed)
    else (c, NotNeeded)
  }

  function RotateUnlessEmpty(c: Control, opens: bool): (Control, Rotation) {
    if c.bytesWritten > 0 then (RotateLog(c, opens), if opens then Rotated else OpenFailed) else (c, NotNeeded)
  }

  /** A clean close hands the file over with a next UUID that nothing will ever carry. */
  function Close(c: Control): Control {
    if c.bytesWritten > 0 then
      c.(supply := c.supply + 1, handed := c.handed + [CompletedLog(c.cid, c.supply)])
    else c
  }

  class LogFileControl {
    var cid: Cid
    var bytesWritten: nat
    var handed: seq<CompletedLog>
    var supply: Cid
    var written: seq<Line>
    const maxSize: nat

    ghost function State(): Control
      reads this
    {
      Control(cid, bytesWritten, handed, supply, written)
    }

    constructor Open(nextCid: Cid, maxSize: nat, handed: seq<CompletedLog>, supply: Cid)
      ensures State() == Control(nextCid, 0, handed, supply, []) && this.maxSize == maxSize
    {
      this.cid, this.bytesWritten, this.written := nextCid, 0, [];
      this.handed, this.supply, this.maxSize := handed, supply, maxSize;
    }

    // A line whose writing fails does not count.
    method WriteJsonLine(line: Line, size: nat, fails: bool) returns (ok: bool)
      modifies this
      ensures ok <==> !fails
      ensures State() == if fails then old(State()) else WriteLine(old(State()), line, size)
    {
      if fails {
        return false;
      }
      written := written + [line];
      bytesWritten := bytesWritten + size;
      return true;
    }

    method NewUuid() returns (uuid: Cid)
      modifies this`supply
      ensures uuid == old(supply) && supply == old(supply) + 1
    {
      uuid := supply;
      supply := supply + 1;
    }

    // The new file is current before the old one is handed over.
    method Rotate(opens: bool) returns (ok: bool)
      modifies this
      ensures ok <==> opens
      ensures State() == RotateLog(old(State()), opens)
    {
      var closed := cid;
      var next := NewUuid();
      if !opens {
        return false;
      }
      cid, bytesWritten := next, 0;
      DispatchOnLogCompletion(closed, next);
      return true;
    }

    method DispatchOnLogCompletion(closed: Cid, next: Cid)
      modifies this`handed
      ensures handed == old(handed) + [CompletedLog(closed, next)]
    {
      handed := handed + [CompletedLog(closed, next)];
    }

    method RotateIfNeededNow(aged: bool, opens: bool) returns (r: Rotation)
      modifies this
      ensures (State(), r) == RotateIfNeeded(old(State()), maxSize, aged, opens)
    {
      r := NotNeeded;
      if bytesWritten >= maxSize || aged {
        var ok := Rotate(opens);
        r := if ok then Rotated else OpenFailed;
      }
    }

    method RotateUnlessEmptyNow(opens: bool) returns (r: Rotation)
      modifies this
      ensures (State(), r) == RotateUnlessEmpty(old(State()), opens)
    {
      r := NotNeeded;
      if bytesWritten > 0 {
        var ok := Rotate(opens);
        r := if ok then Rotated else OpenFailed;
      }
    }

    method CloseNow()
      modifies this
      ensures State() == Close(old(State()))
    {
      if bytesWritten > 0 {
        var next := NewUuid();
        DispatchOnLogCompletion(cid, next);
      }
    }
  }
}
