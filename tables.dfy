/**
  The table facade of src/lib.rs. A `PfTable` keeps a table's name and the
  entries last read from the kernel; each operation is a short sequence of
  kernel calls made through a fresh `PfIocTable`.

  `PfIocTable` and its `fire` are not part of this model's source. Here
  `fire` sends one `Request` to a `Device` and applies the `Reply`: the
  device answers each request as a function of every request made so far,
  so any deterministic kernel, including one whose table changes between
  two calls, is one choice of `respond`.
 */
module Tables {
  import opened Utf8
  import opened Net
  import opened Results
  import opened Errors
  import opened Bridge

  /** The table ioctls the library issues. */
  datatype PfIocCommand = ClrAddrs | AddAddrs | DelAddrs | GetAddrs

  /** One kernel call: the command, the table it names and the entries in its buffer. */
  datatype Request = Request(cmd: PfIocCommand, table: Utf8Str, buffer: seq<PfAddr>)

  /** The kernel's answer: a failure, or the size it reports and the buffer as it left it. */
  datatype Reply = Failed(error: PfError) | Done(size: nat, buffer: seq<PfAddr>)

  /** `PfrAddr::default()`, the placeholder entry the second GetAddrs call overwrites. */
  const DefaultAddr := PfAddr(V4(0), [], 0)

  function Placeholders(n: nat): (s: seq<PfAddr>)
    ensures |s| == n
    ensures forall i :: 0 <= i < n ==> s[i] == DefaultAddr
  {
    seq(n, _ => DefaultAddr)
  }

  /** The packet filter device, seen from user space. */
  class Device {
    /** The kernel's answer to the latest request, given every request so far. */
    const respond: seq<Request> -> Reply
    /** Every request made so far, oldest first. */
    var log: seq<Request>

    constructor(respond: seq<Request> -> Reply)
      ensures this.respond == respond && log == []
    {
      this.respond := respond;
      log := [];
    }
  }

  /** The request envelope together with the entries it carries. */
  class PfIocTable {
    var name: Utf8Str
    var buffer: seq<PfAddr>
    var size: nat

    /** `PfIocTable::new(name)`: no entries, nothing reported yet. */
    constructor(name: Utf8Str)
      ensures this.name == name && buffer == [] && size == 0
    {
      this.name := name;
      buffer := [];
      size := 0;
    }

    /**
      `fire`: one kernel call with this table's name and buffer. On failure
      nothing here changes; on success the buffer and the size are what the
      kernel reported.
     */
    method Fire(dev: Device, cmd: PfIocCommand) returns (r: Result<(), PfError>)
      modifies this`buffer, this`size, dev`log
      ensures dev.log == old(dev.log) + [Request(cmd, name, old(buffer))]
      ensures match dev.respond(dev.log)
              case Failed(e) => r == Err(e) && buffer == old(buffer) && size == old(size)
              case Done(n, b) => r == Ok(()) && buffer == b && size == n
    {
      dev.log := dev.log + [Request(cmd, name, buffer)];
      match dev.respond(dev.log)
      case Failed(e) =>
        r := Err(e);
      case Done(n, b) =>
        buffer, size := b, n;
        r := Ok(());
    }
  }

  // ---- what each operation does, as functions of the device's history ----

  /** What an operation leaves behind: its result, the device's request log and the table's entries. */
  datatype Outcome = Outcome(result: Result<(), PfError>, log: seq<Request>, addrs: seq<PfAddr>)

  /**
    `get_addrs` from request history `log` on a table holding `addrs`: ask
    for the size with an empty buffer, then ask again with that many
    placeholders, and keep what the second call left in the buffer.
   */
  function GetOutcome(respond: seq<Request> -> Reply, log: seq<Request>, name: Utf8Str, addrs: seq<PfAddr>): Outcome
  {
    var log1 := log + [Request(PfIocCommand.GetAddrs, name, [])];
    match respond(log1)
    case Failed(e) => Outcome(Err(e), log1, addrs)
    case Done(n, _) =>
      var log2 := log1 + [Request(PfIocCommand.GetAddrs, name, Placeholders(n))];
      match respond(log2)
      case Failed(e) => Outcome(Err(e), log2, addrs)
      case Done(_, b) => Outcome(Ok(()), log2, b)
  }

  /** `add_addrs`, `del_addrs` and `clr_addrs`: one call with `cmd` and `buffer`, then a refresh only if it succeeded. */
  function ChangeOutcome(respond: seq<Request> -> Reply, log: seq<Request>, name: Utf8Str, addrs: seq<PfAddr>,
                         cmd: PfIocCommand, buffer: seq<PfAddr>): Outcome
  {
    var log1 := log + [Request(cmd, name, buffer)];
    match respond(log1)
    case Failed(e) => Outcome(Err(e), log1, addrs)
    case Done(_, _) => GetOutcome(respond, log1, name, addrs)
  }

  /** A table the library manages. */
  class PfTable {
    var name: Utf8Str
    var addrs: seq<PfAddr>

    /** `PfTable::new`: the name as given and no entries until the first `get_addrs`. */
    constructor(name: Utf8Str)
      ensures this.name == name && addrs == []
    {
      this.name := name;
      addrs := [];
    }

    /** `get_addrs`: the two-phase read of the table's entries. */
    method GetAddrs(dev: Device) returns (r: Result<(), PfError>)
      modifies this`addrs, dev`log
      ensures name == old(name)
      ensures Outcome(r, dev.log, addrs) == GetOutcome(dev.respond, old(dev.log), name, old(addrs))
    {
      var io := new PfIocTable(name);
      r := io.Fire(dev, PfIocCommand.GetAddrs);
      if r.Err? {
        return;
      }
      io.buffer := Placeholders(io.size);
      r := io.Fire(dev, PfIocCommand.GetAddrs);
      if r.Err? {
        return;
      }
      addrs := io.buffer;
    }

    /** `add_addrs`: pass exactly `entries` with AddAddrs, then refresh. */
    method AddAddrs(dev: Device, entries: seq<PfAddr>) returns (r: Result<(), PfError>)
      modifies this`addrs, dev`log
      ensures name == old(name)
      ensures Outcome(r, dev.log, addrs) == ChangeOutcome(dev.respond, old(dev.log), name, old(addrs), PfIocCommand.AddAddrs, entries)
    {
      var io := new PfIocTable(name);
      io.buffer := entries;
      r := io.Fire(dev, PfIocCommand.AddAddrs);
      if r.Err? {
        return;
      }
      r := GetAddrs(dev);
    }

    /** `del_addrs`: pass exactly `entries` with DelAddrs, then refresh. */
    method DelAddrs(dev: Device, entries: seq<PfAddr>) returns (r: Result<(), PfError>)
      modifies this`addrs, dev`log
      ensures name == old(name)
      ensures Outcome(r, dev.log, addrs) == ChangeOutcome(dev.respond, old(dev.log), name, old(addrs), PfIocCommand.DelAddrs, entries)
    {
      var io := new PfIocTable(name);
      io.buffer := entries;
      r := io.Fire(dev, PfIocCommand.DelAddrs);
      if r.Err? {
        return;
      }
      r := GetAddrs(dev);
    }

    /** `clr_addrs`: ClrAddrs with an empty buffer, then refresh. */
    method ClrAddrs(dev: Device) returns (r: Result<(), PfError>)
      modifies this`addrs, dev`log
      ensures name == old(name)
      ensures Outcome(r, dev.log, addrs) == ChangeOutcome(dev.respond, old(dev.log), name, old(addrs), PfIocCommand.ClrAddrs, [])
    {
      var io := new PfIocTable(name);
      r := io.Fire(dev, PfIocCommand.ClrAddrs);
      if r.Err? {
        return;
      }
      r := GetAddrs(dev);
    }
  }

  // ---- the discipline the operations keep ----

  /** Every request an operation adds names the table, so no operation changes which table it talks to. */
  predicate NamesOnly(reqs: seq<Request>, name: Utf8Str)
  {
    forall i :: 0 <= i < |reqs| ==> reqs[i].table == name
  }

  /**
    `get_addrs` makes one or two GetAddrs calls for its table, the first with
    an empty buffer and the second with exactly as many placeholders as the
    first reported. It succeeds only when both do, and then the entries are
    the second call's buffer whatever size that call reports; on failure it
    returns the failing call's error and the entries are unchanged.
   */
  lemma GetProtocol(respond: seq<Request> -> Reply, log: seq<Request>, name: Utf8Str, addrs: seq<PfAddr>)
    ensures var o := GetOutcome(respond, log, name, addrs);
            && |log| + 1 <= |o.log| <= |log| + 2
            && o.log[..|log|] == log
            && NamesOnly(o.log[|log|..], name)
            && (forall i :: |log| <= i < |o.log| ==> o.log[i].cmd == PfIocCommand.GetAddrs)
            && o.log[|log|].buffer == []
            && (|o.log| == |log| + 2 ==>
                  respond(o.log[..|log| + 1]).Done?
                  && o.log[|log| + 1].buffer == Placeholders(respond(o.log[..|log| + 1]).size))
            && (o.result.Ok? <==> |o.log| == |log| + 2 && respond(o.log).Done?)
            && (o.result.Ok? ==> o.addrs == respond(o.log).buffer)
            && (o.result.Err? ==> o.addrs == addrs && respond(o.log) == Failed(o.result.error))
  {
    var log1 := log + [Request(PfIocCommand.GetAddrs, name, [])];
    assert log1[..|log|] == log;
    if respond(log1).Done? {
      var log2 := log1 + [Request(PfIocCommand.GetAddrs, name, Placeholders(respond(log1).size))];
      assert log2[..|log|] == log && log2[..|log| + 1] == log1;
    }
  }

  /**
    `add_addrs`, `del_addrs` and `clr_addrs` first pass the caller's buffer
    unchanged with their own command. If that call fails, its error is
    returned, nothing else is sent and the entries are unchanged; otherwise
    the result is a `get_addrs` refresh.
   */
  lemma ChangeProtocol(respond: seq<Request> -> Reply, log: seq<Request>, name: Utf8Str, addrs: seq<PfAddr>,
                       cmd: PfIocCommand, buffer: seq<PfAddr>)
    ensures var o := ChangeOutcome(respond, log, name, addrs, cmd, buffer);
            && |o.log| > |log|
            && o.log[..|log| + 1] == log + [Request(cmd, name, buffer)]
            && NamesOnly(o.log[|log|..], name)
            && (respond(o.log[..|log| + 1]).Failed? ==>
                  o == Outcome(Err(respond(o.log[..|log| + 1]).error), log + [Request(cmd, name, buffer)], addrs))
            && (respond(o.log[..|log| + 1]).Done? ==>
                  o == GetOutcome(respond, log + [Request(cmd, name, buffer)], name, addrs))
            && (o.result.Err? ==> o.addrs == addrs)
  {
    var log1 := log + [Request(cmd, name, buffer)];
    GetProtocol(respond, log1, name, addrs);
    var o := ChangeOutcome(respond, log, name, addrs, cmd, buffer);
    assert o.log[..|log| + 1] == log1 by {
      if respond(log1).Done? {
        assert o.log[..|log1|] == log1;
      }
    }
    assert NamesOnly(o.log[|log|..], name) by {
      if respond(log1).Done? {
        assert o.log[|log|..] == [log1[|log|]] + o.log[|log1|..];
      }
    }
  }
}
