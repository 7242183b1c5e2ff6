/**
 The runtime side of the instrumentation: checkMemory on the thread's log.
 */
module Tracker {
  import opened Bytes
  import opened LogFormat
  import opened Log
  import opened InstrumentedRuns

  class Tracker {
    var startTracking: bool
    var cxlModeEnabled: bool
    var storeInstEnabled: bool
    var startAddr: nat
    var endAddr: nat
    const localLog: Log

    constructor (log: Log)
      ensures localLog == log && !startTracking && !cxlModeEnabled && !storeInstEnabled && startAddr == endAddr == 0
    {
      localLog := log;
      startTracking, cxlModeEnabled, storeInstEnabled := false, false, false;
      startAddr, endAddr := 0, 0;
    }

    predicate Logs(ptr: nat)
      reads this
    {
      startTracking && startAddr <= ptr < endAddr && cxlModeEnabled
    }

    /** The machine that runs instrumented functions, as far as logging is concerned. */
    ghost predicate Shows(env: Env, m: Machine)
      reads this, localLog
    {
      && env.startTracking == startTracking && env.cxlMode == cxlModeEnabled
      && env.startAddr == startAddr && env.endAddr == endAddr
      && m.log == localLog.undo && m.last == localLog.lastLog
    }

    /**
     checkMemory, in a memory of which `mem` is the part from address `base` on. It does to the log what
     the machine's CheckMemory instruction does, and a range is listed whenever it is logged.
     */
    method CheckMemory(ptr: nat, mem: Image, base: nat, ghost env: Env, ghost m: Machine)
      requires localLog.Valid() && Shows(env, m)
      requires Logs(ptr) ==>
                 && base <= ptr && ptr + 8 <= base + |mem| && ptr < ADDR_LIMIT
                 && localLog.logOffset + HEADER + 8 <= localLog.content.Length
      requires forall a :: base <= a < base + |mem| ==> mem[a - base] == m.s.mem(a)
      modifies `storeInstEnabled, localLog, localLog.content
      ensures localLog.Valid() && Shows(env, Checked(env, m, ptr))
      ensures localLog.entries == old(localLog.entries) + if old(Logs(ptr)) then [Range(ptr, 8)] else []
      ensures storeInstEnabled <==> old(storeInstEnabled) || old(Logs(ptr))
    {
      if startTracking {
        if startAddr <= ptr && ptr < endAddr {
          // The mode is checked at the start of log_range.
          if cxlModeEnabled {
            storeInstEnabled := true;
            assert mem[ptr - base..ptr - base + 8] == Read(m.s.mem, ptr, 8);
            localLog.LogRange(mem, base, ptr, 8);
          }
        }
      }
    }
  }
}
