/** The data directory as the process drives it: each system call may fail, and says what it left behind. */
module Devices {
  import opened Bytes
  import opened Storage

  /** Offsets are signed 64-bit: no write reaches past this. */
  const MAX_OFFSET: nat := 0x7FFF_FFFF_FFFF_FFFF

  class Disk {
    var s: State
    /** How many system calls have failed. */
    ghost var failures: nat

    constructor (s: State)
      ensures this.s == s && failures == 0
    {
      this.s := s;
      failures := 0;
    }

    /** Since the count of failures was `before`, a call has failed exactly if ok is false. */
    ghost predicate Blames(before: nat, ok: bool)
      reads this
    {
      before <= failures && (ok <==> failures == before)
    }

    /** Opening or closing a file without effect on what is durable. */
    method Attempt() returns (ok: bool)
      modifies this
      ensures s == old(s) && Blames(old(failures), ok)
    {
      ok := *;
      Record(ok);
    }

    /** Counts a call that failed. */
    ghost method Record(ok: bool)
      modifies this`failures
      ensures failures == old(failures) + if ok then 0 else 1
    {
      failures := failures + if ok then 0 else 1;
    }

    // -------------------------------------------------------------- the log

    method AppendLog(data: Bytes) returns (ok: bool)
      modifies this
      ensures Blames(old(failures), ok)
      ensures exists p :: p <= data && (ok ==> p == data) && s == Storage.AppendLog(old(s), p)
    {
      ok := *;
      var n: nat :| n <= |data|;
      var p := if ok then data else data[..n];
      s := Storage.AppendLog(s, p);
      Record(ok);
    }

    method SyncLog() returns (ok: bool)
      modifies this
      ensures Blames(old(failures), ok)
      ensures s == if ok then Storage.SyncLog(old(s)) else old(s)
    {
      ok := *;
      if ok {
        s := Storage.SyncLog(s);
      }
      Record(ok);
    }

    method ShrinkLog(n: nat) returns (ok: bool)
      requires n <= |s.walBase|
      modifies this
      ensures Blames(old(failures), ok)
      ensures s == if ok then Storage.ShrinkLog(old(s), n) else old(s)
    {
      ok := *;
      if ok {
        s := Storage.ShrinkLog(s, n);
      }
      Record(ok);
    }

    method SyncShrunkLog() returns (ok: bool)
      modifies this
      ensures Blames(old(failures), ok)
      ensures s == if ok then Storage.SyncShrunkLog(old(s)) else old(s)
    {
      ok := *;
      if ok {
        s := Storage.SyncShrunkLog(s);
      }
      Record(ok);
    }

    method CutLog() returns (ok: bool)
      modifies this
      ensures Blames(old(failures), ok)
      ensures ok ==> s == Storage.CutLog(old(s))
      ensures !ok ==> s == old(s) || s == Storage.CutLog(old(s))
    {
      ok := *;
      var cut: bool := *;
      if ok || cut {
        s := Storage.CutLog(s);
      }
      Record(ok);
    }

    method SyncCutLog() returns (ok: bool)
      modifies this
      ensures Blames(old(failures), ok)
      ensures s == if ok then Storage.SyncCutLog(old(s)) else old(s)
    {
      ok := *;
      if ok {
        s := Storage.SyncCutLog(s);
      }
      Record(ok);
    }

    // -------------------------------------------------------------- SSTables

    method OpenTable(i: nat) returns (ok: bool)
      modifies this
      ensures Blames(old(failures), ok)
      ensures s == if ok then Storage.OpenTable(old(s), i) else old(s)
    {
      ok := *;
      if ok {
        s := Storage.OpenTable(s, i);
      }
      Record(ok);
    }

    method WriteTable(i: nat, data: Bytes) returns (ok: bool)
      requires i in s.files
      modifies this
      ensures Blames(old(failures), ok)
      ensures exists p :: p <= data && (ok ==> p == data) && s == Storage.WriteTable(old(s), i, old(s).files[i] + p)
      ensures ok ==> |s.files[i]| <= MAX_OFFSET
    {
      ok := *;
      ok := ok && |s.files[i]| + |data| <= MAX_OFFSET;
      var n: nat :| n <= |data|;
      var p := if ok then data else data[..n];
      s := Storage.WriteTable(s, i, s.files[i] + p);
      Record(ok);
    }

    method SyncTable(i: nat) returns (ok: bool)
      modifies this
      ensures Blames(old(failures), ok)
      ensures s == if ok then Storage.SyncTable(old(s), i) else old(s)
    {
      ok := *;
      if ok {
        s := Storage.SyncTable(s, i);
      }
      Record(ok);
    }

    /** std::filesystem::remove: false without an error when there is no such file. */
    method RemoveTable(i: nat) returns (ok: bool)
      modifies this
      ensures i in old(s).files ==> Blames(old(failures), ok)
      ensures i !in old(s).files ==> !ok && failures == old(failures)
      ensures s == if ok then Storage.RemoveTable(old(s), i) else old(s)
    {
      if i !in s.files {
        return false;
      }
      ok := *;
      if ok {
        s := Storage.RemoveTable(s, i);
      }
      Record(ok);
    }

    // -------------------------------------------------------------- the manifest

    method WriteTemp(text: string) returns (ok: bool)
      modifies this
      ensures Blames(old(failures), ok)
      ensures exists p :: p <= text && (ok ==> p == text) && s == Storage.WriteTemp(old(s), p, false)
    {
      ok := *;
      var n: nat :| n <= |text|;
      var p := if ok then text else text[..n];
      s := Storage.WriteTemp(s, p, false);
      Record(ok);
    }

    method SyncTemp() returns (ok: bool)
      modifies this
      ensures Blames(old(failures), ok)
      ensures s == if ok then Storage.WriteTemp(old(s), old(s).temp, true) else old(s)
    {
      ok := *;
      if ok {
        s := Storage.WriteTemp(s, s.temp, true);
      }
      Record(ok);
    }

    method RenameTemp() returns (ok: bool)
      modifies this
      ensures Blames(old(failures), ok)
      ensures s == if ok then Storage.RenameTemp(old(s)) else old(s)
    {
      ok := *;
      if ok {
        s := Storage.RenameTemp(s);
      }
      Record(ok);
    }

    method SyncDirectory() returns (ok: bool)
      modifies this
      ensures Blames(old(failures), ok)
      ensures s == if ok then Storage.SyncDirectory(old(s)) else old(s)
    {
      ok := *;
      if ok {
        s := Storage.SyncDirectory(s);
      }
      Record(ok);
    }
  }
}
