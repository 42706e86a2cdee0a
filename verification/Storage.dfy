/** The durable state, what each system call does to it, and what a power loss may leave. */
module Storage {
  import opened Bytes

  /**
   * Files as the running process sees them, with what is not yet guaranteed to survive a power loss:
   *  - walBase is the log as of its last successful sync; walTail has been appended since, and walCut
   *    says that the file has been opened for truncation since;
   *  - an SSTable in dirtyData or dirtyNames has contents or a directory entry that are not synced;
   *  - stale holds the earlier manifests that an unsynced rename may still fall back to.
   */
  datatype State = State(
    walBase: Bytes, walTail: Bytes, walCut: bool,
    files: map<nat, Bytes>, dirtyData: set<nat>, dirtyNames: set<nat>,
    manifest: Option<string>, stale: set<Option<string>>,
    temp: string, tempSynced: bool)

  /** An empty data directory. */
  const FRESH: State := State([], [], false, map[], {}, {}, None, {}, "", true)

  // ---------------------------------------------------------------- system calls

  function AppendLog(d: State, data: Bytes): State {
    d.(walTail := d.walTail + data)
  }

  function SyncLog(d: State): State {
    d.(walBase := d.walBase + d.walTail, walTail := [])
  }

  /** fopen("w+b") on the log. */
  function CutLog(d: State): State {
    d.(walCut := true)
  }

  function SyncCutLog(d: State): State {
    d.(walBase := [], walTail := [], walCut := false)
  }

  /** ftruncate of the log to n bytes: until the next sync the rest may still be there. */
  function ShrinkLog(d: State, n: nat): State
    requires n <= |d.walBase|
  {
    d.(walBase := d.walBase[..n], walTail := d.walBase[n..])
  }

  function SyncShrunkLog(d: State): State {
    d.(walTail := [])
  }

  /** fopen("wb") on SSTable i. */
  function OpenTable(d: State, i: nat): State {
    d.(files := d.files[i := []], dirtyData := d.dirtyData + {i}, dirtyNames := d.dirtyNames + {i})
  }

  function WriteTable(d: State, i: nat, contents: Bytes): State {
    d.(files := d.files[i := contents], dirtyData := d.dirtyData + {i})
  }

  function SyncTable(d: State, i: nat): State {
    d.(dirtyData := d.dirtyData - {i})
  }

  /** The directory sync settles every rename, creation and removal made so far. */
  function SyncDirectory(d: State): State {
    d.(dirtyNames := {}, stale := {})
  }

  function RemoveTable(d: State, i: nat): State {
    d.(files := d.files - {i}, dirtyNames := d.dirtyNames + {i})
  }

  function WriteTemp(d: State, text: string, synced: bool): State {
    d.(temp := text, tempSynced := synced)
  }

  /** rename of the temporary manifest: an unsynced one may surface as any prefix of itself. */
  function RenameTemp(d: State): State {
    d.(manifest := Some(d.temp),
       stale := d.stale + {d.manifest} +
                if d.tempSynced then {} else set n: nat | n <= |d.temp| :: Some(d.temp[..n]))
  }

  // ---------------------------------------------------------------- power loss

  /** The log contents that may be found after a power loss. */
  ghost predicate MayFindLog(d: State, w: Bytes) {
    || (d.walBase <= w <= d.walBase + d.walTail)
    || (d.walCut && w == [])
  }

  ghost predicate MayFindManifest(d: State, m: Option<string>) {
    m == d.manifest || m in d.stale
  }

  /** An SSTable whose contents and name are both synced. */
  predicate Settled(d: State, i: nat) {
    i in d.files && i !in d.dirtyData && i !in d.dirtyNames
  }

  /** d' is what a restart may find: settled files survive, anything else may be missing or damaged. */
  ghost predicate MayRestartAs(d: State, d': State) {
    && MayFindLog(d, d'.walBase) && d'.walTail == [] && !d'.walCut
    && MayFindManifest(d, d'.manifest) && d'.stale == {}
    && d'.dirtyData == {} && d'.dirtyNames == {}
    && forall i :: Settled(d, i) ==> i in d'.files && d'.files[i] == d.files[i]
  }
}
