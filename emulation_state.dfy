/**
 * The emulation session (`ArcadiaCoreEmulationState`): which core and game type are
 * attached, the game loop and save-RAM monitor (modelled as "running" flags and single
 * tick bodies), game preparation with battery-save restore, the three-way start of
 * emulation, and the pressed-button table.
 *
 * The session is the shared instance the core publishes to: what the core's methods write
 * into `sharedInstance` (the current game URL, the AV info) they return here, and the
 * session stores it.
 */
module EmulationState {
  import opened Common
  import opened CoreOptions
  import opened PixelTypes
  import opened ButtonTable
  import opened CoreProtocol

  /** No region listed twice: the regions are the keys of a dictionary. */
  predicate Distinct(regions: seq<u32>) {
    forall i, j | 0 <= i < j < |regions| :: regions[i] != regions[j]
  }

  datatype GameTypeInfo = GameTypeInfo(name: string, supportedSaveFiles: seq<u32>)

  /**
   * A game type as the session uses it: its name and the save regions it supports, in
   * the order the dictionary yields them. The core it is associated with is passed
   * separately, since each access creates a new core value.
   */
  type GameType = g: GameTypeInfo | Distinct(g.supportedSaveFiles) witness GameTypeInfo("", [])

  /** `gameType.name != currentGameType?.name`: true when no game type is set. */
  predicate Swaps(current: Option<GameType>, gameType: GameType) {
    current.None? || current.value.name != gameType.name
  }

  // ---------------------------------------------------------------- the save monitor tick, as values

  /** Every region a check would report as changed has a save file URL (it is force-unwrapped). */
  predicate MonitorReady(snap: Snapshots, memory: map<u32, seq<byte>>, regions: seq<u32>, urls: map<u32, Url>) {
    Distinct(regions) && forall k | k in regions && Modified(snap, memory, k) :: k in urls
  }

  /**
   * One pass of the save monitor over `regions`, in order: each region is checked, and a
   * region the check reports as changed is saved to its file. Gives the snapshots and
   * the files afterwards.
   */
  function MonitorPass(snap: Snapshots, memory: map<u32, seq<byte>>, files: map<Url, seq<byte>>,
                       regions: seq<u32>, urls: map<u32, Url>): (Snapshots, map<Url, seq<byte>>)
    requires MonitorReady(snap, memory, regions, urls)
    decreases |regions|
  {
    if |regions| == 0 then (snap, files)
    else
      var id := regions[0];
      var files' := if Modified(snap, memory, id) then AfterSave(files, memory, id, urls[id]) else files;
      assert forall k | k in regions[1..] :: k != id && k in regions;
      MonitorPass(AfterCheck(snap, memory, id), memory, files', regions[1..], urls)
  }

  /** A pass leaves the snapshot of a region it does not visit as it was. */
  lemma {:induction false} MonitorPassFrame(snap: Snapshots, memory: map<u32, seq<byte>>, files: map<Url, seq<byte>>,
                                            regions: seq<u32>, urls: map<u32, Url>, k: u32)
    requires MonitorReady(snap, memory, regions, urls) && k !in regions
    ensures SnapSameAt(MonitorPass(snap, memory, files, regions, urls).0, snap, k)
    decreases |regions|
  {
    if |regions| > 0 {
      var id := regions[0];
      var files' := if Modified(snap, memory, id) then AfterSave(files, memory, id, urls[id]) else files;
      assert forall j | j in regions[1..] :: j != id && j in regions;
      MonitorPassFrame(AfterCheck(snap, memory, id), memory, files', regions[1..], urls, k);
    }
  }

  /** After a pass no visited region reports a change. */
  lemma {:induction false} MonitorPassQuiet(snap: Snapshots, memory: map<u32, seq<byte>>, files: map<Url, seq<byte>>,
                                            regions: seq<u32>, urls: map<u32, Url>)
    requires MonitorReady(snap, memory, regions, urls)
    ensures forall k | k in regions :: !Modified(MonitorPass(snap, memory, files, regions, urls).0, memory, k)
    decreases |regions|
  {
    if |regions| > 0 {
      var id := regions[0];
      var files' := if Modified(snap, memory, id) then AfterSave(files, memory, id, urls[id]) else files;
      var snap' := AfterCheck(snap, memory, id);
      assert forall j | j in regions[1..] :: j != id && j in regions;
      MonitorPassQuiet(snap', memory, files', regions[1..], urls);
      assert id !in regions[1..] by {
        forall i | 0 <= i < |regions[1..]| ensures regions[1..][i] != id {
          assert regions[1..][i] == regions[i + 1];
        }
      }
      MonitorPassFrame(snap', memory, files', regions[1..], urls, id);
      CheckSettles(snap, memory, id);
      forall k | k in regions
        ensures !Modified(MonitorPass(snap, memory, files, regions, urls).0, memory, k)
      {
        if k != id {
          assert k in regions[1..] by {
            var i :| 0 <= i < |regions| && regions[i] == k;
            assert regions[1..][i - 1] == k;
          }
        }
      }
    }
  }

  /** A pass over regions none of which reports a change changes nothing. */
  lemma {:induction false} MonitorPassIdle(snap: Snapshots, memory: map<u32, seq<byte>>, files: map<Url, seq<byte>>,
                                           regions: seq<u32>, urls: map<u32, Url>)
    requires Distinct(regions) && forall k | k in regions :: !Modified(snap, memory, k)
    ensures MonitorPass(snap, memory, files, regions, urls) == (snap, files)
    decreases |regions|
  {
    if |regions| > 0 {
      assert forall j | j in regions[1..] :: j in regions;
      MonitorPassIdle(snap, memory, files, regions[1..], urls);
    }
  }

  /** While the emulated game does not write its save RAM, a second pass right after the first changes nothing. */
  lemma MonitorPassTwice(snap: Snapshots, memory: map<u32, seq<byte>>, files: map<Url, seq<byte>>,
                         regions: seq<u32>, urls: map<u32, Url>)
    requires MonitorReady(snap, memory, regions, urls)
    ensures var after := MonitorPass(snap, memory, files, regions, urls);
      MonitorReady(after.0, memory, regions, urls) &&
      MonitorPass(after.0, memory, after.1, regions, urls) == after
  {
    var after := MonitorPass(snap, memory, files, regions, urls);
    MonitorPassQuiet(snap, memory, files, regions, urls);
    MonitorPassIdle(after.0, memory, after.1, regions, urls);
  }

  /** A file that no changed region is saved to keeps its contents. */
  lemma {:induction false} MonitorPassKeepsFile(snap: Snapshots, memory: map<u32, seq<byte>>, files: map<Url, seq<byte>>,
                                                regions: seq<u32>, urls: map<u32, Url>, u: Url)
    requires MonitorReady(snap, memory, regions, urls)
    requires forall j | j in regions && Modified(snap, memory, j) :: urls[j] != u
    ensures SameAt(MonitorPass(snap, memory, files, regions, urls).1, files, u)
    decreases |regions|
  {
    if |regions| > 0 {
      var id := regions[0];
      var files' := if Modified(snap, memory, id) then AfterSave(files, memory, id, urls[id]) else files;
      assert forall j | j in regions[1..] :: j != id && j in regions;
      MonitorPassKeepsFile(AfterCheck(snap, memory, id), memory, files', regions[1..], urls, u);
    }
  }

  /**
   * A non-empty region that reports a change is saved: afterwards its file and its
   * snapshot hold its bytes, provided no other changed region is saved to the same file.
   */
  lemma {:induction false} MonitorPassSaves(snap: Snapshots, memory: map<u32, seq<byte>>, files: map<Url, seq<byte>>,
                                            regions: seq<u32>, urls: map<u32, Url>, k: u32)
    requires MonitorReady(snap, memory, regions, urls)
    requires k in regions && Modified(snap, memory, k) && |memory[k]| > 0
    requires forall j | j in regions && j != k && Modified(snap, memory, j) :: urls[j] != urls[k]
    ensures var after := MonitorPass(snap, memory, files, regions, urls);
      urls[k] in after.1 && after.1[urls[k]] == memory[k] &&
      after.0.Some? && k in after.0.value && after.0.value[k] == memory[k]
    decreases |regions|
  {
    var id := regions[0];
    var files' := if Modified(snap, memory, id) then AfterSave(files, memory, id, urls[id]) else files;
    var snap' := AfterCheck(snap, memory, id);
    assert forall j | j in regions[1..] :: j != id && j in regions;
    if k == id {
      assert k !in regions[1..];
      MonitorPassKeepsFile(snap', memory, files', regions[1..], urls, urls[k]);
      MonitorPassFrame(snap', memory, files', regions[1..], urls, k);
    } else {
      assert k in regions[1..] by {
        var i :| 0 <= i < |regions| && regions[i] == k;
        assert regions[1..][i - 1] == k;
      }
      MonitorPassSaves(snap', memory, files', regions[1..], urls, k);
    }
  }

  // ---------------------------------------------------------------- restoring battery saves, as values

  /**
   * The per-region restore of game preparation, in order: when the region's save file
   * exists the battery save is loaded from it; otherwise the region is written to the
   * file and snapshotted. Gives the memory, the snapshots and the files afterwards.
   */
  function Restore(memory: map<u32, seq<byte>>, snap: Snapshots, files: map<Url, seq<byte>>,
                   regions: seq<u32>, urls: map<u32, Url>): (map<u32, seq<byte>>, Snapshots, map<Url, seq<byte>>)
    requires forall k | k in regions :: k in urls
    decreases |regions|
  {
    if |regions| == 0 then (memory, snap, files)
    else
      var id := regions[0];
      var url := urls[id];
      assert forall k | k in regions[1..] :: k in regions;
      if url in files then
        if LoadApplies(memory, files, id, url) then
          Restore(memory[id := files[url]], Record(snap, id, files[url]), files, regions[1..], urls)
        else
          Restore(memory, snap, files, regions[1..], urls)
      else
        Restore(memory, AfterTake(snap, memory, id), AfterSave(files, memory, id, url), regions[1..], urls)
  }

  /** No two regions share a save file. */
  predicate DistinctUrls(regions: seq<u32>, urls: map<u32, Url>)
    requires forall k | k in regions :: k in urls
  {
    forall i, j | 0 <= i < j < |regions| :: urls[regions[i]] != urls[regions[j]]
  }

  /** The restore leaves a region it does not visit, and a file no visited region uses, as they were. */
  lemma {:induction false} RestoreFrame(memory: map<u32, seq<byte>>, snap: Snapshots, files: map<Url, seq<byte>>,
                                        regions: seq<u32>, urls: map<u32, Url>, k: u32, u: Url)
    requires forall j | j in regions :: j in urls
    requires k !in regions && forall j | j in regions :: urls[j] != u
    ensures var r := Restore(memory, snap, files, regions, urls);
      SameAt(r.0, memory, k) && SnapSameAt(r.1, snap, k) && SameAt(r.2, files, u)
    decreases |regions|
  {
    if |regions| > 0 {
      var id := regions[0];
      var url := urls[id];
      assert forall j | j in regions[1..] :: j in regions;
      if url in files {
        if LoadApplies(memory, files, id, url) {
          RestoreFrame(memory[id := files[url]], Record(snap, id, files[url]), files, regions[1..], urls, k, u);
        } else {
          RestoreFrame(memory, snap, files, regions[1..], urls, k, u);
        }
      } else {
        RestoreFrame(memory, AfterTake(snap, memory, id), AfterSave(files, memory, id, url), regions[1..], urls, k, u);
      }
    }
  }

  /**
   * What the restore does to one region, when regions do not share save files: a save
   * file of the right size is loaded and becomes the snapshot; a missing save file is
   * created from a non-empty region, which is snapshotted; either way the save monitor's
   * next check of the region reports nothing. A save file of the wrong size leaves the
   * region and its snapshot as they were.
   */
  lemma {:induction false} RestoreAt(memory: map<u32, seq<byte>>, snap: Snapshots, files: map<Url, seq<byte>>,
                                     regions: seq<u32>, urls: map<u32, Url>, k: u32)
    requires forall j | j in regions :: j in urls
    requires Distinct(regions) && DistinctUrls(regions, urls) && k in regions
    ensures var r := Restore(memory, snap, files, regions, urls);
      var u := urls[k];
      && (u in files && LoadApplies(memory, files, k, u) ==>
            k in r.0 && r.0[k] == files[u] && !Modified(r.1, r.0, k))
      && (u in files && !LoadApplies(memory, files, k, u) ==>
            SameAt(r.0, memory, k) && SnapSameAt(r.1, snap, k))
      && (u !in files && k in memory && |memory[k]| > 0 ==>
            u in r.2 && r.2[u] == memory[k] && !Modified(r.1, r.0, k))
    decreases |regions|
  {
    var id := regions[0];
    var url := urls[id];
    var rest := regions[1..];
    assert forall j | j in rest :: j in regions;
    assert Distinct(rest) by {
      forall i, j | 0 <= i < j < |rest| ensures rest[i] != rest[j] {
        assert rest[i] == regions[i + 1] && rest[j] == regions[j + 1];
      }
    }
    assert DistinctUrls(rest, urls) by {
      forall i, j | 0 <= i < j < |rest| ensures urls[rest[i]] != urls[rest[j]] {
        assert rest[i] == regions[i + 1] && rest[j] == regions[j + 1];
      }
    }
    if k == id {
      assert k !in rest && forall j | j in rest :: urls[j] != url by {
        forall i | 0 <= i < |rest| ensures rest[i] != k && urls[rest[i]] != url {
          assert rest[i] == regions[i + 1];
        }
      }
      if url in files {
        if LoadApplies(memory, files, id, url) {
          RestoreFrame(memory[id := files[url]], Record(snap, id, files[url]), files, rest, urls, k, url);
        } else {
          RestoreFrame(memory, snap, files, rest, urls, k, url);
        }
      } else {
        RestoreFrame(memory, AfterTake(snap, memory, id), AfterSave(files, memory, id, url), rest, urls, k, url);
      }
    } else {
      var i :| 0 <= i < |regions| && regions[i] == k;
      assert rest[i - 1] == k;
      assert urls[k] != url;
      if url in files {
        if LoadApplies(memory, files, id, url) {
          RestoreAt(memory[id := files[url]], Record(snap, id, files[url]), files, rest, urls, k);
        } else {
          RestoreAt(memory, snap, files, rest, urls, k);
        }
      } else {
        RestoreAt(memory, AfterTake(snap, memory, id), AfterSave(files, memory, id, url), rest, urls, k);
      }
    }
  }

  // ---------------------------------------------------------------- attaching a core

  /** The metatype `type(of:)` yields: an optional's type, or the concrete type of a core. */
  datatype SwiftType = OptionalOfCore | ConcreteCore(kind: nat)

  /** `type(of: self.currentCore)`: the static `Optional<any ArcadiaCoreProtocol>`, whatever it holds. */
  function TypeOfOptional(c: Core?): (t: SwiftType)
    ensures t.OptionalOfCore?
  {
    OptionalOfCore
  }

  /** `type(of: core)`: the concrete core type behind the existential. */
  function TypeOfCore(c: Core): (t: SwiftType)
    ensures t.ConcreteCore? && t.kind == c.kind
  {
    ConcreteCore(c.kind)
  }

  // ---------------------------------------------------------------- the session

  /** The calls `initializeCore()` makes: none on a core already initialised. */
  function InitCalls(wasInitialized: bool): seq<CoreCall> {
    if wasInitialized then [] else [RetroSetEnvironment, RetroInit, RetroGetSystemAvInfo]
  }

  /** The calls a core receives when prepared fresh: initialisation, callbacks, the game. */
  function FreshCoreCalls(wasInitialized: bool, url: Url, rom: seq<byte>): seq<CoreCall> {
    InitCalls(wasInitialized) + [RetroSetCallbacks, RetroLoadGame(url, rom)]
  }

  class Session {
    var audioVideoInfo: Option<AvInfo>
    var mainBuffer: seq<byte>
    var mainBufferPixelFormat: PixelType
    var currentCore: Core?
    var currentGameType: Option<GameType>
    /** Options queued for the core to read through `GET_VARIABLE`. */
    var coreOptionsToApply: seq<CoreOption>
    /** Options the core has read; the environment callback appends to it. */
    var appliedCoreOptions: seq<CoreOption>
    /** Options the core declared through `SET_VARIABLES`. */
    var currentCoreOptions: seq<CoreOption>
    var pressedButtons: Table
    var currentGameURL: Option<Url>
    var currentSaveFileURL: map<u32, Url>
    var currentStateURL: map<int, Url>
    /** `gameLoopTimer != nil`. */
    var gameLoopRunning: bool
    /** `checkSaveLoop != nil`. */
    var monitoring: bool
    var paused: bool

    /** A session with no core, no game, nothing pressed, and XRGB8888 frames. */
    constructor()
      ensures audioVideoInfo.None? && mainBuffer == [] && mainBufferPixelFormat == FormatXrgb8888
      ensures currentCore == null && currentGameType.None? && currentGameURL.None?
      ensures coreOptionsToApply == [] && appliedCoreOptions == [] && currentCoreOptions == []
      ensures pressedButtons == map[] && currentSaveFileURL == map[] && currentStateURL == map[]
      ensures !gameLoopRunning && !monitoring && !paused
    {
      audioVideoInfo := None;
      mainBuffer := [];
      mainBufferPixelFormat := FormatXrgb8888;
      currentCore := null;
      currentGameType := None;
      coreOptionsToApply := [];
      appliedCoreOptions := [];
      currentCoreOptions := [];
      pressedButtons := map[];
      currentGameURL := None;
      currentSaveFileURL := map[];
      currentStateURL := map[];
      gameLoopRunning := false;
      monitoring := false;
      paused := false;
    }

    /**
     * `attachCore(core:)` as written: with a core attached it compares the type of the
     * optional holding it with the concrete type of the new core, which never match, so
     * the new core always replaces the attached one.
     */
    method AttachCoreAsWritten(core: Core)
      modifies this`currentCore
      ensures currentCore == core
    {
      if currentCore == null {
        currentCore := core;
      } else {
        if TypeOfOptional(currentCore) == TypeOfCore(core) {
          return;
        } else {
          currentCore := core;
        }
      }
    }

    /** `attachCore(core:)` as intended: a core of the kind already attached is ignored; any other replaces it. */
    method AttachCore(core: Core)
      modifies this`currentCore
      ensures currentCore == if old(currentCore) != null && old(currentCore).kind == core.kind then old(currentCore) else core
    {
      if currentCore == null {
        currentCore := core;
      } else {
        if currentCore.kind == core.kind {
          return;
        } else {
          currentCore := core;
        }
      }
    }

    /** `startGameLoop()`: starts the loop and the save monitor, and unpauses, unless the loop is already running. */
    method StartGameLoop()
      modifies this`gameLoopRunning, this`monitoring, this`paused
      ensures gameLoopRunning
      ensures old(gameLoopRunning) ==> monitoring == old(monitoring) && paused == old(paused)
      ensures !old(gameLoopRunning) ==> monitoring && !paused
    {
      if !gameLoopRunning {
        gameLoopRunning := true;
        monitoring := true;
        paused := false;
      }
    }

    /** `stopGameLoop()`: stops the loop and the save monitor, and pauses. */
    method StopGameLoop()
      modifies this`gameLoopRunning, this`monitoring, this`paused
      ensures !gameLoopRunning && !monitoring && paused
    {
      gameLoopRunning := false;
      monitoring := false;
      paused := true;
    }

    /** One tick of the game loop: runs the core one frame unless paused. */
    method GameLoopTick(memoryAfter: map<u32, seq<byte>>)
      modifies currentCore
      ensures currentCore != null && !paused ==>
        currentCore.calls == old(currentCore.calls) + [RetroRun] && currentCore.memory == memoryAfter &&
        currentCore.currentSaveRamSnapshot == old(currentCore.currentSaveRamSnapshot) &&
        currentCore.loadedGame == old(currentCore.loadedGame) && currentCore.initialized == old(currentCore.initialized) &&
        currentCore.paused == old(currentCore.paused) && currentCore.audioVideoInfo == old(currentCore.audioVideoInfo) &&
        currentCore.defaultCoreOptions == old(currentCore.defaultCoreOptions)
      ensures currentCore != null && paused ==> unchanged(currentCore)
    {
      if !paused {
        if currentCore != null {
          currentCore.RetroRunStep(memoryAfter);
        }
      }
    }

    /**
     * One tick of the save monitor: unless paused, checks every save region of the
     * current game type in turn and saves each one the check reports as changed. The
     * game type and the URL of a changed region are force-unwrapped.
     */
    method MonitorTick(fs: FileSystem)
      requires !paused ==> currentGameType.Some?
      requires !paused && currentCore != null ==>
        MonitorReady(currentCore.currentSaveRamSnapshot, currentCore.memory, currentGameType.value.supportedSaveFiles, currentSaveFileURL)
      modifies currentCore, fs
      ensures currentCore != null && !paused ==>
        (currentCore.currentSaveRamSnapshot, fs.files) ==
          MonitorPass(old(currentCore.currentSaveRamSnapshot), old(currentCore.memory), old(fs.files),
                      currentGameType.value.supportedSaveFiles, currentSaveFileURL)
      ensures currentCore != null ==>
        currentCore.memory == old(currentCore.memory) && currentCore.calls == old(currentCore.calls) &&
        currentCore.loadedGame == old(currentCore.loadedGame) && currentCore.initialized == old(currentCore.initialized) &&
        currentCore.paused == old(currentCore.paused) && currentCore.audioVideoInfo == old(currentCore.audioVideoInfo) &&
        currentCore.defaultCoreOptions == old(currentCore.defaultCoreOptions)
      ensures paused || currentCore == null ==> unchanged(fs) && (currentCore != null ==> unchanged(currentCore))
    {
      if paused {
        return;
      }
      var regions := currentGameType.value.supportedSaveFiles;
      if currentCore == null {
        return;
      }
      var core := currentCore;
      ghost var snap0 := core.currentSaveRamSnapshot;
      ghost var files0 := fs.files;
      var i := 0;
      while i < |regions|
        invariant 0 <= i <= |regions|
        invariant core.memory == old(core.memory) && core.calls == old(core.calls)
        invariant core.loadedGame == old(core.loadedGame) && core.initialized == old(core.initialized)
        invariant core.paused == old(core.paused) && core.audioVideoInfo == old(core.audioVideoInfo)
        invariant core.defaultCoreOptions == old(core.defaultCoreOptions)
        invariant MonitorReady(core.currentSaveRamSnapshot, core.memory, regions[i..], currentSaveFileURL)
        invariant MonitorPass(core.currentSaveRamSnapshot, core.memory, fs.files, regions[i..], currentSaveFileURL)
                  == MonitorPass(snap0, core.memory, files0, regions, currentSaveFileURL)
      {
        var id := regions[i];
        assert regions[i..][0] == id && regions[i..][1..] == regions[i + 1..];
        var checkResult := core.CheckForSaveRamModification(id);
        if checkResult {
          core.SaveMemoryData(id, currentSaveFileURL[id], fs);
        }
        i := i + 1;
      }
    }

    /** Everything `prepareCore` needs: a core to load into, a readable ROM, and a save URL for every region. */
    predicate CanPrepare(gameURL: Url, gameType: GameType, associatedCore: Core, saveFileURLs: map<u32, Url>, fs: FileSystem)
      reads this, fs
    {
      && associatedCore != currentCore
      && (Swaps(currentGameType, gameType) || currentCore != null)
      && gameURL in fs.files
      && forall k | k in gameType.supportedSaveFiles :: k in saveFileURLs
    }

    /** The restore loop of game preparation over `regions`, with the session's save file URLs. */
    method RestoreSaves(regions: seq<u32>, fs: FileSystem)
      requires currentCore != null && forall k | k in regions :: k in currentSaveFileURL
      modifies currentCore, fs
      ensures (currentCore.memory, currentCore.currentSaveRamSnapshot, fs.files) ==
        Restore(old(currentCore.memory), old(currentCore.currentSaveRamSnapshot), old(fs.files), regions, currentSaveFileURL)
      ensures currentCore.calls == old(currentCore.calls) && currentCore.loadedGame == old(currentCore.loadedGame)
      ensures currentCore.initialized == old(currentCore.initialized) && currentCore.paused == old(currentCore.paused)
      ensures currentCore.audioVideoInfo == old(currentCore.audioVideoInfo)
      ensures currentCore.defaultCoreOptions == old(currentCore.defaultCoreOptions)
    {
      var core := currentCore;
      var urls := currentSaveFileURL;
      var i := 0;
      while i < |regions|
        invariant 0 <= i <= |regions|
        invariant forall k | k in regions[i..] :: k in urls
        invariant Restore(core.memory, core.currentSaveRamSnapshot, fs.files, regions[i..], urls)
                  == Restore(old(core.memory), old(core.currentSaveRamSnapshot), old(fs.files), regions, urls)
        invariant core.calls == old(core.calls) && core.loadedGame == old(core.loadedGame)
        invariant core.initialized == old(core.initialized) && core.paused == old(core.paused)
        invariant core.audioVideoInfo == old(core.audioVideoInfo) && core.defaultCoreOptions == old(core.defaultCoreOptions)
      {
        var id := regions[i];
        assert regions[i..][0] == id && regions[i..][1..] == regions[i + 1..];
        if urls[id] in fs.files {
          core.LoadBatterySave(urls[id], id, fs);
        } else {
          core.SaveMemoryData(id, urls[id], fs);
          core.TakeInitialSaveRamSnapshot(id);
        }
        i := i + 1;
      }
    }

    /** Loads the game into the current core, publishes the outcome, and restores the save regions. */
    method LoadWithSaves(gameURL: Url, accepts: bool, memoryAfterLoad: map<u32, seq<byte>>, regions: seq<u32>, fs: FileSystem)
      requires currentCore != null && gameURL in fs.files
      requires forall k | k in regions :: k in currentSaveFileURL
      modifies this`currentGameURL, currentCore, fs
      ensures currentGameURL == (if accepts then Some(gameURL) else None) && currentCore.loadedGame == currentGameURL
      ensures currentCore.calls == old(currentCore.calls) + [RetroLoadGame(gameURL, old(fs.files)[gameURL])]
      ensures (currentCore.memory, currentCore.currentSaveRamSnapshot, fs.files) ==
        Restore(memoryAfterLoad, old(currentCore.currentSaveRamSnapshot), old(fs.files), regions, currentSaveFileURL)
      ensures currentCore.initialized == old(currentCore.initialized) && currentCore.paused == old(currentCore.paused)
      ensures currentCore.audioVideoInfo == old(currentCore.audioVideoInfo)
      ensures currentCore.defaultCoreOptions == old(currentCore.defaultCoreOptions)
    {
      var loaded := currentCore.LoadGame(gameURL, accepts, memoryAfterLoad, fs);
      currentGameURL := if loaded then Some(gameURL) else None;
      RestoreSaves(regions, fs);
    }

    /**
     * The game-type change in `prepareCore`: the attached core (if any) is deinitialised,
     * the game type recorded, the type's core attached, initialised (publishing its AV
     * info on a first initialisation) and given the callbacks.
     */
    method SwapCore(gameType: GameType, associatedCore: Core)
      requires associatedCore != currentCore
      modifies this`currentCore, this`currentGameType, this`audioVideoInfo, currentCore, associatedCore
      ensures currentCore == associatedCore && currentGameType == Some(gameType) && associatedCore.initialized
      ensures associatedCore.calls == old(associatedCore.calls) +
        (if old(associatedCore.initialized) then [] else [RetroSetEnvironment, RetroInit, RetroGetSystemAvInfo]) + [RetroSetCallbacks]
      ensures audioVideoInfo == if old(associatedCore.initialized) then old(audioVideoInfo) else Some(associatedCore.reportedAvInfo)
      ensures associatedCore.memory == old(associatedCore.memory) && associatedCore.loadedGame == old(associatedCore.loadedGame)
      ensures associatedCore.currentSaveRamSnapshot == old(associatedCore.currentSaveRamSnapshot)
      ensures associatedCore.paused == old(associatedCore.paused)
      ensures associatedCore.defaultCoreOptions == old(associatedCore.defaultCoreOptions)
      ensures associatedCore.audioVideoInfo ==
        if old(associatedCore.initialized) then old(associatedCore.audioVideoInfo) else associatedCore.reportedAvInfo
      ensures old(currentCore) != null ==>
        !old(currentCore).initialized &&
        old(currentCore).calls == old(currentCore.calls) + (if old(currentCore.initialized) then [RetroDeinit] else [])
    {
      if currentCore != null {
        currentCore.DeinitializeCore();
      }
      currentCore := null;
      currentGameType := Some(gameType);
      AttachCore(associatedCore);
      var published := currentCore.InitializeCore();
      if published.Some? {
        audioVideoInfo := published;
      }
      currentCore.SetInputOutputCallbacks();
    }

    /**
     * `prepareCore(gameURL:gameType:stateURLs:saveFileURLs:)`. When the game type's name
     * differs from the current one, the type's core replaces the attached one. Then the
     * URLs are recorded, the core's default options are queued, the game is loaded (its
     * result only published), and every save region is restored.
     */
    method PrepareCore(gameURL: Url, gameType: GameType, associatedCore: Core, stateURLs: map<int, Url>,
                       saveFileURLs: map<u32, Url>, accepts: bool, memoryAfterLoad: map<u32, seq<byte>>, fs: FileSystem)
      requires CanPrepare(gameURL, gameType, associatedCore, saveFileURLs, fs)
      modifies this`currentCore, this`currentGameType, this`audioVideoInfo, this`currentStateURL, this`currentSaveFileURL
      modifies this`coreOptionsToApply, this`currentGameURL, currentCore, associatedCore, fs
      ensures Swaps(old(currentGameType), gameType) ==>
        currentCore == associatedCore && currentGameType == Some(gameType) &&
        currentCore.calls == old(associatedCore.calls) + FreshCoreCalls(old(associatedCore.initialized), gameURL, old(fs.files)[gameURL]) &&
        audioVideoInfo == (if old(associatedCore.initialized) then old(audioVideoInfo) else Some(associatedCore.reportedAvInfo)) &&
        (currentCore.memory, currentCore.currentSaveRamSnapshot, fs.files) ==
          Restore(memoryAfterLoad, old(associatedCore.currentSaveRamSnapshot), old(fs.files), gameType.supportedSaveFiles, saveFileURLs)
      ensures Swaps(old(currentGameType), gameType) && old(currentCore) != null ==>
        !old(currentCore).initialized &&
        old(currentCore).calls == old(currentCore.calls) + (if old(currentCore.initialized) then [RetroDeinit] else [])
      ensures !Swaps(old(currentGameType), gameType) ==>
        currentCore == old(currentCore) && currentGameType == old(currentGameType) && audioVideoInfo == old(audioVideoInfo) &&
        currentCore.calls == old(currentCore.calls) + [RetroLoadGame(gameURL, old(fs.files)[gameURL])] &&
        (currentCore.memory, currentCore.currentSaveRamSnapshot, fs.files) ==
          Restore(memoryAfterLoad, old(currentCore.currentSaveRamSnapshot), old(fs.files), gameType.supportedSaveFiles, saveFileURLs)
      ensures currentCore != null
      ensures currentCore.initialized == (Swaps(old(currentGameType), gameType) || old(currentCore.initialized))
      ensures currentCore.loadedGame == currentGameURL && currentGameURL == if accepts then Some(gameURL) else None
      ensures currentStateURL == stateURLs && currentSaveFileURL == saveFileURLs
      ensures coreOptionsToApply == old(coreOptionsToApply) + currentCore.defaultCoreOptions
      ensures Swaps(old(currentGameType), gameType) ==>
        coreOptionsToApply == old(coreOptionsToApply) + old(associatedCore.defaultCoreOptions) &&
        currentCore.paused == old(associatedCore.paused) && currentCore.defaultCoreOptions == old(associatedCore.defaultCoreOptions) &&
        currentCore.audioVideoInfo ==
          if old(associatedCore.initialized) then old(associatedCore.audioVideoInfo) else associatedCore.reportedAvInfo
      ensures !Swaps(old(currentGameType), gameType) ==>
        coreOptionsToApply == old(coreOptionsToApply) + old(currentCore.defaultCoreOptions) &&
        currentCore.paused == old(currentCore.paused) && currentCore.defaultCoreOptions == old(currentCore.defaultCoreOptions) &&
        currentCore.audioVideoInfo == old(currentCore.audioVideoInfo) && unchanged(associatedCore)
    {
      if Swaps(currentGameType, gameType) {
        SwapCore(gameType, associatedCore);
      }
      currentStateURL := stateURLs;
      currentSaveFileURL := saveFileURLs;
      coreOptionsToApply := coreOptionsToApply + currentCore.defaultCoreOptions;
      LoadWithSaves(gameURL, accepts, memoryAfterLoad, gameType.supportedSaveFiles, fs);
    }

    /**
     * `startEmulation(gameURL:gameType:stateURLs:saveFileURLs:)`. The game already
     * current is only resumed. Another game stops the loop, is unloaded, and the new one
     * is prepared and the loop started. With no current game the new one is prepared and
     * the loop started (a loop still running is left as it is).
     */
    method StartEmulation(gameURL: Url, gameType: GameType, associatedCore: Core, stateURLs: map<int, Url>,
                          saveFileURLs: map<u32, Url>, accepts: bool, memoryAfterLoad: map<u32, seq<byte>>, fs: FileSystem)
      requires currentGameURL != Some(gameURL) ==> CanPrepare(gameURL, gameType, associatedCore, saveFileURLs, fs)
      modifies this`paused, this`gameLoopRunning, this`monitoring
      modifies this`currentCore, this`currentGameType, this`audioVideoInfo, this`currentStateURL, this`currentSaveFileURL
      modifies this`coreOptionsToApply, this`currentGameURL, currentCore, associatedCore, fs
      ensures old(currentGameURL) == Some(gameURL) ==>
        && !paused && gameLoopRunning == old(gameLoopRunning) && monitoring == old(monitoring)
        && currentCore == old(currentCore) && currentGameType == old(currentGameType) && currentGameURL == old(currentGameURL)
        && audioVideoInfo == old(audioVideoInfo) && coreOptionsToApply == old(coreOptionsToApply)
        && currentStateURL == old(currentStateURL) && currentSaveFileURL == old(currentSaveFileURL)
        && unchanged(fs) && unchanged(associatedCore) && (currentCore != null ==> unchanged(currentCore))
      ensures old(currentGameURL) != Some(gameURL) ==>
        && gameLoopRunning && currentCore != null
        && currentGameURL == (if accepts then Some(gameURL) else None) && currentCore.loadedGame == currentGameURL
        && currentStateURL == stateURLs && currentSaveFileURL == saveFileURLs
        && coreOptionsToApply == old(coreOptionsToApply) + currentCore.defaultCoreOptions
        && (Swaps(old(currentGameType), gameType) ==> currentCore == associatedCore && currentGameType == Some(gameType))
        && (!Swaps(old(currentGameType), gameType) ==> currentCore == old(currentCore) && currentGameType == old(currentGameType))
        && (currentCore.memory, currentCore.currentSaveRamSnapshot, fs.files) ==
             Restore(memoryAfterLoad,
                     if Swaps(old(currentGameType), gameType) then old(associatedCore.currentSaveRamSnapshot) else old(currentCore.currentSaveRamSnapshot),
                     old(fs.files), gameType.supportedSaveFiles, saveFileURLs)
      ensures old(currentGameURL) != Some(gameURL) && Swaps(old(currentGameType), gameType) ==>
        coreOptionsToApply == old(coreOptionsToApply) + old(associatedCore.defaultCoreOptions) &&
        currentCore.paused == old(associatedCore.paused) && currentCore.defaultCoreOptions == old(associatedCore.defaultCoreOptions) &&
        currentCore.audioVideoInfo ==
          if old(associatedCore.initialized) then old(associatedCore.audioVideoInfo) else associatedCore.reportedAvInfo
      ensures old(currentGameURL) != Some(gameURL) && !Swaps(old(currentGameType), gameType) ==>
        coreOptionsToApply == old(coreOptionsToApply) + old(currentCore.defaultCoreOptions) &&
        currentCore.paused == old(currentCore.paused) && currentCore.defaultCoreOptions == old(currentCore.defaultCoreOptions) &&
        currentCore.audioVideoInfo == old(currentCore.audioVideoInfo) && unchanged(associatedCore)
      ensures old(currentGameURL).Some? && old(currentGameURL) != Some(gameURL) ==>
        && monitoring && !paused
        && (!Swaps(old(currentGameType), gameType) ==>
              currentCore.calls == old(currentCore.calls) + [RetroUnloadGame, RetroLoadGame(gameURL, old(fs.files)[gameURL])])
        && (Swaps(old(currentGameType), gameType) ==>
              currentCore.calls == old(associatedCore.calls) + FreshCoreCalls(old(associatedCore.initialized), gameURL, old(fs.files)[gameURL]))
        && (Swaps(old(currentGameType), gameType) && old(currentCore) != null ==>
              !old(currentCore).initialized &&
              old(currentCore).calls == old(currentCore.calls) + [RetroUnloadGame] + (if old(currentCore.initialized) then [RetroDeinit] else []))
      ensures old(currentGameURL).None? ==>
        && (old(gameLoopRunning) ==> paused == old(paused) && monitoring == old(monitoring))
        && (!old(gameLoopRunning) ==> !paused && monitoring)
        && (!Swaps(old(currentGameType), gameType) ==>
              currentCore.calls == old(currentCore.calls) + [RetroLoadGame(gameURL, old(fs.files)[gameURL])])
        && (Swaps(old(currentGameType), gameType) ==>
              currentCore.calls == old(associatedCore.calls) + FreshCoreCalls(old(associatedCore.initialized), gameURL, old(fs.files)[gameURL]))
    {
      if currentGameURL.Some? {
        if currentGameURL == Some(gameURL) {
          ResumeEmulation();
        } else {
          StopGameLoop();
          if currentCore != null {
            currentCore.UnloadGame();
            currentGameURL := None;
          }
          PrepareCore(gameURL, gameType, associatedCore, stateURLs, saveFileURLs, accepts, memoryAfterLoad, fs);
          StartGameLoop();
        }
      } else {
        PrepareCore(gameURL, gameType, associatedCore, stateURLs, saveFileURLs, accepts, memoryAfterLoad, fs);
        StartGameLoop();
      }
    }

    /**
     * `startEmulation(gameURL:)`: starts a game with the attached core and game type. The
     * game already current is only resumed. Another game stops the loop; the core unloads
     * it, is deinitialised and initialised again (publishing its AV info), loads the new
     * game, restores the save regions and gets the callbacks; then the loop starts. With
     * no current game the core is initialised (if needed), loads, restores and gets the
     * callbacks, and the loop starts. Without a core only the loop changes.
     */
    method StartEmulationWithURL(gameURL: Url, accepts: bool, memoryAfterLoad: map<u32, seq<byte>>, fs: FileSystem)
      requires currentGameURL != Some(gameURL) ==> currentGameType.Some?
      requires currentGameURL != Some(gameURL) && currentCore != null ==>
        gameURL in fs.files && forall k | k in currentGameType.value.supportedSaveFiles :: k in currentSaveFileURL
      modifies this`paused, this`gameLoopRunning, this`monitoring, this`audioVideoInfo, this`currentGameURL, currentCore, fs
      ensures old(currentGameURL) == Some(gameURL) ==>
        && !paused && gameLoopRunning == old(gameLoopRunning) && monitoring == old(monitoring)
        && currentGameURL == old(currentGameURL) && audioVideoInfo == old(audioVideoInfo)
        && unchanged(fs) && (currentCore != null ==> unchanged(currentCore))
      ensures old(currentGameURL) != Some(gameURL) && currentCore == null ==>
        && gameLoopRunning && currentGameURL == old(currentGameURL) && audioVideoInfo == old(audioVideoInfo) && unchanged(fs)
      ensures old(currentGameURL) != Some(gameURL) && currentCore != null ==>
        && gameLoopRunning && currentCore.initialized
        && currentGameURL == (if accepts then Some(gameURL) else None) && currentCore.loadedGame == currentGameURL
        && (currentCore.memory, currentCore.currentSaveRamSnapshot, fs.files) ==
             Restore(memoryAfterLoad, old(currentCore.currentSaveRamSnapshot), old(fs.files),
                     currentGameType.value.supportedSaveFiles, currentSaveFileURL)
        && currentCore.paused == old(currentCore.paused) && currentCore.defaultCoreOptions == old(currentCore.defaultCoreOptions)
        && currentCore.audioVideoInfo ==
             if old(currentCore.initialized) && old(currentGameURL).None? then old(currentCore.audioVideoInfo) else currentCore.reportedAvInfo
      ensures old(currentGameURL).Some? && old(currentGameURL) != Some(gameURL) ==>
        && monitoring && !paused
        && (currentCore != null ==>
              currentCore.calls == old(currentCore.calls) + [RetroUnloadGame] + (if old(currentCore.initialized) then [RetroDeinit] else [])
                + InitCalls(false) + [RetroLoadGame(gameURL, old(fs.files)[gameURL]), RetroSetCallbacks] &&
              audioVideoInfo == Some(currentCore.reportedAvInfo))
      ensures old(currentGameURL).None? ==>
        && (old(gameLoopRunning) ==> paused == old(paused) && monitoring == old(monitoring))
        && (!old(gameLoopRunning) ==> !paused && monitoring)
        && (currentCore != null ==>
              currentCore.calls == old(currentCore.calls) + InitCalls(old(currentCore.initialized))
                + [RetroLoadGame(gameURL, old(fs.files)[gameURL]), RetroSetCallbacks] &&
              audioVideoInfo == if old(currentCore.initialized) then old(audioVideoInfo) else Some(currentCore.reportedAvInfo))
    {
      if currentGameURL.Some? {
        if currentGameURL == Some(gameURL) {
          ResumeEmulation();
        } else {
          StopGameLoop();
          if currentCore != null {
            currentCore.UnloadGame();
            currentGameURL := None;
            currentCore.DeinitializeCore();
            BootCore(gameURL, accepts, memoryAfterLoad, fs);
          }
          StartGameLoop();
        }
      } else {
        if currentCore != null {
          BootCore(gameURL, accepts, memoryAfterLoad, fs);
        }
        StartGameLoop();
      }
    }

    /**
     * The core's part of `startEmulation(gameURL:)`: the attached core is initialised
     * (publishing its AV info on a first initialisation), loads the game, has the save
     * regions restored and gets the callbacks.
     */
    method BootCore(gameURL: Url, accepts: bool, memoryAfterLoad: map<u32, seq<byte>>, fs: FileSystem)
      requires currentCore != null && currentGameType.Some? && gameURL in fs.files
      requires forall k | k in currentGameType.value.supportedSaveFiles :: k in currentSaveFileURL
      modifies this`audioVideoInfo, this`currentGameURL, currentCore, fs
      ensures currentCore.initialized
      ensures currentGameURL == (if accepts then Some(gameURL) else None) && currentCore.loadedGame == currentGameURL
      ensures (currentCore.memory, currentCore.currentSaveRamSnapshot, fs.files) ==
        Restore(memoryAfterLoad, old(currentCore.currentSaveRamSnapshot), old(fs.files),
                currentGameType.value.supportedSaveFiles, currentSaveFileURL)
      ensures currentCore.calls == old(currentCore.calls) + InitCalls(old(currentCore.initialized))
        + [RetroLoadGame(gameURL, old(fs.files)[gameURL]), RetroSetCallbacks]
      ensures audioVideoInfo == if old(currentCore.initialized) then old(audioVideoInfo) else Some(currentCore.reportedAvInfo)
      ensures currentCore.paused == old(currentCore.paused) && currentCore.defaultCoreOptions == old(currentCore.defaultCoreOptions)
      ensures currentCore.audioVideoInfo ==
        if old(currentCore.initialized) then old(currentCore.audioVideoInfo) else currentCore.reportedAvInfo
    {
      var published := currentCore.InitializeCore();
      if published.Some? {
        audioVideoInfo := published;
      }
      LoadWithSaves(gameURL, accepts, memoryAfterLoad, currentGameType.value.supportedSaveFiles, fs);
      currentCore.SetInputOutputCallbacks();
    }

    /** `pauseEmulation()`. */
    method PauseEmulation()
      modifies this`paused
      ensures paused
    {
      paused := true;
    }

    /** `resumeEmulation()`. */
    method ResumeEmulation()
      modifies this`paused
      ensures !paused
    {
      paused := false;
    }

    /**
     * Creates, one level at a time, whatever is missing on the way to
     * `pressedButtons[port][device][0][id]`, and the entry itself with `initial`.
     */
    method EnsureButton(port: u32, device: u32, id: u32, initial: i16)
      modifies this`pressedButtons
      ensures pressedButtons == EnsureEntry(old(pressedButtons), port, device, id, initial)
    {
      var table := pressedButtons;
      var first: u32 := 0;
      if port !in table {
        var noDevices: map<u32, map<u32, map<u32, i16>>> := map[];
        table := table[port := noDevices];
      }
      assert table == AddPort(pressedButtons, port);
      ghost var withPort := table;
      if device !in table[port] {
        var noIndexes: map<u32, map<u32, i16>> := map[];
        var devices: map<u32, map<u32, map<u32, i16>>> := table[port][device := noIndexes];
        table := table[port := devices];
      }
      assert table == AddDevice(withPort, port, device);
      ghost var withDevice := table;
      if first !in table[port][device] {
        var noIds: map<u32, i16> := map[];
        var indexes: map<u32, map<u32, i16>> := table[port][device][first := noIds];
        var devices: map<u32, map<u32, map<u32, i16>>> := table[port][device := indexes];
        table := table[port := devices];
      }
      assert table == AddIndex(withDevice, port, device, first);
      ghost var withIndex := table;
      if id !in table[port][device][first] {
        var ids: map<u32, i16> := table[port][device][first][id := initial];
        var indexes: map<u32, map<u32, i16>> := table[port][device][first := ids];
        var devices: map<u32, map<u32, map<u32, i16>>> := table[port][device := indexes];
        table := table[port := devices];
      }
      assert table == AddButton(withIndex, port, device, first, id, initial);
      pressedButtons := table;
    }

    /** `pressButton(port:device:index:button:)` with a numeric id. */
    method PressButton(port: u32, device: u32, index: u32, id: u32)
      modifies this`pressedButtons
      ensures pressedButtons == Press(old(pressedButtons), port, device, index, id)
    {
      EnsureButton(port, device, id, 1);
      pressedButtons := WriteIfPathExists(pressedButtons, port, device, index, id, 1);
    }

    /** `unpressButton(port:device:index:button:)` with a numeric id. */
    method UnpressButton(port: u32, device: u32, index: u32, id: u32)
      modifies this`pressedButtons
      ensures pressedButtons == Unpress(old(pressedButtons), port, device, index, id)
    {
      pressedButtons := WriteIfPathExists(pressedButtons, port, device, index, id, 0);
    }

    /** `pressButton(port:device:index:button:)` with a logical button, whose numeric ids are `ids`. */
    method PressButtons(port: u32, device: u32, index: u32, ids: seq<u32>)
      modifies this`pressedButtons
      ensures pressedButtons == PressAll(old(pressedButtons), port, device, index, ids)
    {
      for k := 0 to |ids|
        invariant PressAll(pressedButtons, port, device, index, ids[k..]) == PressAll(old(pressedButtons), port, device, index, ids)
      {
        assert ids[k..][0] == ids[k] && ids[k..][1..] == ids[k + 1..];
        PressButton(port, device, index, ids[k]);
      }
    }

    /** `unpressButton(port:device:index:button:)` with a logical button, whose numeric ids are `ids`. */
    method UnpressButtons(port: u32, device: u32, index: u32, ids: seq<u32>)
      modifies this`pressedButtons
      ensures pressedButtons == UnpressAll(old(pressedButtons), port, device, index, ids)
    {
      for k := 0 to |ids|
        invariant UnpressAll(pressedButtons, port, device, index, ids[k..]) == UnpressAll(old(pressedButtons), port, device, index, ids)
      {
        assert ids[k..][0] == ids[k] && ids[k..][1..] == ids[k + 1..];
        UnpressButton(port, device, index, ids[k]);
      }
    }
  }

  /**
   * With `attachCore` as written, attaching a second core of the same kind replaces the
   * first: the type comparison meant to recognise it never holds.
   */
  method AttachSameKindAsWritten(s: Session, first: Core, second: Core)
    requires first.kind == second.kind && first != second
    modifies s`currentCore
    ensures s.currentCore == second && s.currentCore != first
  {
    s.AttachCoreAsWritten(first);
    s.AttachCoreAsWritten(second);
  }

  /** With `attachCore` as intended, the core attached first stays attached. */
  method AttachSameKind(s: Session, first: Core, second: Core)
    requires first.kind == second.kind && s.currentCore == null
    modifies s`currentCore
    ensures s.currentCore == first
  {
    s.AttachCore(first);
    s.AttachCore(second);
  }
}
