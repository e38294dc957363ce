/**
 * The frontend side of a libretro core (`ArcadiaCoreProtocol`'s extension methods): the
 * lifecycle flags, game loading, and the save-RAM tracker that snapshots a memory region,
 * detects changes to it, and loads a battery save into it.
 *
 * The core itself is foreign code. A `Core` holds what the frontend sees of it: its save
 * regions (`retroGetMemoryData` is non-NULL exactly for the regions in `memory`, and
 * `retroGetMemorySize` is the region's length, 0 for a missing region), the AV info it
 * reports, and the log `calls` of every entry point the frontend invoked, in order.
 * Files are a `FileSystem` mapping paths to contents.
 */
module CoreProtocol {
  import opened Common
  import opened CoreOptions

  /** A file URL, identified by its path. */
  type Url = string

  /** `retro_game_geometry`; the aspect ratio is carried, never computed with. */
  datatype Geometry = Geometry(baseWidth: u32, baseHeight: u32, maxWidth: u32, maxHeight: u32, aspectRatio: real)

  /** `retro_system_timing`. */
  datatype Timing = Timing(fps: real, sampleRate: real)

  /** `retro_system_av_info`. */
  datatype AvInfo = AvInfo(geometry: Geometry, timing: Timing)

  /** The entry points of the core the frontend calls. */
  datatype CoreCall =
    | RetroSetEnvironment
    | RetroInit
    | RetroGetSystemAvInfo
    | RetroDeinit
    | RetroRun
    | RetroLoadGame(path: Url, rom: seq<byte>)
    | RetroUnloadGame
    | RetroSetCallbacks

  class FileSystem {
    var files: map<Url, seq<byte>>

    constructor(files: map<Url, seq<byte>>)
      ensures this.files == files
    {
      this.files := files;
    }
  }

  /** The snapshot map of save regions, `nil` until a concrete core sets it up. */
  type Snapshots = Option<map<u32, seq<byte>>>

  /** `m1` and `m2` agree on key `k`. */
  predicate SameAt<K, V(==)>(m1: map<K, V>, m2: map<K, V>, k: K) {
    (k in m1 <==> k in m2) && (k in m1 ==> m1[k] == m2[k])
  }

  /** Two snapshot maps are both `nil`, or both set and agreeing on `k`. */
  predicate SnapSameAt(s1: Snapshots, s2: Snapshots, k: u32) {
    s1.Some? == s2.Some? && (s1.Some? ==> SameAt(s1.value, s2.value, k))
  }

  /** `retroGetMemorySize`. */
  function MemorySize(memory: map<u32, seq<byte>>, id: u32): nat {
    if id in memory then |memory[id]| else 0
  }

  // ---------------------------------------------------------------- save-RAM tracker, as values

  /** `currentSaveRamSnapshot?[id] = bytes`: no effect while the snapshot map is `nil`. */
  function Record(snap: Snapshots, id: u32, bytes: seq<byte>): (r: Snapshots)
    ensures r.Some? <==> snap.Some?
    ensures r.Some? ==> id in r.value && r.value[id] == bytes
    ensures r.Some? ==> forall k | k in snap.value && k != id :: k in r.value && r.value[k] == snap.value[k]
    ensures r.Some? ==> r.value.Keys == snap.value.Keys + {id}
  {
    if snap.Some? then Some(snap.value[id := bytes]) else None
  }

  /** The check reports a change: the region exists, is tracked, and differs from its snapshot. */
  predicate Modified(snap: Snapshots, memory: map<u32, seq<byte>>, id: u32) {
    id in memory && snap.Some? && id in snap.value && memory[id] != snap.value[id]
  }

  /** The snapshots after `checkForSaveRamModification(id)`: a changed region's snapshot is replaced. */
  function AfterCheck(snap: Snapshots, memory: map<u32, seq<byte>>, id: u32): Snapshots {
    if Modified(snap, memory, id) then Record(snap, id, memory[id]) else snap
  }

  /** The snapshots after `takeInitialSaveRamSnapshot(id)`: only a non-empty region is recorded. */
  function AfterTake(snap: Snapshots, memory: map<u32, seq<byte>>, id: u32): Snapshots {
    if id in memory && |memory[id]| > 0 then Record(snap, id, memory[id]) else snap
  }

  /** `saveMemoryData(id, url)`: the region's bytes replace the file, unless the region is empty or missing. */
  function AfterSave(files: map<Url, seq<byte>>, memory: map<u32, seq<byte>>, id: u32, url: Url): map<Url, seq<byte>> {
    if MemorySize(memory, id) == 0 then files else files[url := memory[id]]
  }

  /** `loadBatterySave` applies only when the region exists and the file exists with exactly the region's size. */
  predicate LoadApplies(memory: map<u32, seq<byte>>, files: map<Url, seq<byte>>, id: u32, url: Url) {
    id in memory && url in files && |files[url]| == |memory[id]|
  }

  /** After a check, a second check of the same region reports nothing. */
  lemma CheckSettles(snap: Snapshots, memory: map<u32, seq<byte>>, id: u32)
    ensures !Modified(AfterCheck(snap, memory, id), memory, id)
    ensures AfterCheck(AfterCheck(snap, memory, id), memory, id) == AfterCheck(snap, memory, id)
  {
  }

  /** A check reports a change exactly when the snapshot it leaves differs from the one before. */
  lemma CheckReportsChange(snap: Snapshots, memory: map<u32, seq<byte>>, id: u32)
    ensures Modified(snap, memory, id) <==> AfterCheck(snap, memory, id) != snap
  {
    if Modified(snap, memory, id) {
      assert AfterCheck(snap, memory, id).value[id] != snap.value[id];
    }
  }

  /** A check never touches the snapshot of another region. */
  lemma CheckFrames(snap: Snapshots, memory: map<u32, seq<byte>>, id: u32, other: u32)
    requires other != id
    ensures Modified(AfterCheck(snap, memory, id), memory, other) == Modified(snap, memory, other)
  {
  }

  /** Right after a snapshot of a non-empty region, a check reports nothing. */
  lemma TakeThenCheck(snap: Snapshots, memory: map<u32, seq<byte>>, id: u32)
    requires id in memory && |memory[id]| > 0
    ensures !Modified(AfterTake(snap, memory, id), memory, id)
  {
  }

  /** Right after a battery save is loaded, memory holds the file and a check reports nothing. */
  lemma LoadThenCheck(snap: Snapshots, memory: map<u32, seq<byte>>, files: map<Url, seq<byte>>, id: u32, url: Url)
    requires LoadApplies(memory, files, id, url)
    ensures memory[id := files[url]][id] == files[url]
    ensures !Modified(Record(snap, id, files[url]), memory[id := files[url]], id)
  {
  }

  // ---------------------------------------------------------------- the core

  class Core {
    /** The concrete core type behind the protocol existential. */
    const kind: nat
    /** What `retroGetSystemAVInfo` fills in. */
    const reportedAvInfo: AvInfo

    var paused: bool
    var initialized: bool
    var loadedGame: Option<Url>
    var currentSaveRamSnapshot: Snapshots
    var defaultCoreOptions: seq<CoreOption>
    var audioVideoInfo: AvInfo
    var memory: map<u32, seq<byte>>
    var calls: seq<CoreCall>

    /** A core as its concrete type creates it: not initialised, no game, nothing called yet. */
    constructor(kind: nat, reportedAvInfo: AvInfo, memory: map<u32, seq<byte>>, snapshots: Snapshots,
                defaultCoreOptions: seq<CoreOption>, audioVideoInfo: AvInfo)
      ensures this.kind == kind && this.reportedAvInfo == reportedAvInfo
      ensures this.memory == memory && currentSaveRamSnapshot == snapshots
      ensures this.defaultCoreOptions == defaultCoreOptions && this.audioVideoInfo == audioVideoInfo
      ensures !paused && !initialized && loadedGame.None? && calls == []
    {
      this.kind := kind;
      this.reportedAvInfo := reportedAvInfo;
      this.memory := memory;
      this.currentSaveRamSnapshot := snapshots;
      this.defaultCoreOptions := defaultCoreOptions;
      this.audioVideoInfo := audioVideoInfo;
      paused := false;
      initialized := false;
      loadedGame := None;
      calls := [];
    }

    /**
     * `initializeCore()`: on the first call since the last deinitialisation, installs the
     * environment callback, initialises the core and fetches its AV info, which it also
     * publishes to the session (returned in `published`); otherwise does nothing.
     */
    method InitializeCore() returns (published: Option<AvInfo>)
      modifies this
      ensures initialized
      ensures old(initialized) ==> published.None? && calls == old(calls) && audioVideoInfo == old(audioVideoInfo)
      ensures !old(initialized) ==> published == Some(reportedAvInfo) && audioVideoInfo == reportedAvInfo
      ensures !old(initialized) ==> calls == old(calls) + [RetroSetEnvironment, RetroInit, RetroGetSystemAvInfo]
      ensures paused == old(paused) && loadedGame == old(loadedGame) && memory == old(memory)
      ensures currentSaveRamSnapshot == old(currentSaveRamSnapshot) && defaultCoreOptions == old(defaultCoreOptions)
    {
      published := None;
      if !initialized {
        calls := calls + [RetroSetEnvironment, RetroInit, RetroGetSystemAvInfo];
        audioVideoInfo := reportedAvInfo;
        published := Some(reportedAvInfo);
        initialized := true;
      }
    }

    /** `deinitializeCore()`: deinitialises an initialised core; otherwise does nothing. */
    method DeinitializeCore()
      modifies this
      ensures !initialized
      ensures calls == if old(initialized) then old(calls) + [RetroDeinit] else old(calls)
      ensures paused == old(paused) && loadedGame == old(loadedGame) && memory == old(memory)
      ensures currentSaveRamSnapshot == old(currentSaveRamSnapshot) && audioVideoInfo == old(audioVideoInfo)
      ensures defaultCoreOptions == old(defaultCoreOptions)
    {
      if initialized {
        calls := calls + [RetroDeinit];
        initialized := false;
      }
    }

    /**
     * `loadGame(gameURL:)`: hands the ROM at `url` to the core; `accepts` is the core's
     * answer and `memoryAfter` the save regions it exposes once the game is loaded. The
     * loaded game (also published as the session's current game) becomes `url` when the
     * core accepts it and `nil` otherwise. A ROM that cannot be read is fatal.
     */
    method LoadGame(url: Url, accepts: bool, memoryAfter: map<u32, seq<byte>>, fs: FileSystem) returns (result: bool)
      requires url in fs.files
      modifies this
      ensures result == accepts
      ensures loadedGame == if accepts then Some(url) else None
      ensures calls == old(calls) + [RetroLoadGame(url, fs.files[url])] && memory == memoryAfter
      ensures paused == old(paused) && initialized == old(initialized)
      ensures currentSaveRamSnapshot == old(currentSaveRamSnapshot) && audioVideoInfo == old(audioVideoInfo)
      ensures defaultCoreOptions == old(defaultCoreOptions)
    {
      calls := calls + [RetroLoadGame(url, fs.files[url])];
      memory := memoryAfter;
      result := accepts;
      if result {
        loadedGame := Some(url);
      } else {
        loadedGame := None;
      }
    }

    /** `unloadGame()`: unloads the game in the core; the session forgets its current game. */
    method UnloadGame()
      modifies this
      ensures calls == old(calls) + [RetroUnloadGame]
      ensures paused == old(paused) && initialized == old(initialized) && memory == old(memory)
      ensures loadedGame == old(loadedGame) && currentSaveRamSnapshot == old(currentSaveRamSnapshot)
      ensures audioVideoInfo == old(audioVideoInfo) && defaultCoreOptions == old(defaultCoreOptions)
    {
      calls := calls + [RetroUnloadGame];
    }

    /** `setInputOutputCallbacks()`: installs the video, audio and input callbacks. */
    method SetInputOutputCallbacks()
      modifies this
      ensures calls == old(calls) + [RetroSetCallbacks]
      ensures paused == old(paused) && initialized == old(initialized) && memory == old(memory)
      ensures loadedGame == old(loadedGame) && currentSaveRamSnapshot == old(currentSaveRamSnapshot)
      ensures audioVideoInfo == old(audioVideoInfo) && defaultCoreOptions == old(defaultCoreOptions)
    {
      calls := calls + [RetroSetCallbacks];
    }

    /** One `retroRun()`; what the emulated game leaves in its save regions is `memoryAfter`. */
    method RetroRunStep(memoryAfter: map<u32, seq<byte>>)
      modifies this
      ensures calls == old(calls) + [RetroRun] && memory == memoryAfter
      ensures paused == old(paused) && initialized == old(initialized) && loadedGame == old(loadedGame)
      ensures currentSaveRamSnapshot == old(currentSaveRamSnapshot) && audioVideoInfo == old(audioVideoInfo)
      ensures defaultCoreOptions == old(defaultCoreOptions)
    {
      calls := calls + [RetroRun];
      memory := memoryAfter;
    }

    /** `saveMemoryData(memoryId:saveFileURL:)`: writes the region to the file unless it is empty or missing. */
    method SaveMemoryData(id: u32, url: Url, fs: FileSystem)
      modifies fs
      ensures fs.files == AfterSave(old(fs.files), memory, id, url)
    {
      var saveSize := MemorySize(memory, id);
      if saveSize == 0 {
        return;
      }
      fs.files := fs.files[url := memory[id]];
    }

    /** `takeInitialSaveRamSnapshot(memoryDataId:)`. */
    method TakeInitialSaveRamSnapshot(id: u32)
      modifies this
      ensures currentSaveRamSnapshot == AfterTake(old(currentSaveRamSnapshot), memory, id)
      ensures memory == old(memory) && calls == old(calls) && paused == old(paused)
      ensures initialized == old(initialized) && loadedGame == old(loadedGame)
      ensures audioVideoInfo == old(audioVideoInfo) && defaultCoreOptions == old(defaultCoreOptions)
    {
      if id !in memory {
        return;
      }
      var saveRamSize := |memory[id]|;
      if saveRamSize > 0 {
        currentSaveRamSnapshot := Record(currentSaveRamSnapshot, id, memory[id]);
      }
    }

    /** `checkForSaveRamModification(memoryDataId:)`. */
    method CheckForSaveRamModification(id: u32) returns (modified: bool)
      modifies this
      ensures modified == Modified(old(currentSaveRamSnapshot), memory, id)
      ensures currentSaveRamSnapshot == AfterCheck(old(currentSaveRamSnapshot), memory, id)
      ensures memory == old(memory) && calls == old(calls) && paused == old(paused)
      ensures initialized == old(initialized) && loadedGame == old(loadedGame)
      ensures audioVideoInfo == old(audioVideoInfo) && defaultCoreOptions == old(defaultCoreOptions)
    {
      if id !in memory || currentSaveRamSnapshot.None? || id !in currentSaveRamSnapshot.value {
        return false;
      }
      var currentSaveRam := memory[id];
      if currentSaveRam != currentSaveRamSnapshot.value[id] {
        currentSaveRamSnapshot := Record(currentSaveRamSnapshot, id, currentSaveRam);
        return true;
      }
      return false;
    }

    /**
     * `loadBatterySave(from:memoryDataId:)`: copies the file into the region and records it
     * as the region's snapshot, when the region exists and the file exists with the region's size.
     */
    method LoadBatterySave(url: Url, id: u32, fs: FileSystem)
      modifies this
      ensures LoadApplies(old(memory), fs.files, id, url) ==>
        memory == old(memory)[id := fs.files[url]] &&
        currentSaveRamSnapshot == Record(old(currentSaveRamSnapshot), id, fs.files[url])
      ensures !LoadApplies(old(memory), fs.files, id, url) ==>
        memory == old(memory) && currentSaveRamSnapshot == old(currentSaveRamSnapshot)
      ensures calls == old(calls) && paused == old(paused) && initialized == old(initialized)
      ensures loadedGame == old(loadedGame) && audioVideoInfo == old(audioVideoInfo)
      ensures defaultCoreOptions == old(defaultCoreOptions)
    {
      if id !in memory {
        return;
      }
      var saveRamSize := |memory[id]|;
      if url !in fs.files {
        return;
      }
      var data := fs.files[url];
      if |data| != saveRamSize {
        return;
      }
      memory := memory[id := data];
      currentSaveRamSnapshot := Record(currentSaveRamSnapshot, id, data);
    }

    /** `pauseGame()`. */
    method PauseGame()
      modifies this
      ensures paused
      ensures calls == old(calls) && initialized == old(initialized) && loadedGame == old(loadedGame)
      ensures memory == old(memory) && currentSaveRamSnapshot == old(currentSaveRamSnapshot)
      ensures audioVideoInfo == old(audioVideoInfo) && defaultCoreOptions == old(defaultCoreOptions)
    {
      paused := true;
    }

    /** `resumeGame()`. */
    method ResumeGame()
      modifies this
      ensures !paused
      ensures calls == old(calls) && initialized == old(initialized) && loadedGame == old(loadedGame)
      ensures memory == old(memory) && currentSaveRamSnapshot == old(currentSaveRamSnapshot)
      ensures audioVideoInfo == old(audioVideoInfo) && defaultCoreOptions == old(defaultCoreOptions)
    {
      paused := false;
    }
  }

  /** Initialising twice in a row calls into the core once. */
  method InitializeTwice(core: Core)
    modifies core
    ensures core.initialized
    ensures core.calls == if old(core.initialized) then old(core.calls)
                         else old(core.calls) + [RetroSetEnvironment, RetroInit, RetroGetSystemAvInfo]
  {
    var _ := core.InitializeCore();
    var second := core.InitializeCore();
    assert second.None?;
  }

  /** A detected change followed by an immediate second check: the second reports nothing. */
  method CheckTwice(core: Core, id: u32) returns (first: bool, second: bool)
    modifies core
    ensures first == Modified(old(core.currentSaveRamSnapshot), old(core.memory), id)
    ensures !second
  {
    first := core.CheckForSaveRamModification(id);
    CheckSettles(old(core.currentSaveRamSnapshot), core.memory, id);
    second := core.CheckForSaveRamModification(id);
  }
}
