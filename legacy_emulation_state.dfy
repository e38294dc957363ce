/**
 * The earlier revision of the emulation session (`ArcadiaCore/ArcadiaCoreEmulationState.swift`).
 * It knows one save region, region 0, backed by the file `currentSaveFolder`; a game
 * swap re-initialises the core; a missing save file is only snapshotted, never written;
 * the port-indexed press writes only where the table path already exists; and the
 * logical press appends to a queue of pressed buttons.
 */
module LegacyEmulationState {
  import opened Common
  import opened ButtonTable
  import opened CoreProtocol

  /** The one save region this revision handles. */
  const SAVE_REGION: u32 := 0

  /** `fileExists(atPath: currentSaveFolder?.path ?? "")`: there is no file at the empty path. */
  predicate SaveFileExists(folder: Option<Url>, files: map<Url, seq<byte>>) {
    folder.Some? && folder.value in files
  }

  /**
   * Region 0 after the restore step of this revision: an existing save file is loaded as a
   * battery save (when its size fits); otherwise the region is only snapshotted.
   */
  function RestoreRegion(memory: map<u32, seq<byte>>, snap: Snapshots, folder: Option<Url>, files: map<Url, seq<byte>>)
    : (r: (map<u32, seq<byte>>, Snapshots))
    ensures SaveFileExists(folder, files) && LoadApplies(memory, files, SAVE_REGION, folder.value) ==>
      SAVE_REGION in r.0 && r.0[SAVE_REGION] == files[folder.value] && !Modified(r.1, r.0, SAVE_REGION)
    ensures forall k | k != SAVE_REGION :: SameAt(r.0, memory, k) && SnapSameAt(r.1, snap, k)
    ensures !SaveFileExists(folder, files) && MemorySize(memory, SAVE_REGION) > 0 ==>
      r.0 == memory && !Modified(r.1, r.0, SAVE_REGION)
    ensures SaveFileExists(folder, files) && !LoadApplies(memory, files, SAVE_REGION, folder.value) ==> r == (memory, snap)
  {
    if SaveFileExists(folder, files) then
      if LoadApplies(memory, files, SAVE_REGION, folder.value) then
        (memory[SAVE_REGION := files[folder.value]], Record(snap, SAVE_REGION, files[folder.value]))
      else (memory, snap)
    else (memory, AfterTake(snap, memory, SAVE_REGION))
  }

  /**
   * The port-indexed press of this revision: the button reads 1 exactly when its
   * index level already existed, and no level of the table is created.
   */
  lemma LegacyPressLookup(t: Table, p: u32, d: u32, i: u32, id: u32)
    ensures SameLevels(t, WriteIfPathExists(t, p, d, i, id, 1))
    ensures Lookup(WriteIfPathExists(t, p, d, i, id, 1), p, d, i, id) == if PathExists(t, p, d, i) then Some(1) else None
  {
  }

  /**
   * On a table without the button's path, the earlier press has no effect while the
   * current revision's press creates the path and reads as pressed.
   */
  lemma PressRevisionsDiffer(t: Table, p: u32, d: u32, id: u32)
    requires !PathExists(t, p, d, 0)
    ensures WriteIfPathExists(t, p, d, 0, id, 1) == t
    ensures Lookup(Press(t, p, d, 0, id), p, d, 0, id) == Some(1) && Lookup(t, p, d, 0, id).None?
  {
    PressLookup(t, p, d, 0, id);
  }

  class LegacySession {
    var audioVideoInfo: Option<AvInfo>
    var currentCore: Core?
    /** The logical buttons pressed, oldest first. */
    var buttonsPressed: seq<u32>
    var pressedButtons: Table
    var currentGameURL: Option<Url>
    /** The save file of region 0. */
    var currentSaveFolder: Option<Url>
    /** `gameLoopTimer != nil`. */
    var gameLoopRunning: bool
    /** `checkSaveLoop != nil`. */
    var monitoring: bool
    var paused: bool

    /** A session with no core, no game and nothing pressed. */
    constructor()
      ensures audioVideoInfo.None? && currentCore == null && buttonsPressed == [] && pressedButtons == map[]
      ensures currentGameURL.None? && currentSaveFolder.None?
      ensures !gameLoopRunning && !monitoring && !paused
    {
      audioVideoInfo := None;
      currentCore := null;
      buttonsPressed := [];
      pressedButtons := map[];
      currentGameURL := None;
      currentSaveFolder := None;
      gameLoopRunning := false;
      monitoring := false;
      paused := false;
    }

    /** `startGameLoop()`: starts the loop and the save monitor, and unpauses, unless the loop is already running. */
    method StartGameLoop()
      modifies this`gameLoopRunning, this`monitoring, this`paused
      ensures gameLoopRunning
      ensures old(gameLoopRunning) ==> monitoring == old(monitoring) && paused == old(paused)
      ensures !old(gameLoopRunning) ==> monitoring && !paused
    {
      if !gameLoopRunning {
        gameLoopRunning := true;
        monitoring := true;
        paused := false;
      }
    }

    /** `stopGameLoop()`: stops the loop and the save monitor, and pauses. */
    method StopGameLoop()
      modifies this`gameLoopRunning, this`monitoring, this`paused
      ensures !gameLoopRunning && !monitoring && paused
    {
      gameLoopRunning := false;
      monitoring := false;
      paused := true;
    }

    /** One tick of the game loop: runs the core one frame unless paused. */
    method GameLoopTick(memoryAfter: map<u32, seq<byte>>)
      modifies currentCore
      ensures currentCore != null && !paused ==>
        currentCore.calls == old(currentCore.calls) + [RetroRun] && currentCore.memory == memoryAfter &&
        currentCore.currentSaveRamSnapshot == old(currentCore.currentSaveRamSnapshot) &&
        currentCore.loadedGame == old(currentCore.loadedGame) && currentCore.initialized == old(currentCore.initialized) &&
        currentCore.paused == old(currentCore.paused) && currentCore.audioVideoInfo == old(currentCore.audioVideoInfo) &&
        currentCore.defaultCoreOptions == old(currentCore.defaultCoreOptions)
      ensures currentCore != null && paused ==> unchanged(currentCore)
    {
      if !paused {
        if currentCore != null {
          currentCore.RetroRunStep(memoryAfter);
        }
      }
    }

    /**
     * One tick of the save monitor: unless paused, checks region 0 and, when the check
     * reports a change, saves it to `currentSaveFolder` (force-unwrapped).
     */
    method MonitorTick(fs: FileSystem)
      requires !paused && currentCore != null && Modified(currentCore.currentSaveRamSnapshot, currentCore.memory, SAVE_REGION) ==>
        currentSaveFolder.Some?
      modifies currentCore, fs
      ensures currentCore != null && !paused ==>
        currentCore.currentSaveRamSnapshot == AfterCheck(old(currentCore.currentSaveRamSnapshot), old(currentCore.memory), SAVE_REGION) &&
        fs.files == if Modified(old(currentCore.currentSaveRamSnapshot), old(currentCore.memory), SAVE_REGION)
                    then AfterSave(old(fs.files), old(currentCore.memory), SAVE_REGION, currentSaveFolder.value)
                    else old(fs.files)
      ensures currentCore != null ==>
        currentCore.memory == old(currentCore.memory) && currentCore.calls == old(currentCore.calls) &&
        currentCore.loadedGame == old(currentCore.loadedGame) && currentCore.initialized == old(currentCore.initialized) &&
        currentCore.paused == old(currentCore.paused) && currentCore.audioVideoInfo == old(currentCore.audioVideoInfo) &&
        currentCore.defaultCoreOptions == old(currentCore.defaultCoreOptions)
      ensures paused || currentCore == null ==> unchanged(fs) && (currentCore != null ==> unchanged(currentCore))
    {
      if !paused {
        if currentCore == null {
          return;
        }
        var checkResult := currentCore.CheckForSaveRamModification(SAVE_REGION);
        if checkResult {
          currentCore.SaveMemoryData(SAVE_REGION, currentSaveFolder.value, fs);
        }
      }
    }

    /** Region 0's restore step: load the existing save file, or else take the initial snapshot. */
    method RestoreSave(fs: FileSystem)
      requires currentCore != null
      modifies currentCore
      ensures (currentCore.memory, currentCore.currentSaveRamSnapshot) ==
        RestoreRegion(old(currentCore.memory), old(currentCore.currentSaveRamSnapshot), currentSaveFolder, fs.files)
      ensures currentCore.calls == old(currentCore.calls) && currentCore.loadedGame == old(currentCore.loadedGame)
      ensures currentCore.initialized == old(currentCore.initialized) && currentCore.paused == old(currentCore.paused)
      ensures currentCore.audioVideoInfo == old(currentCore.audioVideoInfo)
      ensures currentCore.defaultCoreOptions == old(currentCore.defaultCoreOptions)
    {
      if SaveFileExists(currentSaveFolder, fs.files) {
        currentCore.LoadBatterySave(currentSaveFolder.value, SAVE_REGION, fs);
      } else {
        currentCore.TakeInitialSaveRamSnapshot(SAVE_REGION);
      }
    }

    /** Initialises the core (publishing its AV info on a first initialisation), loads the game, restores region 0, and installs the callbacks. */
    method BootGame(gameURL: Url, accepts: bool, memoryAfterLoad: map<u32, seq<byte>>, fs: FileSystem)
      requires currentCore != null && gameURL in fs.files
      modifies this`audioVideoInfo, this`currentGameURL, currentCore
      ensures currentCore.initialized
      ensures currentCore.calls == old(currentCore.calls)
        + (if old(currentCore.initialized) then [] else [RetroSetEnvironment, RetroInit, RetroGetSystemAvInfo])
        + [RetroLoadGame(gameURL, fs.files[gameURL]), RetroSetCallbacks]
      ensures audioVideoInfo == if old(currentCore.initialized) then old(audioVideoInfo) else Some(currentCore.reportedAvInfo)
      ensures currentGameURL == (if accepts then Some(gameURL) else None) && currentCore.loadedGame == currentGameURL
      ensures (currentCore.memory, currentCore.currentSaveRamSnapshot) ==
        RestoreRegion(memoryAfterLoad, old(currentCore.currentSaveRamSnapshot), currentSaveFolder, fs.files)
      ensures currentCore.paused == old(currentCore.paused) && currentCore.defaultCoreOptions == old(currentCore.defaultCoreOptions)
      ensures currentCore.audioVideoInfo ==
        if old(currentCore.initialized) then old(currentCore.audioVideoInfo) else currentCore.reportedAvInfo
    {
      var published := currentCore.InitializeCore();
      if published.Some? {
        audioVideoInfo := published;
      }
      var loaded := currentCore.LoadGame(gameURL, accepts, memoryAfterLoad, fs);
      currentGameURL := if loaded then Some(gameURL) else None;
      RestoreSave(fs);
      currentCore.SetInputOutputCallbacks();
    }

    /**
     * `startEmulation(gameURL:)`. The game already current is only resumed. Another game
     * stops the loop; the core unloads it, is deinitialised and initialised again, loads
     * the new game, restores region 0 and gets the callbacks; then the loop starts. With
     * no current game the core is initialised, loads, restores and gets the callbacks, and
     * the loop starts. No file is ever written.
     */
    method StartEmulation(gameURL: Url, accepts: bool, memoryAfterLoad: map<u32, seq<byte>>, fs: FileSystem)
      requires currentGameURL != Some(gameURL) && currentCore != null ==> gameURL in fs.files
      modifies this`paused, this`gameLoopRunning, this`monitoring, this`audioVideoInfo, this`currentGameURL, currentCore
      ensures old(currentGameURL) == Some(gameURL) ==>
        && !paused && gameLoopRunning == old(gameLoopRunning) && monitoring == old(monitoring)
        && currentGameURL == old(currentGameURL) && audioVideoInfo == old(audioVideoInfo)
        && (currentCore != null ==> unchanged(currentCore))
      ensures old(currentGameURL) != Some(gameURL) && currentCore == null ==>
        gameLoopRunning && currentGameURL == old(currentGameURL) && audioVideoInfo == old(audioVideoInfo)
      ensures old(currentGameURL) != Some(gameURL) && currentCore != null ==>
        && gameLoopRunning && currentCore.initialized
        && currentGameURL == (if accepts then Some(gameURL) else None) && currentCore.loadedGame == currentGameURL
        && (currentCore.memory, currentCore.currentSaveRamSnapshot) ==
             RestoreRegion(memoryAfterLoad, old(currentCore.currentSaveRamSnapshot), currentSaveFolder, fs.files)
        && currentCore.paused == old(currentCore.paused) && currentCore.defaultCoreOptions == old(currentCore.defaultCoreOptions)
        && currentCore.audioVideoInfo ==
             if old(currentCore.initialized) && old(currentGameURL).None? then old(currentCore.audioVideoInfo) else currentCore.reportedAvInfo
      ensures old(currentGameURL).Some? && old(currentGameURL) != Some(gameURL) ==>
        && monitoring && !paused
        && (currentCore != null ==>
              currentCore.calls == old(currentCore.calls) + [RetroUnloadGame] + (if old(currentCore.initialized) then [RetroDeinit] else [])
                + [RetroSetEnvironment, RetroInit, RetroGetSystemAvInfo, RetroLoadGame(gameURL, fs.files[gameURL]), RetroSetCallbacks] &&
              audioVideoInfo == Some(currentCore.reportedAvInfo))
      ensures old(currentGameURL).None? ==>
        && (old(gameLoopRunning) ==> paused == old(paused) && monitoring == old(monitoring))
        && (!old(gameLoopRunning) ==> !paused && monitoring)
        && (currentCore != null ==>
              currentCore.calls == old(currentCore.calls)
                + (if old(currentCore.initialized) then [] else [RetroSetEnvironment, RetroInit, RetroGetSystemAvInfo])
                + [RetroLoadGame(gameURL, fs.files[gameURL]), RetroSetCallbacks])
    {
      if currentGameURL.Some? {
        if currentGameURL == Some(gameURL) {
          ResumeEmulation();
        } else {
          StopGameLoop();
          if currentCore != null {
            currentCore.UnloadGame();
            currentGameURL := None;
            currentCore.DeinitializeCore();
            BootGame(gameURL, accepts, memoryAfterLoad, fs);
          }
          StartGameLoop();
        }
      } else {
        if currentCore != null {
          BootGame(gameURL, accepts, memoryAfterLoad, fs);
        }
        StartGameLoop();
      }
    }

    /** `pauseEmulation()`. */
    method PauseEmulation()
      modifies this`paused
      ensures paused
    {
      paused := true;
    }

    /** `resumeEmulation()`. */
    method ResumeEmulation()
      modifies this`paused
      ensures !paused
    {
      paused := false;
    }

    /** `pressButton(button:device:)`: queues the logical button's raw value behind the earlier presses. */
    method PressLogicalButton(button: u32)
      modifies this`buttonsPressed
      ensures buttonsPressed == old(buttonsPressed) + [button]
    {
      buttonsPressed := buttonsPressed + [button];
    }

    /** `pressButton(port:device:index:button:)`, for a numeric or a logical id: sets 1 only where the path exists. */
    method PressButton(port: u32, device: u32, index: u32, id: u32)
      modifies this`pressedButtons
      ensures pressedButtons == WriteIfPathExists(old(pressedButtons), port, device, index, id, 1)
      ensures SameLevels(old(pressedButtons), pressedButtons)
    {
      pressedButtons := WriteIfPathExists(pressedButtons, port, device, index, id, 1);
    }

    /** `unpressButton(port:device:index:button:)`: sets 0 only where the path exists. */
    method UnpressButton(port: u32, device: u32, index: u32, id: u32)
      modifies this`pressedButtons
      ensures pressedButtons == Unpress(old(pressedButtons), port, device, index, id)
      ensures SameLevels(old(pressedButtons), pressedButtons)
    {
      pressedButtons := WriteIfPathExists(pressedButtons, port, device, index, id, 0);
    }
  }
}
