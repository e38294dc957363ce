# ArcadiaCore libretro frontend adapter, in Dafny

ArcadiaCore is a Swift frontend for libretro emulator cores. This project models the
adapter that sits between the frontend and a core, and proves properties of it. The
adapter has five parts:

- **The C framebuffer converter and input helper** (`libretro_callbacks.c`).
  - The converter turns the core's pitched XRGB8888 or RGB565 frame into a packed
    4-bytes-per-pixel buffer.
  - The input helper pops the head of an `int16_t` button queue by shifting it left in place.
- **The environment-callback dispatcher** (`ArcadiaCoreProtocol.swift`).
  - It answers the libretro environment opcodes: the option queue, option declarations,
    input descriptors and geometry.
  - The video, audio and input callback wrappers sit beside it.
- **The core lifecycle and save-RAM tracker** (`ArcadiaCoreProtocol.swift`).
  - Lifecycle: initialise, deinitialise, load and unload.
  - Save-RAM tracking: snapshot, compare-and-replace, save to file and battery-save load.
- **The emulation session** (`Classes/ArcadiaCoreEmulationState.swift`).
  - Attach, prepare and start emulation.
  - The game-loop and save-monitor ticks, and pause.
  - The nested `pressedButtons` table.
- **Small value types and two earlier revisions.**
  - `ArcadiaCoreOption` and the iRetro pixel type.
  - The iRetroCore adapter: a doubled source stride, ARGB output and a FIFO button queue.
  - The first session (`ArcadiaCore/ArcadiaCoreEmulationState.swift`): one save region,
    re-initialising the core on every game change, and presses that only write existing paths.

Modules, one per file:

| file | module | models |
|---|---|---|
| `common.dfy` | `Common` | machine integer ranges, `Option`, the product helper `Mul` |
| `frame_layout.dfy` | `FrameLayout` | pixel decoders (XRGB8888 by byte order, RGB565, iRetro's ARGB), frame addressing, the converted image |
| `packing.dfy` | `Packing` | row-major packing of a pixel grid into a 4-bytes-per-pixel buffer |
| `libretro_callbacks.dfy` | `LibretroCallbacks` | `libretro_video_refresh_callback`, `libretro_input_state_callback` |
| `pixel_type.dfy` | `PixelTypes` | the pixel-format enum and its raw values |
| `core_option.dfy` | `CoreOptions` | `ArcadiaCoreOption`, `retro_variable` equality |
| `option_parsing.dfy` | `OptionParsing` | `components(separatedBy:)`, whitespace trimming, `SET_VARIABLES` value parsing |
| `button_table.dfy` | `ButtonTable` | the nested `pressedButtons` dictionary and its optional-chaining writes |
| `core_protocol.dfy` | `CoreProtocol` | the core (class `Core`), the file system (class `FileSystem`), save-RAM tracking |
| `emulation_state.dfy` | `EmulationState` | the session (class `Session`) |
| `environment.dfy` | `Environment` | the environment dispatcher and the video, audio and input wrappers |
| `legacy_emulation_state.dfy` | `LegacyEmulationState` | the first session revision (class `LegacySession`) |
| `iretro_core.dfy` | `IRetroCore` | the iRetroCore revision |

How the system is represented:

- **The core.** A libretro core is an object of class `Core`.
  - It holds its save-RAM regions as `map<u32, seq<byte>>`, its snapshot map, its flags,
    and a trace `calls` of the `retro*` functions it was called with.
  - What a core does inside `retro_run` or `retro_load_game` is not visible here. Those
    effects (new region memory, whether the game was accepted) are parameters.
- **Files.** They are a `FileSystem` object holding `map<Url, seq<byte>>`. A file exists
  when its URL is a key.
- **The shared session.** `ArcadiaCoreEmulationState.sharedInstance` is an explicit
  `Session` parameter.
  - A Swift core method that writes the session (`currentGameURL`, `audioVideoInfo`)
    returns what it publishes instead, and the session stores it.
  - The session is that method's only caller, so the observable state is the same.
- **Timers.** They are flags (`gameLoopRunning`, `monitoring`). One timer firing is one
  call of `GameLoopTick` or `MonitorTick`.
- **Payloads.** The payload of an environment call is a tagged `Payload` value. Each
  force-unwrap (`data!`) of the source is a precondition on the shape of the payload.
- **Dictionary iteration.** A loop over `supportedSaveFiles.keys` iterates a sequence of
  distinct region ids, in whatever order the dictionary yields.

Two behaviours of the code a reader may not expect:

- **Ignored load result.** `prepareCore` ignores the result of `loadGame`, and there is
  no error flag.
- **Unpress can add a key.** `unpressButton` writes
  `pressedButtons[port]?[device]?[index]?[id] = 0`. When the index level exists, that
  assignment inserts `id` even when it was absent. `Unpress` does the same.

## Model

| member | source | states |
|---|---|---|
| `PixelTypes.FromRaw` | iRetroCore/Enums/iRetroCorePixelType.swift:16-27 | raw 0, 1 and 2 decode to the cases whose raw value they are; the result is `unknown` exactly when the raw value is above 2 (the initialiser is total) |
| `PixelTypes.FromRawRoundTrip` | iRetroCore/Enums/iRetroCorePixelType.swift:10-27 | decoding the raw value of every case gives that case back |
| `PixelTypes.RawRoundTrip` | iRetroCore/Enums/iRetroCorePixelType.swift:10-27 | a raw value survives decode-then-encode exactly when it is 0, 1, 2 or 4294967295 |
| `CoreOptions.Declaration` | ArcadiaCore/Models/ArcadiaCoreOption.swift:30-36 | the declaration initialiser sets key, description and values, and leaves the selected value and the C variable nil |
| `CoreOptions.WriteRecord` | ArcadiaCore/Models/ArcadiaCoreOption.swift:38-44 | the write initialiser sets key and selected value, leaves description and values nil, and builds the C variable |
| `CoreOptions.GetRetroVariable` | ArcadiaCore/Models/ArcadiaCoreOption.swift:46-48 | defined only for write records (force-unwrap); returns the stored C variable |
| `CoreOptions.WriteRecordVariable` | ArcadiaCore/Models/ArcadiaCoreOption.swift:38-48 | a write record's C variable holds copies of the key and selected value, at the addresses `strdup` returned |
| `CoreOptions.SameVariableEquivalence` | ArcadiaCore/Models/ArcadiaCoreOption.swift:10-13 | `retro_variable ==` is reflexive, symmetric and transitive |
| `CoreOptions.SeparateCopiesDiffer` | ArcadiaCore/Models/ArcadiaCoreOption.swift:10-13 | equality compares pointers: two write records of the same strings with different copies are unequal |
| `OptionParsing.Split` | ArcadiaCore/Protocols/ArcadiaCoreProtocol.swift:183 | `components(separatedBy:)` yields at least one component |
| `OptionParsing.SplitPartsClean` | ArcadiaCore/Protocols/ArcadiaCoreProtocol.swift:183 | no component contains the separator |
| `OptionParsing.JoinSplit` | ArcadiaCore/Protocols/ArcadiaCoreProtocol.swift:183 | joining the components with the separator gives the string back |
| `OptionParsing.SplitJoin` | ArcadiaCore/Protocols/ArcadiaCoreProtocol.swift:183 | splitting a join of separator-free parts gives the parts back |
| `OptionParsing.SplitCount` | ArcadiaCore/Protocols/ArcadiaCoreProtocol.swift:183-185 | there are at least two components exactly when the separator occurs |
| `OptionParsing.TrimStart` | ArcadiaCore/Protocols/ArcadiaCoreProtocol.swift:185 | the result is a suffix, what was dropped is all whitespace, and it does not start with whitespace |
| `OptionParsing.TrimEnd` | ArcadiaCore/Protocols/ArcadiaCoreProtocol.swift:185 | the result is a prefix, what was dropped is all whitespace, and it does not end with whitespace |
| `OptionParsing.Trim` | ArcadiaCore/Protocols/ArcadiaCoreProtocol.swift:185 | `trimmingCharacters(in: .whitespacesAndNewlines)` is a slice of the input with only whitespace around it, and it neither starts nor ends with whitespace |
| `OptionParsing.TrimIdempotent` | ArcadiaCore/Protocols/ArcadiaCoreProtocol.swift:185 | trimming twice is trimming once |
| `OptionParsing.TrimKeeps` | ArcadiaCore/Protocols/ArcadiaCoreProtocol.swift:185 | a string with no whitespace at either end is unchanged by trimming |
| `OptionParsing.TrimAll` | ArcadiaCore/Protocols/ArcadiaCoreProtocol.swift:185 | `map` of trimming keeps the count and trims each element |
| `OptionParsing.ParseVariableValue` | ArcadiaCore/Protocols/ArcadiaCoreProtocol.swift:183-185 | a value with a second `;` component yields at least one option value |
| `OptionParsing.ParseClean` | ArcadiaCore/Protocols/ArcadiaCoreProtocol.swift:183-185 | a value can be parsed exactly when it holds `;`; the description holds no `;`, and every value holds neither a bar nor a `;` and is already trimmed |
| `OptionParsing.ValuesClean` | ArcadiaCore/Protocols/ArcadiaCoreProtocol.swift:185 | the trimmed bar-separated components of a `;`-free list hold neither separator and are trimmed |
| `OptionParsing.ParseFormatted` | ArcadiaCore/Protocols/ArcadiaCoreProtocol.swift:183-185 | a description, a `;`, the values joined with bars, and any further `;`-components parse back to exactly that description and those values |
| `FrameLayout.Load16Orders` | ArcadiaCore/libretro_callbacks.c:67 | the 16-bit load reads the low byte first on little-endian and PDP hosts, and the high byte first on big-endian ones |
| `FrameLayout.Red5` | ArcadiaCore/libretro_callbacks.c:69 | `(p >> 11) & 0x1F` is below 32 |
| `FrameLayout.Green6` | ArcadiaCore/libretro_callbacks.c:70 | `(p >> 5) & 0x3F` is below 64 |
| `FrameLayout.Blue5` | ArcadiaCore/libretro_callbacks.c:71 | `p & 0x1F` is below 32 |
| `FrameLayout.FieldsRecompose` | ArcadiaCore/libretro_callbacks.c:69-71 | the three fields are the whole 16-bit pixel |
| `FrameLayout.Scale5` | ArcadiaCore/libretro_callbacks.c:69 | `v * 255 / 31` is a byte; it is 0 exactly for 0 and 255 exactly for 31 |
| `FrameLayout.Scale6` | ArcadiaCore/libretro_callbacks.c:70 | `v * 255 / 63` is a byte; it is 0 exactly for 0 and 255 exactly for 63 |
| `FrameLayout.Scale5RoundTrip` | ArcadiaCore/libretro_callbacks.c:69 | the 5-bit scaling loses nothing: the field can be recovered from the byte |
| `FrameLayout.Scale6RoundTrip` | ArcadiaCore/libretro_callbacks.c:70 | the 6-bit scaling loses nothing: the field can be recovered from the byte |
| `FrameLayout.DecodePixel` | ArcadiaCore/libretro_callbacks.c:45-77 | every decodable pixel becomes exactly 4 output bytes |
| `FrameLayout.XrgbLittleEndianCopies` | ArcadiaCore/libretro_callbacks.c:46-54 | on a little-endian host an XRGB8888 pixel is copied byte for byte |
| `FrameLayout.XrgbBigEndianSwapsRedBlue` | ArcadiaCore/libretro_callbacks.c:55-59 | on a big-endian host bytes 0 and 2 are swapped and bytes 1 and 3 kept |
| `FrameLayout.Rgb565Channels` | ArcadiaCore/libretro_callbacks.c:66-77 | RGB565 output is blue, green, red, alpha 255; each channel is 0 or 255 exactly when its field is empty or full, and determines its field |
| `FrameLayout.LegacyArgbIsReversal` | iRetroCore/iRetroCore.swift:399-408 | iRetro's `[b,g,r,a] -> [a,r,g,b]` reorder reverses the bytes, so applying it twice is the identity |
| `FrameLayout.PixelInBounds` | ArcadiaCore/libretro_callbacks.c:40-42 | in a frame covering the image, pixel (x,y) read at `y*pitch + x*bpp` lies inside the frame |
| `FrameLayout.WindowAt` | ArcadiaCore/libretro_callbacks.c:42-49 | the bytes read for pixel (x,y) are those at offset `y*pitch + x*bpp` |
| `FrameLayout.PixelAt` | ArcadiaCore/libretro_callbacks.c:42-77 | every pixel position decodes to 4 bytes |
| `FrameLayout.Converted` | ArcadiaCore/libretro_callbacks.c:31-43 | the converted image holds exactly `width*height*4` bytes |
| `FrameLayout.DecodedAt` | ArcadiaCore/libretro_callbacks.c:40-43 | grid entry (y,x) is the decode of the input bytes at `y*pitch + x*bpp` |
| `FrameLayout.ConvertedAt` | ArcadiaCore/libretro_callbacks.c:39-77 | output byte `(y*width+x)*4 + k` is byte k of the decoded pixel read at `y*pitch + x*bpp`, and both offsets are in range |
| `FrameLayout.PaddingIrrelevant` | ArcadiaCore/libretro_callbacks.c:39-43 | frames that agree on the pixel bytes convert alike, whatever their pitches and padding bytes |
| `Packing.RowOutExtends` | ArcadiaCore/libretro_callbacks.c:41-43 | a row packed further only extends what was packed before |
| `Packing.RowsOutExtends` | ArcadiaCore/libretro_callbacks.c:39-43 | more rows packed only extend what was packed before |
| `Packing.ImageRow` | ArcadiaCore/libretro_callbacks.c:39-43 | row y of the output is the bytes `[y*width*4, (y+1)*width*4)` |
| `Packing.ImageIndex` | ArcadiaCore/libretro_callbacks.c:43 | output byte `(y*width+x)*4 + k` is byte k of pixel (x,y) |
| `Packing.ImageSame` | ArcadiaCore/libretro_callbacks.c:39-43 | the output depends only on the pixels inside the image |
| `LibretroCallbacks.DecoderFor` | ArcadiaCore/libretro_callbacks.c:20-27 | XRGB8888 reads 4 bytes per pixel and RGB565 reads 2; a pixel can be decoded unless it is XRGB8888 on a host that is neither little- nor big-endian |
| `LibretroCallbacks.VideoRefresh` | ArcadiaCore/libretro_callbacks.c:12-82 | NULL is returned exactly for a NULL frame, for any format other than 1 and 2 (0RGB1555 included), or for XRGB8888 on an unknown byte order with a non-empty image; otherwise a fresh `width*height*4` buffer holding the converted image |
| `LibretroCallbacks.ConvertRows` | ArcadiaCore/libretro_callbacks.c:39-80 | the loops fail exactly on an undecodable format with a non-empty image; otherwise the buffer equals the converted image |
| `LibretroCallbacks.ConvertRow` | ArcadiaCore/libretro_callbacks.c:41-79 | one row leaves the bytes before it alone and writes the packed row |
| `LibretroCallbacks.ConvertPixel` | ArcadiaCore/libretro_callbacks.c:42-78 | one pixel writes exactly its 4 bytes with its decode, or fails on an unknown byte order |
| `LibretroCallbacks.AsU32` | ArcadiaCore/libretro_callbacks.c:85 | `*array != id` promotes the `int16_t` to `uint32_t`: negative values wrap to at least 0xFFFF8000 |
| `LibretroCallbacks.AsU32Injective` | ArcadiaCore/libretro_callbacks.c:85 | the promotion is one to one |
| `LibretroCallbacks.ShiftedLeft` | ArcadiaCore/libretro_callbacks.c:88-90 | the shift keeps the length |
| `LibretroCallbacks.ShiftedLeftDropsHead` | ArcadiaCore/libretro_callbacks.c:88-90 | shifting over the whole array drops the head and leaves the last element duplicated |
| `LibretroCallbacks.InputState` | ArcadiaCore/libretro_callbacks.c:84-93 | 0 and an unchanged array for NULL or a head other than `id`; otherwise 1 and the array shifted left over `size` |
| `ButtonTable.AddPort` | ArcadiaCore/Classes/ArcadiaCoreEmulationState.swift:291-293 | afterwards the port exists; an existing port changes nothing |
| `ButtonTable.AddPortFrame` | ArcadiaCore/Classes/ArcadiaCoreEmulationState.swift:291-293 | adding a port adds only that port: no button value and no deeper level changes |
| `ButtonTable.AddDevice` | ArcadiaCore/Classes/ArcadiaCoreEmulationState.swift:294-296 | afterwards the device exists under the port; an existing device changes nothing |
| `ButtonTable.AddDeviceFrame` | ArcadiaCore/Classes/ArcadiaCoreEmulationState.swift:294-296 | adding a device adds only that device |
| `ButtonTable.AddIndex` | ArcadiaCore/Classes/ArcadiaCoreEmulationState.swift:298-300 | afterwards the index level exists; an existing one changes nothing |
| `ButtonTable.AddIndexFrame` | ArcadiaCore/Classes/ArcadiaCoreEmulationState.swift:298-300 | adding an index level adds only that level |
| `ButtonTable.AddButton` | ArcadiaCore/Classes/ArcadiaCoreEmulationState.swift:301-303 | an absent button gets the initial value; a present one keeps its value and the table is unchanged |
| `ButtonTable.AddButtonFrame` | ArcadiaCore/Classes/ArcadiaCoreEmulationState.swift:301-303 | no other button and no level changes |
| `ButtonTable.EnsureEntry` | ArcadiaCore/Classes/ArcadiaCoreEmulationState.swift:291-303 | `[port][device][0][id]` exists afterwards, keeping an existing value; nothing else changes except the levels on that path |
| `ButtonTable.WriteIfPathExists` | ArcadiaCore/Classes/ArcadiaCoreEmulationState.swift:304 | the optional-chaining write sets the button only when the index level exists, creates no level, and touches no other button |
| `ButtonTable.PressLookup` | ArcadiaCore/Classes/ArcadiaCoreEmulationState.swift:290-305 | after a press the button reads 1 exactly when the index is 0 or its level existed |
| `ButtonTable.PressFrames` | ArcadiaCore/Classes/ArcadiaCoreEmulationState.swift:290-305 | a press changes only the pressed button, at index 0 and at its index |
| `ButtonTable.UnpressLookup` | ArcadiaCore/Classes/ArcadiaCoreEmulationState.swift:307-309 | an unpress creates no level, and the button reads 0 exactly when its path existed |
| `ButtonTable.PressThenUnpress` | ArcadiaCore/Classes/ArcadiaCoreEmulationState.swift:290-309 | pressing and then releasing a button at index 0 leaves it at 0 |
| `ButtonTable.PressAllPressed` | ArcadiaCore/Classes/ArcadiaCoreEmulationState.swift:283-288 | after pressing a logical button at index 0, each of its ids reads 1 |
| `ButtonTable.UnpressAllLevels` | ArcadiaCore/Classes/ArcadiaCoreEmulationState.swift:311-315 | releasing a logical button creates no level |
| `ButtonTable.RegisterAllKeeps` | ArcadiaCore/Protocols/ArcadiaCoreProtocol.swift:141-154 | registering descriptors leaves every existing button value as it was |
| `ButtonTable.RegisterAllRegisters` | ArcadiaCore/Protocols/ArcadiaCoreProtocol.swift:133-154 | every descriptor's `[port][device][0][id]` exists afterwards |
| `ButtonTable.RegisterAllStable` | ArcadiaCore/Protocols/ArcadiaCoreProtocol.swift:141-154 | registering descriptors that are all present changes nothing |
| `ButtonTable.RegisterAllIdempotent` | ArcadiaCore/Protocols/ArcadiaCoreProtocol.swift:121-157 | registering the same descriptors twice is registering them once |
| `CoreProtocol.Record` | ArcadiaCore/Protocols/ArcadiaCoreProtocol.swift:593 | `snapshot?[id] = bytes` does nothing on a nil map; otherwise it sets `id` and keeps every other entry |
| `CoreProtocol.CheckSettles` | ArcadiaCore/Protocols/ArcadiaCoreProtocol.swift:597-609 | after a check the region is unmodified, and a second check changes nothing |
| `CoreProtocol.CheckReportsChange` | ArcadiaCore/Protocols/ArcadiaCoreProtocol.swift:597-609 | the check reports true exactly when it replaces the snapshot |
| `CoreProtocol.CheckFrames` | ArcadiaCore/Protocols/ArcadiaCoreProtocol.swift:597-609 | checking one region does not change what a check of another reports |
| `CoreProtocol.TakeThenCheck` | ArcadiaCore/Protocols/ArcadiaCoreProtocol.swift:587-609 | right after a snapshot of a non-empty region, a check reports no change |
| `CoreProtocol.LoadThenCheck` | ArcadiaCore/Protocols/ArcadiaCoreProtocol.swift:611-631 | right after a battery-save load, the region holds the file and a check reports no change |
| `CoreProtocol.Core.constructor` | ArcadiaCore/Protocols/ArcadiaCoreProtocol.swift:29-34 | a new core is uninitialised, unpaused, without a game and without calls |
| `CoreProtocol.Core.InitializeCore` | ArcadiaCore/Protocols/ArcadiaCoreProtocol.swift:467-482 | acts only on an uninitialised core: installs the environment, inits, reads and publishes the AV info; a second call is a no-op |
| `CoreProtocol.Core.DeinitializeCore` | ArcadiaCore/Protocols/ArcadiaCoreProtocol.swift:484-489 | `retro_deinit` is called only on an initialised core, which becomes uninitialised |
| `CoreProtocol.Core.LoadGame` | ArcadiaCore/Protocols/ArcadiaCoreProtocol.swift:491-519 | passes the path and ROM bytes to the core; the loaded game is the URL exactly when the core accepts, else nil; the result is the acceptance |
| `CoreProtocol.Core.UnloadGame` | ArcadiaCore/Protocols/ArcadiaCoreProtocol.swift:521-524 | calls `retro_unload_game` and changes nothing else on the core |
| `CoreProtocol.Core.SetInputOutputCallbacks` | ArcadiaCore/Protocols/ArcadiaCoreProtocol.swift:459-465 | installs the callbacks and changes nothing else |
| `CoreProtocol.Core.RetroRunStep` | ArcadiaCore/Classes/ArcadiaCoreEmulationState.swift:123 | one `retro_run`, after which the region memory is what the core left |
| `CoreProtocol.Core.SaveMemoryData` | ArcadiaCore/Protocols/ArcadiaCoreProtocol.swift:560-585 | an empty or missing region writes nothing; otherwise the file becomes the region's bytes |
| `CoreProtocol.Core.TakeInitialSaveRamSnapshot` | ArcadiaCore/Protocols/ArcadiaCoreProtocol.swift:587-595 | records the region only when it exists and is non-empty |
| `CoreProtocol.Core.CheckForSaveRamModification` | ArcadiaCore/Protocols/ArcadiaCoreProtocol.swift:597-609 | false without a snapshot; true exactly when the live bytes differ, in which case they replace the snapshot |
| `CoreProtocol.Core.LoadBatterySave` | ArcadiaCore/Protocols/ArcadiaCoreProtocol.swift:611-631 | with a file of exactly the region's size, memory and snapshot both become the file; otherwise both are unchanged |
| `CoreProtocol.Core.PauseGame` | ArcadiaCore/Protocols/ArcadiaCoreProtocol.swift:637-639 | only `paused` changes, to true |
| `CoreProtocol.Core.ResumeGame` | ArcadiaCore/Protocols/ArcadiaCoreProtocol.swift:641-643 | only `paused` changes, to false |
| `CoreProtocol.InitializeTwice` | ArcadiaCore/Protocols/ArcadiaCoreProtocol.swift:474-482 | initialising twice calls the core as initialising once |
| `CoreProtocol.CheckTwice` | ArcadiaCore/Protocols/ArcadiaCoreProtocol.swift:597-609 | an immediate second check returns false |
| `EmulationState.MonitorPassFrame` | ArcadiaCore/Classes/ArcadiaCoreEmulationState.swift:157-166 | a monitor pass leaves the snapshot of a region it does not visit alone |
| `EmulationState.MonitorPassQuiet` | ArcadiaCore/Classes/ArcadiaCoreEmulationState.swift:157-166 | after a pass no visited region reads as modified |
| `EmulationState.MonitorPassIdle` | ArcadiaCore/Classes/ArcadiaCoreEmulationState.swift:157-166 | a pass over unmodified regions changes neither snapshots nor files |
| `EmulationState.MonitorPassTwice` | ArcadiaCore/Classes/ArcadiaCoreEmulationState.swift:157-166 | a second pass with no new emulation changes nothing |
| `EmulationState.MonitorPassKeepsFile` | ArcadiaCore/Classes/ArcadiaCoreEmulationState.swift:157-166 | a file no modified region saves to is untouched |
| `EmulationState.MonitorPassSaves` | ArcadiaCore/Classes/ArcadiaCoreEmulationState.swift:157-166 | a modified, non-empty region's file ends up holding its bytes, and so does its snapshot |
| `EmulationState.RestoreFrame` | ArcadiaCore/Classes/ArcadiaCoreEmulationState.swift:190-199 | the restore loop leaves unvisited regions and unused files alone |
| `EmulationState.RestoreAt` | ArcadiaCore/Classes/ArcadiaCoreEmulationState.swift:190-199 | per region: a right-sized save file is loaded and becomes the snapshot; a wrong-sized one changes nothing; a missing one is created from a non-empty region; afterwards a check reports no change |
| `EmulationState.TypeOfOptional` | ArcadiaCore/Classes/ArcadiaCoreEmulationState.swift:88 | `type(of:)` of the optional is the optional type, whatever it holds |
| `EmulationState.TypeOfCore` | ArcadiaCore/Classes/ArcadiaCoreEmulationState.swift:88 | `type(of:)` of the core is its concrete kind |
| `EmulationState.Session.constructor` | ArcadiaCore/Classes/ArcadiaCoreEmulationState.swift:53-82 | the initial session: no core, game, options, buttons or loops |
| `EmulationState.Session.AttachCoreAsWritten` | ArcadiaCore/Classes/ArcadiaCoreEmulationState.swift:84-94 | as written, the new core is always attached |
| `EmulationState.Session.AttachCore` | ArcadiaCore/Classes/ArcadiaCoreEmulationState.swift:84-94 | as intended: attaches into an empty session, ignores a core of the attached kind, replaces one of another kind |
| `EmulationState.Session.StartGameLoop` | ArcadiaCore/Classes/ArcadiaCoreEmulationState.swift:98-110 | starts the loop and the monitor and unpauses, only when no loop runs |
| `EmulationState.Session.StopGameLoop` | ArcadiaCore/Classes/ArcadiaCoreEmulationState.swift:113-118 | no loop, no monitor, paused |
| `EmulationState.Session.GameLoopTick` | ArcadiaCore/Classes/ArcadiaCoreEmulationState.swift:121-125 | exactly one core step when not paused, none when paused |
| `EmulationState.Session.MonitorTick` | ArcadiaCore/Classes/ArcadiaCoreEmulationState.swift:155-167 | paused: nothing changes; otherwise the snapshots and files become one monitor pass over the game type's regions |
| `EmulationState.Session.RestoreSaves` | ArcadiaCore/Classes/ArcadiaCoreEmulationState.swift:190-199 | the region loop computes the restore function and makes no core call |
| `EmulationState.Session.LoadWithSaves` | ArcadiaCore/Classes/ArcadiaCoreEmulationState.swift:189-199 | loads the game (URL published by acceptance) and restores every region from the loaded memory |
| `EmulationState.Session.SwapCore` | ArcadiaCore/Classes/ArcadiaCoreEmulationState.swift:178-185 | the old core is deinitialised; the type's core is attached, initialised and given callbacks, and publishes its AV info on first initialisation |
| `EmulationState.Session.PrepareCore` | ArcadiaCore/Classes/ArcadiaCoreEmulationState.swift:177-201 | the core changes only on a game-type name change; URLs recorded; the old default options of the core that ends up attached appended to the queue; game loaded; regions restored; the core's `paused`, options and AV info kept or set by a first initialisation; without a swap the type's core is untouched |
| `EmulationState.Session.StartEmulation` | ArcadiaCore/Classes/ArcadiaCoreEmulationState.swift:203-228 | same URL: only unpaused; another URL: loop stopped, game unloaded, prepared, loop started; no game: prepared and loop started; the options queued and the core's fields as in `PrepareCore` |
| `EmulationState.Session.StartEmulationWithURL` | ArcadiaCore/Classes/ArcadiaCoreEmulationState.swift:230-273 | the same three branches with the current game type; the other-game branch unloads, deinitialises and re-initialises the core; the core's `paused` and default options are kept and its AV info is kept or set by a first initialisation |
| `EmulationState.Session.BootCore` | ArcadiaCore/Classes/ArcadiaCoreEmulationState.swift:238-251 | initialise, load, restore every region, install callbacks; the core's `paused` and default options are kept and its AV info is kept or set by a first initialisation |
| `EmulationState.Session.PauseEmulation` | ArcadiaCore/Classes/ArcadiaCoreEmulationState.swift:275-277 | paused |
| `EmulationState.Session.ResumeEmulation` | ArcadiaCore/Classes/ArcadiaCoreEmulationState.swift:279-281 | unpaused |
| `EmulationState.Session.EnsureButton` | ArcadiaCore/Classes/ArcadiaCoreEmulationState.swift:291-303 | the four in-place inserts compute `EnsureEntry` |
| `EmulationState.Session.PressButton` | ArcadiaCore/Classes/ArcadiaCoreEmulationState.swift:290-305 | the table becomes `Press` of the old one |
| `EmulationState.Session.UnpressButton` | ArcadiaCore/Classes/ArcadiaCoreEmulationState.swift:307-309 | the table becomes `Unpress` of the old one |
| `EmulationState.Session.PressButtons` | ArcadiaCore/Classes/ArcadiaCoreEmulationState.swift:283-288 | each id of the logical button is pressed, in order |
| `EmulationState.Session.UnpressButtons` | ArcadiaCore/Classes/ArcadiaCoreEmulationState.swift:311-315 | each id of the logical button is released, in order |
| `EmulationState.AttachSameKindAsWritten` | ArcadiaCore/Classes/ArcadiaCoreEmulationState.swift:88 | as written, a second core of the same kind replaces the first |
| `EmulationState.AttachSameKind` | ArcadiaCore/Classes/ArcadiaCoreEmulationState.swift:84-94 | as intended, the first core of a kind stays attached |
| `Environment.WithBaseSize` | ArcadiaCore/Protocols/ArcadiaCoreProtocol.swift:275-284 | the AV info with base width and height replaced and every other field kept; absent AV info stays absent |
| `Environment.DeclarationOf` | ArcadiaCore/Protocols/ArcadiaCoreProtocol.swift:179-186 | a NULL value declares nothing, any other value one option |
| `Environment.Declarations` | ArcadiaCore/Protocols/ArcadiaCoreProtocol.swift:167-189 | at most one option per variable |
| `Environment.DeclarationsMatch` | ArcadiaCore/Protocols/ArcadiaCoreProtocol.swift:179-186 | with every value present, option j is declared by variable j: same key, description before the first `;`, trimmed bar-separated values of the second component, nothing selected |
| `Environment.DeclarationsLength` | ArcadiaCore/Protocols/ArcadiaCoreProtocol.swift:179-186 | with every value present, exactly one option per variable |
| `Environment.DeclarationAt` | ArcadiaCore/Protocols/ArcadiaCoreProtocol.swift:179-186 | option j is the declaration of variable j |
| `Environment.DeclarationsSnoc` | ArcadiaCore/Protocols/ArcadiaCoreProtocol.swift:179-188 | one more variable appends its declaration after the earlier ones |
| `Environment.DeclarationOfFormatted` | ArcadiaCore/Protocols/ArcadiaCoreProtocol.swift:183-186 | a value written as a description, a `;` and the values joined with bars declares exactly that description and those values |
| `Environment.EnvironmentCallback` | ArcadiaCore/Protocols/ArcadiaCoreProtocol.swift:87-298 | per opcode, the return value (false for 35, 52, unknown opcodes, and 15/17 on an empty queue), what is written through the payload (true for 3, level 2 for 8, the head option's variable for 15), and the session change (pixel format for 10, descriptors for 11, queue pop for 15, declarations for 16, base size for 37) |
| `Environment.RegisterDescriptors` | ArcadiaCore/Protocols/ArcadiaCoreProtocol.swift:133-156 | the descriptor loop computes `RegisterAll` |
| `Environment.DeclareVariables` | ArcadiaCore/Protocols/ArcadiaCoreProtocol.swift:179-188 | the variable loop appends the declarations, in order |
| `Environment.ReadOptionsInOrder` | ArcadiaCore/Protocols/ArcadiaCoreProtocol.swift:158-166 | repeated `GET_VARIABLE` hands out the queue first in, first out and moves it to the applied list |
| `Environment.VideoRefreshCallback` | ArcadiaCore/Protocols/ArcadiaCoreProtocol.swift:301-320 | a rejected frame changes nothing; otherwise the main buffer is the `width*height*4` converted image and the base size becomes the frame's |
| `Environment.AudioSampleBatch` | ArcadiaCore/Protocols/ArcadiaCoreProtocol.swift:403-419 | 0 for NULL data, otherwise `frames` |
| `Environment.InputState` | ArcadiaCore/Protocols/ArcadiaCoreProtocol.swift:427-449 | 1 exactly when the button's entry is 1, else 0 |
| `Environment.InputAfterPress` | ArcadiaCore/Protocols/ArcadiaCoreProtocol.swift:427-432 | a button pressed at index 0 polls as 1 |
| `Environment.InputAfterRelease` | ArcadiaCore/Protocols/ArcadiaCoreProtocol.swift:427-432 | a released button polls as 0 |
| `Environment.InputAfterRegister` | ArcadiaCore/Protocols/ArcadiaCoreProtocol.swift:152-153 | a newly registered button polls as 0 |
| `Environment.RegisterAllNeverPresses` | ArcadiaCore/Protocols/ArcadiaCoreProtocol.swift:141-154 | registration never makes a button read as pressed |
| `LegacyEmulationState.RestoreRegion` | ArcadiaCore/ArcadiaCoreEmulationState.swift:157-161 | region 0 only: an existing right-sized save file is loaded, a missing one leads only to a snapshot (no file written); other regions untouched |
| `LegacyEmulationState.LegacyPressLookup` | ArcadiaCore/ArcadiaCoreEmulationState.swift:194-196 | the press writes 1 exactly where the path exists and creates no level |
| `LegacyEmulationState.PressRevisionsDiffer` | ArcadiaCore/ArcadiaCoreEmulationState.swift:194-196 | on a missing path this press does nothing while the later press creates the entry |
| `LegacyEmulationState.LegacySession.constructor` | ArcadiaCore/ArcadiaCoreEmulationState.swift:20-50 | the initial session |
| `LegacyEmulationState.LegacySession.StartGameLoop` | ArcadiaCore/ArcadiaCoreEmulationState.swift:66-78 | starts loop and monitor and unpauses, only when no loop runs |
| `LegacyEmulationState.LegacySession.StopGameLoop` | ArcadiaCore/ArcadiaCoreEmulationState.swift:81-86 | no loop, no monitor, paused |
| `LegacyEmulationState.LegacySession.GameLoopTick` | ArcadiaCore/ArcadiaCoreEmulationState.swift:89-93 | one core step exactly when not paused; the core's other fields, `paused`, AV info and options included, are kept |
| `LegacyEmulationState.LegacySession.MonitorTick` | ArcadiaCore/ArcadiaCoreEmulationState.swift:123-135 | region 0 is checked when not paused, and saved to the save folder exactly when the check reports a change; memory, calls, `paused`, AV info and options are kept |
| `LegacyEmulationState.LegacySession.RestoreSave` | ArcadiaCore/ArcadiaCoreEmulationState.swift:157-161 | the restore step computes `RestoreRegion`; calls, game, flags, AV info and options are kept |
| `LegacyEmulationState.LegacySession.BootGame` | ArcadiaCore/ArcadiaCoreEmulationState.swift:166-174 | initialise, load, restore region 0, install callbacks; the core's `paused` and default options are kept and its AV info is kept or set by a first initialisation |
| `LegacyEmulationState.LegacySession.StartEmulation` | ArcadiaCore/ArcadiaCoreEmulationState.swift:146-176 | same URL: resume only; another URL: stop, unload, deinitialise, boot, start; no game: boot, start; a booted core keeps `paused` and its options, and its AV info is kept or set by a first initialisation |
| `LegacyEmulationState.LegacySession.PauseEmulation` | ArcadiaCore/ArcadiaCoreEmulationState.swift:178-180 | paused |
| `LegacyEmulationState.LegacySession.ResumeEmulation` | ArcadiaCore/ArcadiaCoreEmulationState.swift:182-184 | unpaused |
| `LegacyEmulationState.LegacySession.PressLogicalButton` | ArcadiaCore/ArcadiaCoreEmulationState.swift:186-188 | the raw value is appended to the pressed queue |
| `LegacyEmulationState.LegacySession.PressButton` | ArcadiaCore/ArcadiaCoreEmulationState.swift:194-196 | writes 1 only where the path exists, creating no level |
| `LegacyEmulationState.LegacySession.UnpressButton` | ArcadiaCore/ArcadiaCoreEmulationState.swift:198-200 | writes 0 only where the path exists, creating no level |
| `IRetroCore.EnvironmentCallback` | iRetroCore/iRetroCore.swift:137-151 | handled exactly for opcodes 3 and 10; writes `true` exactly for opcode 3 with a payload |
| `IRetroCore.HandledLater` | iRetroCore/iRetroCore.swift:137-151 | every opcode this revision handles is handled by the later dispatcher too |
| `IRetroCore.CallbackOutputToPixelBuffer` | iRetroCore/iRetroCore.swift:377-413 | empty for a nil frame; otherwise exactly `width*height*4` bytes, each pixel read at `y*pitch + x*8` and written as `[a,r,g,b]` at `(y*width+x)*4` |
| `IRetroCore.ConvertRows` | iRetroCore/iRetroCore.swift:392-410 | the loops fill the array with the converted image |
| `IRetroCore.ConvertRow` | iRetroCore/iRetroCore.swift:394-409 | one row writes its packed pixels and leaves the earlier bytes alone |
| `IRetroCore.ConvertersDiffer` | iRetroCore/iRetroCore.swift:395-408 | this converter and the later one give different output for the same frame |
| `IRetroCore.AudioSampleBatch` | iRetroCore/iRetroCore.swift:202-212 | for a NULL buffer 0 and nothing stored; otherwise the first `frames*2` samples become the shared audio frame and `frames` is returned, the same answer as the later callback |
| `IRetroCore.Core.constructor` | iRetroCore/iRetroCore.swift:60-69 | a new core is uninitialised with an empty queue |
| `IRetroCore.Core.InitializeCore` | iRetroCore/iRetroCore.swift:255-262 | acts only when not initialised |
| `IRetroCore.Core.PressButton` | iRetroCore/iRetroCore.swift:330-334 | the raw value is appended to the core's queue and the shared queue |
| `IRetroCore.Poll` | iRetroCore/iRetroCore.swift:224-230 | 1 and the head removed exactly when the queue's head is `id`; otherwise 0 and the queue unchanged |
| `IRetroCore.InputState` | iRetroCore/iRetroCore.swift:221-232 | the callback polls the shared queue |
| `IRetroCore.PollAll` | iRetroCore/iRetroCore.swift:221-232 | one answer per poll, and the queue never grows |
| `IRetroCore.PollsInPressOrder` | iRetroCore/iRetroCore.swift:221-232 | presses polled in the order they were made all answer 1 and are consumed, first in first out |
| `IRetroCore.PollOutOfOrder` | iRetroCore/iRetroCore.swift:224-230 | polling a button that is not at the head answers 0 and consumes nothing |
| `IRetroCore.NegativePressDiffers` | iRetroCore/iRetroCore.swift:225 | the comparison is in `Int`: a queued -1 does not match id 0xFFFFFFFF, although the C helper's promotion makes them equal |

## Findings

| source | as written | input that shows it | evidently intended | confidence | as-written member | corrected member |
|---|---|---|---|---|---|---|
| ArcadiaCore/Classes/ArcadiaCoreEmulationState.swift:88 | `type(of: self.currentCore) == type(of: core)` compares the type of the optional with the concrete type of the new core, so the two are never equal | a core already attached, then `attachCore` with another core of the same type: it replaces the first | a core of the type already attached is ignored; only a core of another type replaces it | not executed | `EmulationState.Session.AttachCoreAsWritten` (exhibited by `EmulationState.AttachSameKindAsWritten`) | `EmulationState.Session.AttachCore` (proved by `EmulationState.AttachSameKind`) |

The rest of the model uses `AttachCore`. Where the session attaches a core,
`prepareCore` clears the attached core first (line 180). So either reading gives the same
session there.

## Left out

- `convert_s16_to_float` and the sample-rate comparisons in `startEmulation`: floating
  point. The audio-player calls around them are left out too.
- Failure of `malloc` in the converter (`libretro_callbacks.c:31-35`): allocation cannot
  fail in the model.
- LibretroCallbacks.VideoRefresh: requires that the frame covers the image, where the
  source would read out of bounds; a negative pitch is not representable (`pitch: nat`),
  and the converter's `int` offsets are unbounded integers. The `malloc` size
  `width * height * 4` (`libretro_callbacks.c:31`) is a `uint32` product that wraps in C;
  the model allocates the unbounded product. Every input on which it wraps also
  overflows the `int` offsets.
- Environment.VideoRefreshCallback: requires that `width*height*4` fits `UInt32` and that
  `pitch` fits `Int32`, where the Swift conversion would trap.
- IRetroCore.CallbackOutputToPixelBuffer: requires that the frame covers the image and
  that `width*height*4` fits `Int`, where the source would trap or read out of bounds; a
  negative pitch is not representable (`pitch: nat`).
- Environment.EnvironmentCallback: force-unwraps of the payload, of `currentGameType`
  and of `components[1]` are preconditions. Opcodes 9 and 31 (`strdup` of a directory
  path) store only a marker, not a path or pointer. The rumble (23) and log (27)
  interfaces are markers, and the C functions inside them are left out. Log output
  (`print`) is left out.
- CoreOptions.GetRetroVariable: the C strings are values with an address. `strdup`'s
  allocation is a parameter, and the memory is never freed.
- Timers, dispatch queues and the concurrency between the game loop, the monitor and the
  callbacks are left out. One tick is one method call.
- EmulationState.Session.MonitorTick: requires that every region the pass would find
  modified has a save URL. The source force-unwraps it and would trap otherwise.
- EmulationState.Session.PrepareCore: requires (`CanPrepare`) that a core is attached after
  the swap, where the source force-unwraps `currentCore!` (`ArcadiaCoreEmulationState.swift:188`);
  that the ROM file exists, where `loadGame` calls `fatalError` (`ArcadiaCoreProtocol.swift:502-504`);
  and that every supported region has a save URL, where the source force-unwraps it (line 195).
  It also requires that the new core is not the object already attached: the source attaches
  a copy of the game type's core value.
- EmulationState.Session.StartEmulation: requires `CanPrepare` whenever it prepares a core,
  for the same traps as `PrepareCore`.
- EmulationState.Session.StartEmulationWithURL: requires a current game type when the game
  changes, where the source force-unwraps `currentGameType!` (lines 241 and 258), and, with a
  core attached, that the ROM file exists (`fatalError` in `loadGame`) and that every
  supported region has a save URL (force-unwrapped at lines 246 and 264).
- EmulationState.Session.BootCore: requires an attached core, a current game type, an
  existing ROM file and a save URL for every supported region, for the same traps.
- EmulationState.Session.RestoreSaves: requires a save URL for every listed region, where
  the source force-unwraps it.
- CoreProtocol.Core.LoadGame: requires that the ROM file exists, where the source calls
  `fatalError("Failed to read file")` (`ArcadiaCoreProtocol.swift:502-504`).
- LegacyEmulationState.LegacySession.MonitorTick: requires a save folder whenever region 0
  is found modified, where the source force-unwraps `currentSaveFolder!`
  (`ArcadiaCore/ArcadiaCoreEmulationState.swift:132`).
- LegacyEmulationState.LegacySession.StartEmulation: requires that the ROM file exists when
  a core loads a new game, where `loadGame` calls `fatalError`.
- LegacyEmulationState.LegacySession.BootGame: requires an attached core and an existing ROM
  file, for the same trap.
- CoreProtocol.Core.constructor: the protocol declares the core's state
  (`ArcadiaCoreProtocol.swift:29-34`) but no initialiser; the concrete cores are not part
  of this model. That a new core is unpaused, uninitialised, without a game and without
  calls is an assumption about conforming cores.
- Environment.InputState: the source's wrapper calls `checkForPress`
  (`ArcadiaCoreProtocol.swift:429`), which is not part of this model. Its test is modelled
  as "the table entry is 1", the test of the commented-out body at
  `ArcadiaCoreProtocol.swift:435`. `Environment.InputAfterPress`,
  `Environment.InputAfterRelease` and `Environment.InputAfterRegister` rest on that reading.
- Environment.EnvironmentCallback: opcode 10 stores the pixel format as an
  `ArcadiaCorePixelType`, an enum that is not part of this model. The model decodes the raw
  value with the iRetro revision's `PixelTypes.FromRaw`. Either way every raw value other
  than 1 and 2 is rejected by the converter.
- IRetroCore.AudioSampleBatch: requires a non-negative `frames` and a buffer of at least
  `frames*2` samples when the buffer is not NULL, where the source would trap or read out of
  bounds.
- Environment.AudioSampleBatch: requires a non-negative `frames` when the buffer is not
  NULL, where `UnsafeBufferPointer(count: frames * 2)` would trap
  (`ArcadiaCoreProtocol.swift:407`).
- CoreProtocol.Core.SaveMemoryData: file writes never fail in the model (`FileSystem.files`
  is a map). The source catches a failing write, logs it and leaves the file as it was
  (`ArcadiaCoreProtocol.swift:578-583`). Because `checkForSaveRamModification` has already
  replaced the snapshot before the save, a failed write is lost in the source: later monitor
  passes report no change until the region changes again. `EmulationState.MonitorPassSaves`
  and the file-creating case of `EmulationState.RestoreAt` hold only because writes succeed.
- CoreProtocol.Core.LoadBatterySave: reading an existing file never fails in the model. In
  the source a read that throws is caught and logged and nothing changes
  (`ArcadiaCoreProtocol.swift:619-630`), the same outcome the model gives a missing file.
- The iteration order of `supportedSaveFiles.keys` is not fixed. The region loops take the
  regions as a sequence in any order.
- `saveState`/`loadState` (`ArcadiaCoreProtocol.swift:526-558`): they copy the core's
  serialised state to and from a file through `retro_serialize`/`retro_unserialize`, whose
  contents the model cannot see; they are outside the adapter logic modelled here.
- The Metal renderer, `createCGImage*`, `lastImage` and the audio player: graphics and
  audio output.
- The iRetroCore revision:
  - `loadGame`, its video-refresh closure (153-194, the same conversion as
    `callbackOutputToPixelBuffer`, stored to the main buffer and a `CGImage`), and its
    pause/resume are not modelled separately.
  - The Swift struct copy semantics of the core protocol are not modelled: a core is an
    object.
- The first session revision's `attachCore` (`ArcadiaCore/ArcadiaCoreEmulationState.swift:52-62`)
  is the same code as the later one and has the same finding; it is not modelled separately.
- Pointer identity of `retro_variable` copies is modelled by explicit addresses; nothing
  else about C memory is.
- The protocol declaration files, `libretro.h`, `libretro_callbacks.h`, and the enum and
  info-holder types are not part of this model. Only their numeric constants are used.
