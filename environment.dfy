/**
 * The callbacks the frontend gives a libretro core (`ArcadiaCoreProtocol`'s callback
 * properties): the environment callback, a switch over the libretro environment commands
 * that answers the core and updates the shared session, and the video, audio and input
 * callbacks.
 *
 * The `data` pointer of the environment callback is a `Payload` tagged with what the core
 * passed for that command; what the callback writes through it is returned as `Stored`.
 */
module Environment {
  import opened Common
  import opened CoreOptions
  import opened PixelTypes
  import opened ButtonTable
  import opened OptionParsing
  import opened CoreProtocol
  import opened EmulationState
  import opened FrameLayout
  import LibretroCallbacks

  // The environment commands (`ArcadiaCallbackType`) the callback distinguishes.
  const GET_CAN_DUPE: u32 := 3
  const SET_PERFORMANCE_LEVEL: u32 := 8
  const GET_SYSTEM_DIRECTORY: u32 := 9
  const GET_PIXEL_FORMAT: u32 := 10
  const SET_INPUT_DESCRIPTORS: u32 := 11
  const GET_VARIABLE: u32 := 15
  const SET_VARIABLES: u32 := 16
  const GET_VARIABLE_UPDATE: u32 := 17
  const GET_RUMBLE_INTERFACE: u32 := 23
  const GET_LOG_INTERFACE: u32 := 27
  const GET_SAVE_DIRECTORY: u32 := 31
  const SET_CONTROLLER_INFO: u32 := 35
  const SET_GEOMETRY: u32 := 37
  const GET_CORE_OPTIONS_VERSION: u32 := 52

  /** The performance level written for `SET_PERFORMANCE_LEVEL`. */
  const PERFORMANCE_LEVEL: u32 := 2

  /** One `retro_variable` of a `SET_VARIABLES` array; `None` is a NULL value. */
  datatype VariableEntry = VariableEntry(key: string, value: Option<string>)

  /** What the core's `data` pointer refers to. */
  datatype Payload =
    | Null
      /** A buffer the callback may write into. */
    | Pointer
      /** A `UInt32` (the pixel format of `GET_PIXEL_FORMAT`). */
    | Word(raw: u32)
      /** The descriptors of `SET_INPUT_DESCRIPTORS` before the terminator. */
    | InputDescriptors(descriptors: seq<Descriptor>)
      /** The variables of `SET_VARIABLES` before the terminator. */
    | Variables(variables: seq<VariableEntry>)
      /** A `retro_game_geometry`. */
    | GameGeometry(geometry: Geometry)

  /** What the callback writes through `data`. */
  datatype Stored =
    | NothingStored
    | StoredBool(b: bool)
    | StoredLevel(level: u32)
    | StoredVariable(variable: RetroVariable)
      /** A C copy of a directory path of the game type. */
    | StoredDirectory
    | StoredRumbleInterface
    | StoredLogInterface

  /** The commands the callback answers `true` to, given whether options are queued and whether this is a debug build. */
  predicate Answers(command: u32, optionsQueued: bool, debugBuild: bool) {
    || command in {GET_CAN_DUPE, SET_PERFORMANCE_LEVEL, GET_SYSTEM_DIRECTORY, GET_PIXEL_FORMAT, SET_INPUT_DESCRIPTORS,
                   SET_VARIABLES, GET_RUMBLE_INTERFACE, GET_SAVE_DIRECTORY, SET_GEOMETRY}
    || (command in {GET_VARIABLE, GET_VARIABLE_UPDATE} && optionsQueued)
    || (command == GET_LOG_INTERFACE && debugBuild)
  }

  /**
   * The AV info with the base width and height replaced; no AV info stays none. Nothing
   * else of the AV info changes.
   */
  function WithBaseSize(info: Option<AvInfo>, width: u32, height: u32): (r: Option<AvInfo>)
    ensures r.Some? <==> info.Some?
    ensures r.Some? ==> r.value.geometry.baseWidth == width && r.value.geometry.baseHeight == height
    ensures r.Some? ==> r.value.geometry.maxWidth == info.value.geometry.maxWidth
    ensures r.Some? ==> r.value.geometry.maxHeight == info.value.geometry.maxHeight
    ensures r.Some? ==> r.value.geometry.aspectRatio == info.value.geometry.aspectRatio
    ensures r.Some? ==> r.value.timing == info.value.timing
  {
    if info.None? then None
    else Some(info.value.(geometry := info.value.geometry.(baseWidth := width, baseHeight := height)))
  }

  /** Every declared value string holds a `;` (the second component is read unchecked). */
  predicate AllDeclare(variables: seq<VariableEntry>) {
    forall i | 0 <= i < |variables| :: variables[i].value.Some? ==> Declares(variables[i].value.value)
  }

  /** No entry of a `SET_VARIABLES` array has a NULL value. */
  predicate AllPresent(variables: seq<VariableEntry>) {
    forall i | 0 <= i < |variables| :: variables[i].value.Some?
  }

  /** The option a variable declares: none for a NULL value. */
  function DeclarationOf(v: VariableEntry): (opts: seq<CoreOption>)
    requires v.value.Some? ==> Declares(v.value.value)
    ensures |opts| == (if v.value.Some? then 1 else 0)
  {
    if v.value.None? then []
    else
      var parsed := ParseVariableValue(v.value.value);
      [Declaration(v.key, parsed.0, parsed.1)]
  }

  /** The options a `SET_VARIABLES` array declares, in order. */
  function Declarations(variables: seq<VariableEntry>): (opts: seq<CoreOption>)
    requires AllDeclare(variables)
    ensures |opts| <= |variables|
    decreases |variables|
  {
    if |variables| == 0 then []
    else
      var n := |variables| - 1;
      Declarations(variables[..n]) + DeclarationOf(variables[n])
  }

  /** `o` is the option `v` declares: its key, the parsed description and values, no selection. */
  predicate DeclaredBy(o: CoreOption, v: VariableEntry)
    requires v.value.Some? && Declares(v.value.value)
  {
    var parsed := ParseVariableValue(v.value.value);
    o.key == v.key && o.description == Some(parsed.0) && o.values == Some(parsed.1) &&
    o.selectedValue.None? && !IsWriteRecord(o)
  }

  /**
   * When every value is present, the declared options correspond one to one with the
   * variables: the same key, the description before the first `;`, the values of the
   * second component, and no selected value.
   */
  lemma {:induction false} DeclarationsMatch(variables: seq<VariableEntry>)
    requires AllDeclare(variables) && AllPresent(variables)
    ensures |Declarations(variables)| == |variables|
    ensures forall j | 0 <= j < |variables| :: DeclaredBy(Declarations(variables)[j], variables[j])
  {
    DeclarationsLength(variables);
    forall j | 0 <= j < |variables| ensures DeclaredBy(Declarations(variables)[j], variables[j]) {
      DeclarationAt(variables, j);
    }
  }

  /** With every value present there is one option per variable. */
  lemma {:induction false} DeclarationsLength(variables: seq<VariableEntry>)
    requires AllDeclare(variables) && AllPresent(variables)
    ensures |Declarations(variables)| == |variables|
    decreases |variables|
  {
    if |variables| > 0 {
      var n := |variables| - 1;
      DeclarationsLength(variables[..n]);
    }
  }

  /** The option at index `j` is the one variable `j` declares. */
  lemma {:induction false} DeclarationAt(variables: seq<VariableEntry>, j: nat)
    requires AllDeclare(variables) && AllPresent(variables)
    requires j < |variables|
    ensures |Declarations(variables)| == |variables|
    ensures Declarations(variables)[j] == DeclarationOf(variables[j])[0]
    decreases |variables|
  {
    var n := |variables| - 1;
    var prefix := variables[..n];
    DeclarationsLength(prefix);
    DeclarationsSnoc(variables, n);
    assert variables[..n + 1] == variables;
    if j < n {
      DeclarationAt(prefix, j);
      assert prefix[j] == variables[j];
    }
    AppendIndex(Declarations(prefix), DeclarationOf(variables[n]), j);
  }

  /** A variable whose value is written `description;v1|...|vn` declares exactly that description and those values. */
  lemma DeclarationOfFormatted(key: string, description: string, values: seq<string>)
    requires ';' !in description && |values| >= 1
    requires forall i | 0 <= i < |values| :: ';' !in values[i] && '|' !in values[i]
    requires forall i | 0 <= i < |values| :: values[i] == [] || (!IsSpace(values[i][0]) && !IsSpace(values[i][|values[i]| - 1]))
    ensures var v := VariableEntry(key, Some(Join([description, Join(values, '|')], ';')));
      Declares(v.value.value) && DeclarationOf(v) == [Declaration(key, description, values)]
  {
    ParseFormatted(description, values, []);
    assert [description, Join(values, '|')] + [] == [description, Join(values, '|')];
  }

  /**
   * What the core may pass for a command: the payloads the callback force-unwraps,
   * `SET_VARIABLES` values with a second component, a game type for the directory
   * queries, and a write record at the head of the queue when `GET_VARIABLE` stores it.
   */
  predicate Fits(command: u32, data: Payload, currentGameType: Option<GameType>, queue: seq<CoreOption>) {
    && (command == GET_PIXEL_FORMAT ==> data.Word?)
    && (command == SET_INPUT_DESCRIPTORS ==> data.InputDescriptors?)
    && (command == SET_VARIABLES ==> data.Variables? && AllDeclare(data.variables))
    && (command == SET_GEOMETRY ==> data.GameGeometry?)
    && (command == GET_SYSTEM_DIRECTORY || command == GET_SAVE_DIRECTORY ==> currentGameType.Some?)
    && (command == GET_VARIABLE && |queue| > 0 && !data.Null? ==> IsWriteRecord(queue[0]))
  }

  /**
   * `libretroEnvironmentCallback`: answers `command` with `handled`, writes `stored`
   * through `data`, and updates the session `s`.
   */
  method EnvironmentCallback(s: Session, command: u32, data: Payload, debugBuild: bool) returns (handled: bool, stored: Stored)
    requires Fits(command, data, s.currentGameType, s.coreOptionsToApply)
    modifies s`mainBufferPixelFormat, s`pressedButtons, s`coreOptionsToApply, s`appliedCoreOptions
    modifies s`currentCoreOptions, s`audioVideoInfo
    ensures handled == Answers(command, |old(s.coreOptionsToApply)| > 0, debugBuild)
    ensures stored ==
      if data.Null? then NothingStored
      else if command == GET_CAN_DUPE then StoredBool(true)
      else if command == SET_PERFORMANCE_LEVEL then StoredLevel(PERFORMANCE_LEVEL)
      else if command == GET_SYSTEM_DIRECTORY || command == GET_SAVE_DIRECTORY then StoredDirectory
      else if command == GET_VARIABLE && |old(s.coreOptionsToApply)| > 0 then StoredVariable(GetRetroVariable(old(s.coreOptionsToApply)[0]))
      else if command == GET_RUMBLE_INTERFACE then StoredRumbleInterface
      else if command == GET_LOG_INTERFACE && debugBuild then StoredLogInterface
      else NothingStored
    ensures s.mainBufferPixelFormat == if command == GET_PIXEL_FORMAT then FromRaw(data.raw) else old(s.mainBufferPixelFormat)
    ensures s.pressedButtons ==
      if command == SET_INPUT_DESCRIPTORS then RegisterAll(old(s.pressedButtons), data.descriptors) else old(s.pressedButtons)
    ensures command == GET_VARIABLE && |old(s.coreOptionsToApply)| > 0 ==>
      s.coreOptionsToApply == old(s.coreOptionsToApply)[1..] &&
      s.appliedCoreOptions == old(s.appliedCoreOptions) + [old(s.coreOptionsToApply)[0]]
    ensures command != GET_VARIABLE || |old(s.coreOptionsToApply)| == 0 ==>
      s.coreOptionsToApply == old(s.coreOptionsToApply) && s.appliedCoreOptions == old(s.appliedCoreOptions)
    ensures s.currentCoreOptions ==
      if command == SET_VARIABLES then old(s.currentCoreOptions) + Declarations(data.variables) else old(s.currentCoreOptions)
    ensures s.audioVideoInfo ==
      if command == SET_GEOMETRY then WithBaseSize(old(s.audioVideoInfo), data.geometry.baseWidth, data.geometry.baseHeight)
      else old(s.audioVideoInfo)
  {
    stored := NothingStored;
    if command == GET_CAN_DUPE {
      if !data.Null? {
        stored := StoredBool(true);
      }
      handled := true;
    } else if command == SET_PERFORMANCE_LEVEL {
      if !data.Null? {
        stored := StoredLevel(PERFORMANCE_LEVEL);
      }
      handled := true;
    } else if command == GET_SYSTEM_DIRECTORY || command == GET_SAVE_DIRECTORY {
      if !data.Null? {
        stored := StoredDirectory;
      }
      handled := true;
    } else if command == GET_PIXEL_FORMAT {
      s.mainBufferPixelFormat := FromRaw(data.raw);
      handled := true;
    } else if command == SET_INPUT_DESCRIPTORS {
      RegisterDescriptors(s, data.descriptors);
      handled := true;
    } else if command == GET_VARIABLE {
      if |s.coreOptionsToApply| == 0 {
        handled := false;
      } else {
        var coreOption := s.coreOptionsToApply[0];
        s.coreOptionsToApply := s.coreOptionsToApply[1..];
        if !data.Null? {
          stored := StoredVariable(GetRetroVariable(coreOption));
        }
        s.appliedCoreOptions := s.appliedCoreOptions + [coreOption];
        handled := true;
      }
    } else if command == SET_VARIABLES {
      DeclareVariables(s, data.variables);
      handled := true;
    } else if command == GET_VARIABLE_UPDATE {
      handled := |s.coreOptionsToApply| > 0;
    } else if command == GET_RUMBLE_INTERFACE {
      if !data.Null? {
        stored := StoredRumbleInterface;
      }
      handled := true;
    } else if command == GET_LOG_INTERFACE {
      if debugBuild {
        if !data.Null? {
          stored := StoredLogInterface;
        }
        handled := true;
      } else {
        handled := false;
      }
    } else if command == SET_CONTROLLER_INFO {
      handled := false;
    } else if command == SET_GEOMETRY {
      var geometry := data.geometry;
      s.audioVideoInfo := WithBaseSize(s.audioVideoInfo, geometry.baseWidth, geometry.baseHeight);
      handled := true;
    } else if command == GET_CORE_OPTIONS_VERSION {
      handled := false;
    } else {
      handled := false;
    }
  }

  /** The `SET_INPUT_DESCRIPTORS` loop: registers every described button as released. */
  method RegisterDescriptors(s: Session, descriptors: seq<Descriptor>)
    modifies s`pressedButtons
    ensures s.pressedButtons == RegisterAll(old(s.pressedButtons), descriptors)
  {
    for i := 0 to |descriptors|
      invariant RegisterAll(s.pressedButtons, descriptors[i..]) == RegisterAll(old(s.pressedButtons), descriptors)
    {
      assert descriptors[i..][0] == descriptors[i] && descriptors[i..][1..] == descriptors[i + 1..];
      var variable := descriptors[i];
      s.EnsureButton(variable.port, variable.device, variable.id, 0);
    }
  }

  /** Taking one more variable appends what it declares. */
  lemma DeclarationsSnoc(variables: seq<VariableEntry>, i: nat)
    requires AllDeclare(variables) && i < |variables|
    ensures Declarations(variables[..i + 1]) == Declarations(variables[..i]) + DeclarationOf(variables[i])
  {
    assert variables[..i + 1][..i] == variables[..i];
  }

  /** The `SET_VARIABLES` loop: appends the option each variable with a value declares. */
  method DeclareVariables(s: Session, variables: seq<VariableEntry>)
    requires AllDeclare(variables)
    modifies s`currentCoreOptions
    ensures s.currentCoreOptions == old(s.currentCoreOptions) + Declarations(variables)
  {
    for i := 0 to |variables|
      invariant s.currentCoreOptions == old(s.currentCoreOptions) + Declarations(variables[..i])
    {
      var variable := variables[i];
      ghost var before := s.currentCoreOptions;
      if variable.value.Some? {
        var components := ParseVariableValue(variable.value.value);
        s.currentCoreOptions := s.currentCoreOptions + [Declaration(variable.key, components.0, components.1)];
      }
      assert s.currentCoreOptions == before + DeclarationOf(variable);
      DeclarationsSnoc(variables, i);
      AppendAssoc(old(s.currentCoreOptions), Declarations(variables[..i]), DeclarationOf(variable));
    }
    assert variables[..|variables|] == variables;
  }

  /** `GET_VARIABLE` hands out the queued options first in, first out. */
  method ReadOptionsInOrder(s: Session) returns (read: seq<CoreOption>)
    requires forall o | o in s.coreOptionsToApply :: IsWriteRecord(o)
    modifies s`mainBufferPixelFormat, s`pressedButtons, s`coreOptionsToApply, s`appliedCoreOptions
    modifies s`currentCoreOptions, s`audioVideoInfo
    ensures read == old(s.coreOptionsToApply) && s.coreOptionsToApply == []
    ensures s.appliedCoreOptions == old(s.appliedCoreOptions) + old(s.coreOptionsToApply)
  {
    read := [];
    while |s.coreOptionsToApply| > 0
      invariant read + s.coreOptionsToApply == old(s.coreOptionsToApply)
      invariant s.appliedCoreOptions == old(s.appliedCoreOptions) + read
      invariant forall o | o in s.coreOptionsToApply :: IsWriteRecord(o)
      decreases |s.coreOptionsToApply|
    {
      var before := s.coreOptionsToApply;
      var handled, stored := EnvironmentCallback(s, GET_VARIABLE, Pointer, false);
      read := read + [before[0]];
      assert before == [before[0]] + before[1..];
    }
  }

  /**
   * `libretroVideoRefreshCallback`: converts the frame with the session's pixel format
   * (passed to the converter as its raw value) on a host of byte order `order`; a frame
   * the converter rejects changes nothing. Otherwise the converted pixels become the
   * main buffer and the base size of the AV info becomes the frame's size. The buffer
   * length `width * height * 4` is computed in `UInt32`, which traps on overflow.
   */
  method VideoRefreshCallback(s: Session, frame: Option<seq<byte>>, width: u32, height: u32, pitch: nat, order: ByteOrder)
    requires pitch < 0x8000_0000
    requires frame.Some? && LibretroCallbacks.SupportedFormat(RawValue(s.mainBufferPixelFormat)) ==>
      Covers(|frame.value|, width, height, pitch, LibretroCallbacks.DecoderFor(RawValue(s.mainBufferPixelFormat), order))
    requires !LibretroCallbacks.ConversionFails(frame.None?, width, height, RawValue(s.mainBufferPixelFormat), order) ==>
      width as int * height as int * 4 < 0x1_0000_0000
    modifies s`mainBuffer, s`audioVideoInfo
    ensures LibretroCallbacks.ConversionFails(frame.None?, width, height, RawValue(s.mainBufferPixelFormat), order) ==>
      s.mainBuffer == old(s.mainBuffer) && s.audioVideoInfo == old(s.audioVideoInfo)
    ensures !LibretroCallbacks.ConversionFails(frame.None?, width, height, RawValue(s.mainBufferPixelFormat), order) ==>
      |s.mainBuffer| == width as int * height as int * 4 &&
      s.audioVideoInfo == WithBaseSize(old(s.audioVideoInfo), width, height)
    ensures (!LibretroCallbacks.ConversionFails(frame.None?, width, height, RawValue(s.mainBufferPixelFormat), order) &&
             Decodable(LibretroCallbacks.DecoderFor(RawValue(s.mainBufferPixelFormat), order))) ==>
      s.mainBuffer == Converted(frame.value, width, height, pitch, LibretroCallbacks.DecoderFor(RawValue(s.mainBufferPixelFormat), order))
  {
    var pointer := LibretroCallbacks.VideoRefresh(frame, width, height, pitch, RawValue(s.mainBufferPixelFormat), order);
    if pointer == null {
      return;
    }
    MulIsProduct(width, height);
    var length := width * height * 4;
    s.mainBuffer := pointer[..length];
    s.audioVideoInfo := WithBaseSize(s.audioVideoInfo, width, height);
  }

  /**
   * `libretroAudioSampleBatchCallback`'s answer: no samples for a NULL buffer, otherwise
   * every frame it was given (the samples go to the audio player).
   */
  function AudioSampleBatch(dataIsNull: bool, frames: int): (consumed: int)
    requires !dataIsNull ==> frames >= 0
    ensures consumed >= 0
    ensures dataIsNull ==> consumed == 0
    ensures !dataIsNull ==> consumed == frames
  {
    if dataIsNull then 0 else frames
  }

  /** `libretroInputStateCallback`: 1 while the button reads as pressed in the session's table, 0 otherwise. */
  function InputState(t: Table, port: u32, device: u32, index: u32, id: u32): (r: i16)
    ensures r == 0 || r == 1
    ensures r == 1 <==> Lookup(t, port, device, index, id) == Some(1)
  {
    if Lookup(t, port, device, index, id) == Some(1) then 1 else 0
  }

  /** The core reads a button pressed at index 0 as pressed. */
  lemma InputAfterPress(t: Table, port: u32, device: u32, id: u32)
    ensures InputState(Press(t, port, device, 0, id), port, device, 0, id) == 1
  {
    PressLookup(t, port, device, 0, id);
  }

  /** The core reads a released button as not pressed, at any index. */
  lemma InputAfterRelease(t: Table, port: u32, device: u32, index: u32, id: u32)
    ensures InputState(Unpress(t, port, device, index, id), port, device, index, id) == 0
  {
    UnpressLookup(t, port, device, index, id);
  }

  /** Buttons registered by `SET_INPUT_DESCRIPTORS` and not pressed since read as not pressed. */
  lemma InputAfterRegister(t: Table, ds: seq<Descriptor>, n: nat)
    requires n < |ds| && Lookup(t, ds[n].port, ds[n].device, 0, ds[n].id).None?
    requires forall j | 0 <= j < |ds| :: Lookup(t, ds[j].port, ds[j].device, 0, ds[j].id) != Some(1)
    ensures InputState(RegisterAll(t, ds), ds[n].port, ds[n].device, 0, ds[n].id) == 0
  {
    RegisterAllNeverPresses(t, ds, ds[n].port, ds[n].device, ds[n].id);
  }

  /** Registration writes only zeros: a button not reading 1 before does not read 1 after. */
  lemma {:induction false} RegisterAllNeverPresses(t: Table, ds: seq<Descriptor>, p: u32, d: u32, k: u32)
    requires Lookup(t, p, d, 0, k) != Some(1)
    ensures Lookup(RegisterAll(t, ds), p, d, 0, k) != Some(1)
    decreases |ds|
  {
    if |ds| > 0 {
      RegisterAllNeverPresses(EnsureEntry(t, ds[0].port, ds[0].device, ds[0].id, 0), ds[1..], p, d, k);
    }
  }
}
