/**
 * The earlier frontend adapter, iRetroCore (`iRetroCore/iRetroCore.swift`): an environment
 * callback that knows two commands, a framebuffer converter that reads every pixel eight
 * bytes apart and writes it in ARGB order, and a queue of pressed buttons that the
 * input-state callback consumes from the front.
 */
module IRetroCore {
  import opened Common
  import opened Packing
  import opened FrameLayout
  import opened CoreProtocol
  import Environment
  import LibretroCallbacks

  // ---------------------------------------------------------------- environment callback

  /**
   * `libretroEnvironmentCallback`: whether the command is handled, and whether `true` is
   * written through `data`. The pixel format of command 10 is force-unwrapped and only logged.
   */
  function EnvironmentCallback(command: u32, dataIsNull: bool): (r: (bool, bool))
    requires command == Environment.GET_PIXEL_FORMAT ==> !dataIsNull
    ensures r.0 <==> command == Environment.GET_CAN_DUPE || command == Environment.GET_PIXEL_FORMAT
    ensures r.1 <==> command == Environment.GET_CAN_DUPE && !dataIsNull
  {
    if command == 3 then (true, !dataIsNull)
    else if command == 10 then (true, false)
    else (false, false)
  }

  /** Every command this callback handles, the later adapter handles too, in any build and with any option queue. */
  lemma HandledLater(command: u32, dataIsNull: bool, optionsQueued: bool, debugBuild: bool)
    requires command == Environment.GET_PIXEL_FORMAT ==> !dataIsNull
    ensures EnvironmentCallback(command, dataIsNull).0 ==> Environment.Answers(command, optionsQueued, debugBuild)
    ensures EnvironmentCallback(command, dataIsNull).1 ==> command == Environment.GET_CAN_DUPE
  {
  }

  // ---------------------------------------------------------------- framebuffer converter

  /**
   * `callbackOutputToPixelBuffer(frameBufferData:width:height:pitch:)`: an empty buffer for a
   * NULL frame; otherwise the `width` by `height` frame packed at 4 bytes per pixel, pixel
   * (x, y) read at `y * pitch + x * 8` and written at `(y * width + x) * 4`, with the bytes
   * read as [b, g, r, a] written as [a, r, g, b]. The buffer length `width * height * 4`
   * is computed in `Int`, which traps on overflow.
   */
  method CallbackOutputToPixelBuffer(frame: Option<seq<byte>>, width: u32, height: u32, pitch: nat) returns (pixels: seq<byte>)
    requires frame.Some? ==> Covers(|frame.value|, width, height, pitch, LegacyArgb)
    requires frame.Some? ==> width as int * height as int * 4 < 0x8000_0000_0000_0000
    ensures frame.None? ==> pixels == []
    ensures frame.Some? ==> |pixels| == width as int * height as int * 4
    ensures frame.Some? ==> pixels == Converted(frame.value, width, height, pitch, LegacyArgb)
  {
    if frame.None? {
      return [];
    }
    MulIsProduct(width, height);
    var pixelArray := new byte[Mul(width, height) * 4](_ => 0);
    ConvertRows(frame.value, width, height, pitch, pixelArray);
    pixels := pixelArray[..];
  }

  /** The outer loop of the converter, over the rows of the frame. */
  method ConvertRows(frame: seq<byte>, width: u32, height: u32, pitch: nat, pixelArray: array<byte>)
    requires Covers(|frame|, width, height, pitch, LegacyArgb) && pixelArray.Length == Mul(width, height) * 4
    modifies pixelArray
    ensures pixelArray[..] == Converted(frame, width, height, pitch, LegacyArgb)
  {
    ghost var g := Decoded(frame, pitch, LegacyArgb);
    var y: nat := 0;
    while y < height
      invariant y <= height
      invariant Mul(y, width) * 4 <= pixelArray.Length
      invariant forall i | 0 <= i < Mul(y, width) * 4 :: pixelArray[..][i] == RowsOut(g, width, y)[i]
    {
      var rowOffset := Mul(y, pitch);
      var rgbaRowOffset := Mul(y, width) * 4;
      PackedRow(width, height, y);
      ghost var before := pixelArray[..];
      ConvertRow(frame, width, height, pitch, y, rowOffset, pixelArray, rgbaRowOffset);
      ghost var after := pixelArray[..];
      RowsStep(g, width, y, rgbaRowOffset, before, after);
      y := y + 1;
    }
    MulComm(width, height);
    SameElements(pixelArray[..], RowsOut(g, width, height));
  }

  /** The inner loop of the converter, over row `y`. */
  method ConvertRow(frame: seq<byte>, width: u32, height: u32, pitch: nat, y: nat, rowOffset: nat,
                    pixelArray: array<byte>, rgbaRowOffset: nat)
    requires Covers(|frame|, width, height, pitch, LegacyArgb) && y < height
    requires rowOffset == Mul(y, pitch) && rgbaRowOffset + 4 * width <= pixelArray.Length
    modifies pixelArray
    ensures forall i | 0 <= i < rgbaRowOffset :: pixelArray[..][i] == old(pixelArray[..])[i]
    ensures forall k | 0 <= k < 4 * width :: pixelArray[..][rgbaRowOffset + k] == RowOut(Decoded(frame, pitch, LegacyArgb), y, width)[k]
  {
    var bytesPerPixel: nat := 4;
    var x: nat := 0;
    while x < width
      invariant x <= width
      invariant forall i | 0 <= i < rgbaRowOffset :: pixelArray[..][i] == old(pixelArray[..])[i]
      invariant forall k | 0 <= k < 4 * x :: pixelArray[..][rgbaRowOffset + k] == RowOut(Decoded(frame, pitch, LegacyArgb), y, width)[k]
    {
      var pixelOffset := rowOffset + Mul(x, bytesPerPixel * 2);
      var rgbaOffset := rgbaRowOffset + x * bytesPerPixel;
      PixelInBounds(|frame|, width, height, pitch, LegacyArgb, y, x);
      ghost var before := pixelArray[..];
      var blue := frame[pixelOffset];
      var green := frame[pixelOffset + 1];
      var red := frame[pixelOffset + 2];
      var alpha := frame[pixelOffset + 3];
      pixelArray[rgbaOffset] := alpha;
      pixelArray[rgbaOffset + 1] := red;
      pixelArray[rgbaOffset + 2] := green;
      pixelArray[rgbaOffset + 3] := blue;
      DecodedAt(frame, pitch, LegacyArgb, y, x, pixelOffset);
      RowStep(Decoded(frame, pitch, LegacyArgb), y, width, x, rgbaRowOffset, rgbaOffset, before, pixelArray[..]);
      x := x + 1;
    }
  }

  /**
   * The two adapters disagree on an XRGB8888 frame: reading pixel 0 of a one-pixel frame,
   * the later converter keeps the byte order on a little-endian host while this one
   * reverses it.
   */
  lemma ConvertersDiffer(px: seq<byte>)
    requires |px| == 8 && px[0] != px[3]
    ensures Converted(px, 1, 1, 8, LegacyArgb) != Converted(px, 1, 1, 8, Xrgb8888(LittleEndian))
  {
    ConvertedAt(px, 1, 1, 8, LegacyArgb, 0, 0, 0);
    ConvertedAt(px, 1, 1, 8, Xrgb8888(LittleEndian), 0, 0, 0);
  }

  // ---------------------------------------------------------------- the core and the pressed-button queue

  /** The shared emulation state the callbacks write to: the pressed buttons, oldest first, and the last audio batch. */
  class SharedState {
    var buttonsPressed: seq<i16>
    var currentAudioFrame: seq<i16>

    constructor()
      ensures buttonsPressed == [] && currentAudioFrame == []
    {
      buttonsPressed := [];
      currentAudioFrame := [];
    }
  }

  /**
   * `libretroAudioSampleBatchCallback`: for a NULL buffer nothing is stored and no frame is
   * consumed; otherwise the `frames` interleaved left/right pairs become the shared state's
   * current audio frame and every frame is consumed. `data` is the buffer the core passes.
   */
  method AudioSampleBatch(shared: SharedState, data: Option<seq<i16>>, frames: int) returns (consumed: int)
    requires data.Some? ==> 0 <= frames && frames * 2 <= |data.value|
    modifies shared`currentAudioFrame
    ensures consumed == Environment.AudioSampleBatch(data.None?, frames)
    ensures data.None? ==> consumed == 0 && shared.currentAudioFrame == old(shared.currentAudioFrame)
    ensures data.Some? ==> consumed == frames && shared.currentAudioFrame == data.value[..frames * 2]
    ensures |shared.currentAudioFrame| == if data.Some? then 2 * consumed else |old(shared.currentAudioFrame)|
  {
    if data.None? {
      return 0;
    }
    var audioSlice := data.value[..frames * 2];
    shared.currentAudioFrame := audioSlice;
    return frames;
  }

  /** What the frontend keeps of an iRetro core. */
  class Core {
    /** What `retroGetSystemAVInfo` fills in. */
    const reportedAvInfo: AvInfo
    var initialized: bool
    var paused: bool
    var audioVideoInfo: Option<AvInfo>
    var buttonsPressed: seq<i16>
    var calls: seq<CoreCall>

    constructor(reportedAvInfo: AvInfo)
      ensures this.reportedAvInfo == reportedAvInfo
      ensures !initialized && !paused && audioVideoInfo.None? && buttonsPressed == [] && calls == []
    {
      this.reportedAvInfo := reportedAvInfo;
      initialized := false;
      paused := false;
      audioVideoInfo := None;
      buttonsPressed := [];
      calls := [];
    }

    /** `initializeCore()`: installs the environment callback, initialises the core and reads its AV info, once. */
    method InitializeCore()
      modifies this`initialized, this`audioVideoInfo, this`calls
      ensures initialized
      ensures old(initialized) ==> calls == old(calls) && audioVideoInfo == old(audioVideoInfo)
      ensures !old(initialized) ==>
        calls == old(calls) + [RetroSetEnvironment, RetroInit, RetroGetSystemAvInfo] && audioVideoInfo == Some(reportedAvInfo)
    {
      if initialized == false {
        calls := calls + [RetroSetEnvironment, RetroInit];
        audioVideoInfo := Some(reportedAvInfo);
        calls := calls + [RetroGetSystemAvInfo];
        initialized := true;
      }
    }

    /** `pressButton(button:)`: queues the button's raw value on the core and on the shared state. */
    method PressButton(shared: SharedState, button: i16)
      modifies this`buttonsPressed, shared`buttonsPressed
      ensures buttonsPressed == old(buttonsPressed) + [button]
      ensures shared.buttonsPressed == old(shared.buttonsPressed) + [button]
    {
      buttonsPressed := buttonsPressed + [button];
      shared.buttonsPressed := shared.buttonsPressed + [button];
    }
  }

  /**
   * What one input-state query makes of the pressed-button queue: when the oldest press is
   * the queried button it is consumed and reported (1), otherwise nothing happens (0).
   * Swift compares the `Int16` head and the `UInt32` id by value.
   */
  function Poll(queue: seq<i16>, id: u32): (r: (i16, seq<i16>))
    ensures r.0 == 0 || r.0 == 1
    ensures r.0 == 1 <==> |queue| > 0 && queue[0] as int == id as int
    ensures r.0 == 1 ==> [queue[0]] + r.1 == queue
    ensures r.0 == 0 ==> r.1 == queue
  {
    if |queue| > 0 && queue[0] as int == id as int then (1, queue[1..]) else (0, queue)
  }

  /** `libretroInputStateCallback` (port, device and index are ignored). */
  method InputState(shared: SharedState, port: u32, device: u32, index: u32, id: u32) returns (pressed: i16)
    modifies shared`buttonsPressed
    ensures (pressed, shared.buttonsPressed) == Poll(old(shared.buttonsPressed), id)
  {
    if |shared.buttonsPressed| > 0 {
      if shared.buttonsPressed[0] as int == id as int {
        shared.buttonsPressed := shared.buttonsPressed[1..];
        return 1;
      }
    }
    return 0;
  }

  /** The ids of the buttons `presses` names. */
  predicate Names(presses: seq<i16>, ids: seq<u32>) {
    |presses| == |ids| && forall i | 0 <= i < |ids| :: presses[i] as int == ids[i] as int
  }

  /** Queries for `ids` in turn: what each reports, and the queue left. */
  function PollAll(queue: seq<i16>, ids: seq<u32>): (r: (seq<i16>, seq<i16>))
    ensures |r.0| == |ids|
    ensures |r.1| <= |queue|
  {
    if |ids| == 0 then ([], queue)
    else
      var first := Poll(queue, ids[0]);
      var rest := PollAll(first.1, ids[1..]);
      ([first.0] + rest.0, rest.1)
  }

  /**
   * The queue is first in, first out: querying the queued buttons in the order they were
   * pressed reports each of them once and leaves what was pressed after them.
   */
  lemma {:induction false} PollsInPressOrder(presses: seq<i16>, later: seq<i16>, ids: seq<u32>)
    requires Names(presses, ids)
    ensures PollAll(presses + later, ids) == (seq(|ids|, _ => 1), later)
    decreases |ids|
  {
    if |ids| > 0 {
      assert (presses + later)[0] == presses[0];
      assert (presses + later)[1..] == presses[1..] + later;
      assert Poll(presses + later, ids[0]) == (1, presses[1..] + later);
      assert Names(presses[1..], ids[1..]) by {
        forall i | 0 <= i < |ids| - 1 ensures presses[1..][i] as int == ids[1..][i] as int {
          assert presses[1..][i] == presses[i + 1] && ids[1..][i] == ids[i + 1];
        }
      }
      PollsInPressOrder(presses[1..], later, ids[1..]);
      var rest := PollAll(presses[1..] + later, ids[1..]);
      assert PollAll(presses + later, ids) == ([1] + rest.0, rest.1);
      assert [1 as i16] + seq(|ids| - 1, _ => 1) == seq(|ids|, _ => 1);
    } else {
      assert presses + later == later;
      assert PollAll(presses + later, ids) == ([], later);
      assert seq(|ids|, _ => 1 as i16) == [];
    }
  }

  /** A query for a button that is not the oldest press reports nothing and consumes nothing. */
  lemma PollOutOfOrder(queue: seq<i16>, id: u32)
    requires |queue| > 0 && queue[0] as int != id as int
    ensures Poll(queue, id) == (0, queue)
  {
  }

  /**
   * The two adapters disagree on a negative press: the C helper converts the head to
   * unsigned before comparing, so -1 answers a query for 0xFFFFFFFF; the Swift
   * comparison by value does not.
   */
  lemma NegativePressDiffers()
    ensures LibretroCallbacks.AsU32(-1) == 0xFFFF_FFFF
    ensures Poll([-1], 0xFFFF_FFFF) == (0, [-1])
  {
  }
}
