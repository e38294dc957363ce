/**
 * The session's pressed-button table `pressedButtons[port][device][index][id]` and the
 * three ways the frontend writes it: pre-registering the buttons a core describes, and
 * pressing or releasing a button. Swift's optional chaining decides what each write may
 * create: `t[p]?[d]?[i]?[id] = v` assigns only when the port, device and index levels
 * all exist (inserting `id` in the innermost dictionary), and does nothing otherwise.
 */
module ButtonTable {
  import opened Common

  type Table = map<u32, map<u32, map<u32, map<u32, i16>>>>

  /** `t[p]?[d]?[i]?[id]`. */
  function Lookup(t: Table, p: u32, d: u32, i: u32, id: u32): Option<i16> {
    if p in t && d in t[p] && i in t[p][d] && id in t[p][d][i] then Some(t[p][d][i][id]) else None
  }

  predicate DeviceExists(t: Table, p: u32, d: u32) {
    p in t && d in t[p]
  }

  /** The port, device and index levels on the way to a button all exist. */
  predicate PathExists(t: Table, p: u32, d: u32, i: u32) {
    p in t && d in t[p] && i in t[p][d]
  }

  /** The two tables have the same port, device and index levels. */
  ghost predicate SameLevels(t: Table, r: Table) {
    && (forall p: u32 :: p in r <==> p in t)
    && (forall p: u32, d: u32 :: DeviceExists(r, p, d) <==> DeviceExists(t, p, d))
    && (forall p: u32, d: u32, i: u32 :: PathExists(r, p, d, i) <==> PathExists(t, p, d, i))
  }

  /** Every button reads the same in both tables. */
  ghost predicate SameButtons(t: Table, r: Table) {
    forall p: u32, d: u32, i: u32, id: u32 :: Lookup(r, p, d, i, id) == Lookup(t, p, d, i, id)
  }

  /** `if t[p] == nil { t[p] = [:] }`. */
  function AddPort(t: Table, p: u32): (r: Table)
    ensures p in r && (p in t ==> r == t)
  {
    if p in t then t else t[p := map[]]
  }

  /** Adding a port level reads no button differently and creates no device or index level. */
  lemma AddPortFrame(t: Table, p: u32)
    ensures var r := AddPort(t, p);
      && SameButtons(t, r)
      && (forall q: u32 :: q in r <==> q in t || q == p)
      && (forall q: u32, e: u32 :: DeviceExists(r, q, e) <==> DeviceExists(t, q, e))
      && (forall q: u32, e: u32, j: u32 :: PathExists(r, q, e, j) <==> PathExists(t, q, e, j))
  {
  }

  /** `if t[p]?[d] == nil { t[p]?[d] = [:] }`, once the port exists. */
  function AddDevice(t: Table, p: u32, d: u32): (r: Table)
    requires p in t
    ensures DeviceExists(r, p, d) && (d in t[p] ==> r == t)
  {
    if d in t[p] then t
    else
      var devices: map<u32, map<u32, map<u32, i16>>> := t[p];
      var indexes: map<u32, map<u32, i16>> := map[];
      t[p := devices[d := indexes]]
  }

  /** Adding a device level reads no button differently and creates only that device. */
  lemma AddDeviceFrame(t: Table, p: u32, d: u32)
    requires p in t
    ensures var r := AddDevice(t, p, d);
      && SameButtons(t, r)
      && (forall q: u32 :: q in r <==> q in t)
      && (forall q: u32, e: u32 :: DeviceExists(r, q, e) <==> DeviceExists(t, q, e) || (q, e) == (p, d))
      && (forall q: u32, e: u32, j: u32 :: PathExists(r, q, e, j) <==> PathExists(t, q, e, j))
  {
  }

  /** `if t[p]?[d]?[i] == nil { t[p]?[d]?[i] = [:] }`, once the device exists. */
  function AddIndex(t: Table, p: u32, d: u32, i: u32): (r: Table)
    requires DeviceExists(t, p, d)
    ensures PathExists(r, p, d, i) && (i in t[p][d] ==> r == t)
  {
    if i in t[p][d] then t
    else
      var devices: map<u32, map<u32, map<u32, i16>>> := t[p];
      var indexes: map<u32, map<u32, i16>> := devices[d];
      var ids: map<u32, i16> := map[];
      t[p := devices[d := indexes[i := ids]]]
  }

  /** Adding an index level reads no button differently and creates only that index. */
  lemma AddIndexFrame(t: Table, p: u32, d: u32, i: u32)
    requires DeviceExists(t, p, d)
    ensures var r := AddIndex(t, p, d, i);
      && SameButtons(t, r)
      && (forall q: u32 :: q in r <==> q in t)
      && (forall q: u32, e: u32 :: DeviceExists(r, q, e) <==> DeviceExists(t, q, e))
      && (forall q: u32, e: u32, j: u32 :: PathExists(r, q, e, j) <==> PathExists(t, q, e, j) || (q, e, j) == (p, d, i))
  {
  }

  /** `if t[p]?[d]?[i]?[id] == nil { t[p]?[d]?[i]?[id] = v }`, once the index level exists. */
  function AddButton(t: Table, p: u32, d: u32, i: u32, id: u32, v: i16): (r: Table)
    requires PathExists(t, p, d, i)
    ensures Lookup(r, p, d, i, id) == if Lookup(t, p, d, i, id).Some? then Lookup(t, p, d, i, id) else Some(v)
    ensures Lookup(t, p, d, i, id).Some? ==> r == t
  {
    if id in t[p][d][i] then t else t[p := t[p][d := t[p][d][i := t[p][d][i][id := v]]]]
  }

  /** Adding a button entry changes no other button and no level. */
  lemma AddButtonFrame(t: Table, p: u32, d: u32, i: u32, id: u32, v: i16)
    requires PathExists(t, p, d, i)
    ensures var r := AddButton(t, p, d, i, id, v);
      && (forall p': u32, d': u32, i': u32, k: u32 | (p', d', i', k) != (p, d, i, id) :: Lookup(r, p', d', i', k) == Lookup(t, p', d', i', k))
      && SameLevels(t, r)
  {
  }

  /**
   * Creates each missing level on the way to `[p][d][0][id]`, and the entry itself with
   * `initial`; an entry already there keeps its value.
   */
  function EnsureEntry(t: Table, p: u32, d: u32, id: u32, initial: i16): (r: Table)
    ensures Lookup(r, p, d, 0, id) == if Lookup(t, p, d, 0, id).Some? then Lookup(t, p, d, 0, id) else Some(initial)
    ensures Lookup(t, p, d, 0, id).Some? ==> r == t
    ensures forall p': u32, d': u32, i': u32, k: u32 | (p', d', i', k) != (p, d, 0, id) :: Lookup(r, p', d', i', k) == Lookup(t, p', d', i', k)
    ensures forall q: u32 :: q in r <==> q in t || q == p
    ensures forall q: u32, e: u32 :: DeviceExists(r, q, e) <==> DeviceExists(t, q, e) || (q, e) == (p, d)
    ensures forall q: u32, e: u32, j: u32 :: PathExists(r, q, e, j) <==> PathExists(t, q, e, j) || (q, e, j) == (p, d, 0)
  {
    var withPort := AddPort(t, p);
    AddPortFrame(t, p);
    var withDevice := AddDevice(withPort, p, d);
    AddDeviceFrame(withPort, p, d);
    var withIndex := AddIndex(withDevice, p, d, 0);
    AddIndexFrame(withDevice, p, d, 0);
    AddButtonFrame(withIndex, p, d, 0, id, initial);
    AddButton(withIndex, p, d, 0, id, initial)
  }

  /** `t[p]?[d]?[i]?[id] = v`. */
  function WriteIfPathExists(t: Table, p: u32, d: u32, i: u32, id: u32, v: i16): (r: Table)
    ensures !PathExists(t, p, d, i) ==> r == t
    ensures PathExists(t, p, d, i) ==> Lookup(r, p, d, i, id) == Some(v)
    ensures forall p': u32, d': u32, i': u32, k: u32 | (p', d', i', k) != (p, d, i, id) :: Lookup(r, p', d', i', k) == Lookup(t, p', d', i', k)
    ensures SameLevels(t, r)
  {
    if PathExists(t, p, d, i) then t[p := t[p][d := t[p][d][i := t[p][d][i][id := v]]]] else t
  }

  /**
   * `pressButton(port:device:index:button:)` with a numeric id: registers the button at
   * index 0 as pressed if it is not there yet, then marks it pressed at `i` if that level exists.
   */
  function Press(t: Table, p: u32, d: u32, i: u32, id: u32): Table {
    WriteIfPathExists(EnsureEntry(t, p, d, id, 1), p, d, i, id, 1)
  }

  /** `unpressButton(port:device:index:button:)` with a numeric id. */
  function Unpress(t: Table, p: u32, d: u32, i: u32, id: u32): Table {
    WriteIfPathExists(t, p, d, i, id, 0)
  }

  /** After a press the button reads 1 exactly when it was pressed at index 0 or its index level already existed. */
  lemma PressLookup(t: Table, p: u32, d: u32, i: u32, id: u32)
    ensures Lookup(Press(t, p, d, i, id), p, d, i, id) == Some(1) <==> i == 0 || PathExists(t, p, d, i)
  {
    var e := EnsureEntry(t, p, d, id, 1);
    assert PathExists(e, p, d, i) <==> i == 0 || PathExists(t, p, d, i);
    if !PathExists(e, p, d, i) {
      assert Lookup(e, p, d, i, id) == Lookup(t, p, d, i, id);
    }
  }

  /** A press touches no other button. */
  lemma PressFrames(t: Table, p: u32, d: u32, i: u32, id: u32, p': u32, d': u32, i': u32, k: u32)
    requires k != id || (p', d') != (p, d) || (i' != i && i' != 0)
    ensures Lookup(Press(t, p, d, i, id), p', d', i', k) == Lookup(t, p', d', i', k)
  {
  }

  /** A release creates no level and writes 0 exactly where the index level exists; nothing else changes. */
  lemma UnpressLookup(t: Table, p: u32, d: u32, i: u32, id: u32)
    ensures SameLevels(t, Unpress(t, p, d, i, id))
    ensures Lookup(Unpress(t, p, d, i, id), p, d, i, id) == if PathExists(t, p, d, i) then Some(0) else None
  {
  }

  /** Pressing and then releasing a button at index 0 leaves it registered and released. */
  lemma PressThenUnpress(t: Table, p: u32, d: u32, id: u32)
    ensures Lookup(Unpress(Press(t, p, d, 0, id), p, d, 0, id), p, d, 0, id) == Some(0)
  {
    PressLookup(t, p, d, 0, id);
  }

  /** The press overload for a logical button: the numeric press of each of its ids, in order. */
  function PressAll(t: Table, p: u32, d: u32, i: u32, ids: seq<u32>): Table
    decreases |ids|
  {
    if |ids| == 0 then t else PressAll(Press(t, p, d, i, ids[0]), p, d, i, ids[1..])
  }

  /** The release overload for a logical button. */
  function UnpressAll(t: Table, p: u32, d: u32, i: u32, ids: seq<u32>): Table
    decreases |ids|
  {
    if |ids| == 0 then t else UnpressAll(Unpress(t, p, d, i, ids[0]), p, d, i, ids[1..])
  }

  /** Pressing a logical button at index 0 leaves every one of its ids reading 1. */
  lemma {:induction false} PressAllPressed(t: Table, p: u32, d: u32, ids: seq<u32>, k: u32)
    requires k in ids || Lookup(t, p, d, 0, k) == Some(1)
    ensures Lookup(PressAll(t, p, d, 0, ids), p, d, 0, k) == Some(1)
    decreases |ids|
  {
    if |ids| > 0 {
      var t' := Press(t, p, d, 0, ids[0]);
      if k == ids[0] {
        PressLookup(t, p, d, 0, k);
      } else {
        PressFrames(t, p, d, 0, ids[0], p, d, 0, k);
        assert k in ids[1..] || Lookup(t, p, d, 0, k) == Some(1);
      }
      PressAllPressed(t', p, d, ids[1..], k);
    }
  }

  /** Releasing creates no level, whatever the ids. */
  lemma {:induction false} UnpressAllLevels(t: Table, p: u32, d: u32, i: u32, ids: seq<u32>)
    ensures SameLevels(t, UnpressAll(t, p, d, i, ids))
    decreases |ids|
  {
    if |ids| > 0 {
      UnpressLookup(t, p, d, i, ids[0]);
      UnpressAllLevels(Unpress(t, p, d, i, ids[0]), p, d, i, ids[1..]);
    }
  }

  /** A descriptor of `SET_INPUT_DESCRIPTORS`, reduced to what the table uses. */
  datatype Descriptor = Descriptor(port: u32, device: u32, id: u32)

  /** Pre-registration of the described buttons, each released, in order. */
  function RegisterAll(t: Table, ds: seq<Descriptor>): Table
    decreases |ds|
  {
    if |ds| == 0 then t else RegisterAll(EnsureEntry(t, ds[0].port, ds[0].device, ds[0].id, 0), ds[1..])
  }

  /** Registration keeps every value already in the table. */
  lemma {:induction false} RegisterAllKeeps(t: Table, ds: seq<Descriptor>, p: u32, d: u32, i: u32, k: u32)
    requires Lookup(t, p, d, i, k).Some?
    ensures Lookup(RegisterAll(t, ds), p, d, i, k) == Lookup(t, p, d, i, k)
    decreases |ds|
  {
    if |ds| > 0 {
      RegisterAllKeeps(EnsureEntry(t, ds[0].port, ds[0].device, ds[0].id, 0), ds[1..], p, d, i, k);
    }
  }

  /** After registration every described button has an entry at index 0. */
  lemma {:induction false} RegisterAllRegisters(t: Table, ds: seq<Descriptor>, n: nat)
    requires n < |ds|
    ensures Lookup(RegisterAll(t, ds), ds[n].port, ds[n].device, 0, ds[n].id).Some?
    decreases |ds|
  {
    var d := ds[0];
    var t' := EnsureEntry(t, d.port, d.device, d.id, 0);
    assert RegisterAll(t, ds) == RegisterAll(t', ds[1..]);
    if n == 0 {
      assert Lookup(t', d.port, d.device, 0, d.id).Some?;
      RegisterAllKeeps(t', ds[1..], d.port, d.device, 0, d.id);
    } else {
      assert ds[1..][n - 1] == ds[n];
      RegisterAllRegisters(t', ds[1..], n - 1);
    }
  }

  /** A table in which every described button already has an entry is left as it is. */
  lemma {:induction false} RegisterAllStable(t: Table, ds: seq<Descriptor>)
    requires forall n | 0 <= n < |ds| :: Lookup(t, ds[n].port, ds[n].device, 0, ds[n].id).Some?
    ensures RegisterAll(t, ds) == t
    decreases |ds|
  {
    if |ds| > 0 {
      assert Lookup(t, ds[0].port, ds[0].device, 0, ds[0].id).Some?;
      forall n | 0 <= n < |ds[1..]|
        ensures Lookup(t, ds[1..][n].port, ds[1..][n].device, 0, ds[1..][n].id).Some?
      {
        assert ds[1..][n] == ds[n + 1];
      }
      RegisterAllStable(t, ds[1..]);
    }
  }

  /** Registering the same descriptors twice is registering them once. */
  lemma RegisterAllIdempotent(t: Table, ds: seq<Descriptor>)
    ensures RegisterAll(RegisterAll(t, ds), ds) == RegisterAll(t, ds)
  {
    forall n | 0 <= n < |ds|
      ensures Lookup(RegisterAll(t, ds), ds[n].port, ds[n].device, 0, ds[n].id).Some?
    {
      RegisterAllRegisters(t, ds, n);
    }
    RegisterAllStable(RegisterAll(t, ds), ds);
  }
}
