/**
 The simulated Game Boy VRAM a level's tile graphics are placed in. A control
 byte picks where the decoded tiles start and which tile-addressing mode is
 in use; the tiles are padded with zeros into a window of fixed length,
 three fill tiles are written over slots 0xFD to 0xFF, and the decoded
 translation stream is cut into the four quadrant tables.
 */
module Vram {
  import opened Results
  import opened Banks

  /** The first VRAM address the tiles are written to: 16-byte tiles counted down from 0x9630. */
  function VramStart(control: byte): (s: nat)
    ensures 0x8640 <= s <= 0x9630 && s % 16 == 0
    ensures s == 0x9630 - 16 * control
  {
    (0x9630 - control * 16) % 0x10000
  }

  /** The source computes the start with a shift and a 16-bit mask. */
  lemma VramStartIsBitwise(control: bv8)
    ensures ((0x9630 - (control as bv32 << 4)) & 0xFFFF) as int == VramStart(control as int)
  {
    var shifted := control as bv32 << 4;
    assert shifted as int == 16 * control as int;
    assert shifted <= 0xFF0;
    assert (0x9630 - shifted) as int == 0x9630 - 16 * control as int;
    assert (0x9630 - shifted) & 0xFFFF == 0x9630 - shifted;
  }

  /** The control byte can be read back from the start address. */
  lemma VramStartInverse(control: byte)
    ensures (0x9630 - VramStart(control)) / 16 == control
  {
  }

  /** Tiles start below 0x8800 only in the 0x8000 addressing mode. */
  function TileMode(start: nat): (mode: nat)
    ensures mode == 0x8000 || mode == 0x8800
    ensures mode == 0x8000 <==> start < 0x8800
  {
    if start < 0x8800 then 0x8000 else 0x8800
  }

  /** The 0x8000 mode is selected exactly by the control bytes 0xE4 to 0xFF. */
  lemma ModeOfControl(control: byte)
    ensures TileMode(VramStart(control)) == 0x8000 <==> control >= 0xE4
  {
  }

  /** The zeros before the tiles never have a negative count: at most 0xE30 of them. */
  lemma PrePaddingBounds(control: byte)
    ensures 0 <= VramStart(control) - TileMode(VramStart(control)) <= 0xE30
  {
  }

  /** The length of the padded window in both modes: 0x9800 or 0xA000. */
  function WindowLength(mode: nat): nat {
    mode + 0x1800
  }

  function Zeros(n: nat): (z: seq<nat>)
    ensures |z| == n && forall i :: 0 <= i < n ==> z[i] == 0
  {
    seq(n, _ => 0)
  }

  /** Byte `i` of the padded window: a decoded byte inside the tiles, zero around them. */
  predicate PaddedAt(r: seq<nat>, decoded: seq<nat>, start: nat, mode: nat, i: nat)
    requires mode <= start && i < |r|
  {
    var pre := start - mode;
    if pre <= i < pre + |decoded| then r[i] == decoded[i - pre] else r[i] == 0
  }

  /**
   Places the decoded tiles at `start - mode` in a zero window of length
   `mode + 0x1800`. A negative count of leading or trailing zeros is the
   invalid array length the source's `new Array` rejects.
   */
  function Pad(decoded: seq<nat>, start: nat, mode: nat): (r: Result<seq<nat>>)
    ensures r.Success? <==> mode <= start && start - mode + |decoded| <= WindowLength(mode)
    ensures r.Failure? ==> r.error.InvalidArrayLength? && r.error.len < 0
    ensures r.Success? ==> |r.value| == WindowLength(mode)
    ensures r.Success? ==> forall i :: 0 <= i < |r.value| ==> PaddedAt(r.value, decoded, start, mode, i)
  {
    var pre := start - mode;
    if pre < 0 then Failure(InvalidArrayLength(pre))
    else
      var post := WindowLength(mode) - (pre + |decoded|);
      if post < 0 then Failure(InvalidArrayLength(post))
      else
        var r := Zeros(pre) + decoded + Zeros(post);
        assert forall i :: 0 <= i < |r| ==> PaddedAt(r, decoded, start, mode, i) by {
          forall i | 0 <= i < |r|
            ensures PaddedAt(r, decoded, start, mode, i)
          {
            if i < pre {
              assert r[i] == Zeros(pre)[i];
            } else if i < pre + |decoded| {
              assert r[i] == decoded[i - pre];
            } else {
              assert r[i] == Zeros(post)[i - pre - |decoded|];
            }
          }
        }
        Success(r)
  }

  /**
   `Array.prototype.splice(start, deleteCount, ...items)` for a start that
   is not negative: both the start and the deleted count are clamped to the
   array, and the items take the place of the deleted elements.
   */
  function Splice(a: seq<nat>, start: nat, deleteCount: nat, items: seq<nat>): (r: seq<nat>)
    ensures start + deleteCount <= |a| ==>
              |r| == |a| - deleteCount + |items| && r[..start] == a[..start] &&
              r[start..start + |items|] == items && r[start + |items|..] == a[start + deleteCount..]
    ensures start > |a| ==> r == a + items
  {
    var s := if start <= |a| then start else |a|;
    var n := if deleteCount <= |a| - s then deleteCount else |a| - s;
    a[..s] + items + a[s + n..]
  }

  /** Sixteen bytes alternating `first`, `second`. */
  function Stripe(first: nat, second: nat): (t: seq<nat>)
    ensures |t| == 16 && forall i :: 0 <= i < 16 ==> t[i] == if i % 2 == 0 then first else second
  {
    seq(16, i => if i % 2 == 0 then first else second)
  }

  /**
   Byte `i` of the fill tiles at slots 0xFD, 0xFE and 0xFF: the FF/00 stripe,
   the 00/FF stripe and a zero tile.
   */
  function FillByte(i: nat): nat {
    if i < 0xFE0 then (if i % 2 == 0 then 0xFF else 0x00)
    else if i < 0xFF0 then (if i % 2 == 0 then 0x00 else 0xFF)
    else 0x00
  }

  /** The byte the overlay leaves at position `i` of a window. */
  function OverlayByte(buf: seq<nat>, i: nat): nat
    requires i < |buf|
  {
    if 0xFD0 <= i < 0x1000 then FillByte(i) else buf[i]
  }

  /**
   Overwrites tile slots 0xFD, 0xFE and 0xFF with the fill tiles the game
   assumes there. In a window of at least 0x1000 bytes only those 48 bytes change.
   */
  function Overlay(buf: seq<nat>): (r: seq<nat>)
    ensures |buf| >= 0x1000 ==> |r| == |buf| && forall i :: 0 <= i < |r| ==> r[i] == OverlayByte(buf, i)
  {
    var a := Splice(buf, 0xFD0, 16, Stripe(0xFF, 0x00));
    var b := Splice(a, 0xFE0, 16, Stripe(0x00, 0xFF));
    var c := Splice(b, 0xFF0, 16, Zeros(16));
    if |buf| >= 0x1000 then
      OverlayPointwise(buf, a, b, c);
      c
    else
      c
  }

  lemma OverlayPointwise(buf: seq<nat>, a: seq<nat>, b: seq<nat>, c: seq<nat>)
    requires |buf| >= 0x1000
    requires a == Splice(buf, 0xFD0, 16, Stripe(0xFF, 0x00))
    requires b == Splice(a, 0xFE0, 16, Stripe(0x00, 0xFF))
    requires c == Splice(b, 0xFF0, 16, Zeros(16))
    ensures |c| == |buf| && forall i :: 0 <= i < |c| ==> c[i] == OverlayByte(buf, i)
  {
    forall i | 0 <= i < |c|
      ensures c[i] == OverlayByte(buf, i)
    {
      if i < 0xFD0 {
        assert c[i] == c[..0xFF0][i] == b[..0xFF0][i] == b[..0xFE0][i] == a[..0xFE0][i] == a[..0xFD0][i] == buf[..0xFD0][i];
      } else if i < 0xFE0 {
        assert c[i] == c[..0xFF0][i] == b[..0xFF0][i] == b[..0xFE0][i] == a[..0xFE0][i];
        assert a[i] == a[0xFD0..0xFE0][i - 0xFD0] == Stripe(0xFF, 0x00)[i - 0xFD0];
      } else if i < 0xFF0 {
        assert c[i] == c[..0xFF0][i] == b[..0xFF0][i];
        assert b[i] == b[0xFE0..0xFF0][i - 0xFE0] == Stripe(0x00, 0xFF)[i - 0xFE0];
      } else if i < 0x1000 {
        assert c[i] == c[0xFF0..0x1000][i - 0xFF0] == Zeros(16)[i - 0xFF0];
      } else {
        assert c[i] == c[0x1000..][i - 0x1000] == b[0x1000..][i - 0x1000] == b[i];
        assert b[i] == b[0xFF0..][i - 0xFF0] == a[0xFF0..][i - 0xFF0] == a[i];
        assert a[i] == a[0xFE0..][i - 0xFE0] == buf[0xFE0..][i - 0xFE0];
      }
    }
  }

  /** Entry `k * chunk + i` of the translation stream, if the stream is that long. */
  function Entry(translation: seq<nat>, chunk: nat, k: int, i: int): Option<nat> {
    if 0 <= k * chunk + i < |translation| then Some(translation[k * chunk + i]) else None
  }

  /**
   Cuts the translation stream into four quadrant tables of `chunk` entries
   each (top left, top right, bottom left, bottom right). A read past the end
   of the stream is JavaScript's `undefined`, here `None`.
   */
  function SplitLayers(translation: seq<nat>, chunk: nat): (layers: seq<seq<Option<nat>>>)
    ensures |layers| == 4
    ensures forall k :: 0 <= k < 4 ==> |layers[k]| == chunk
    ensures forall k, i :: 0 <= k < 4 && 0 <= i < chunk ==>
              (layers[k][i].Some? <==> k * chunk + i < |translation|)
    ensures forall k, i :: 0 <= k < 4 && 0 <= i < chunk && layers[k][i].Some? ==>
              layers[k][i].value == translation[k * chunk + i]
  {
    seq(4, k => seq(chunk, i => Entry(translation, chunk, k, i)))
  }

  /** The defined entries of a table. */
  function Values(layer: seq<Option<nat>>): seq<nat> {
    if layer == [] then []
    else (if layer[0].Some? then [layer[0].value] else []) + Values(layer[1..])
  }

  /** A stream that covers all four tables is exactly their concatenation, then whatever follows. */
  lemma SplitCoversStream(translation: seq<nat>, chunk: nat)
    requires 4 * chunk <= |translation|
    ensures var layers := SplitLayers(translation, chunk);
      Values(layers[0]) + Values(layers[1]) + Values(layers[2]) + Values(layers[3]) == translation[..4 * chunk]
  {
    var layers := SplitLayers(translation, chunk);
    forall k: nat | k < 4
      ensures Values(layers[k]) == translation[k * chunk..(k + 1) * chunk]
    {
      LayerValues(translation, chunk, k, layers[k], 0);
      assert layers[k][0..] == layers[k];
    }
    var t := translation;
    assert t[..4 * chunk] == t[0..chunk] + t[chunk..2 * chunk] + t[2 * chunk..3 * chunk] + t[3 * chunk..4 * chunk];
  }

  /** The entries of one table from position `i` on, when they are all defined. */
  lemma {:induction false} LayerValues(translation: seq<nat>, chunk: nat, k: nat, layer: seq<Option<nat>>, i: nat)
    requires (k + 1) * chunk <= |translation| && i <= chunk
    requires |layer| == chunk && forall j :: 0 <= j < chunk ==> layer[j] == Entry(translation, chunk, k, j)
    ensures Values(layer[i..]) == translation[k * chunk + i..(k + 1) * chunk]
    decreases chunk - i
  {
    if i < chunk {
      assert layer[i..][1..] == layer[i + 1..];
      assert layer[i..][0] == Some(translation[k * chunk + i]);
      LayerValues(translation, chunk, k, layer, i + 1);
    } else {
      assert layer[i..] == [];
    }
  }
}
