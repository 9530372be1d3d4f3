/** How a packet is cut into 179-byte tiles, and which bit of which 63-tile
    window stands for each tile. */
module Tiles {
  import opened Bits
  import opened FragmentCodec
  import Rcs

  const MAX_TILES: nat := 2 * WINDOW
  const MAX_PACKET: nat := MAX_TILES * TILE
  const MAX_MESSAGE: nat := 185  // no frame is longer
  const MAX_ATTEMPTS: nat := 4  // of either side, before it aborts

  function TileCount(length: nat): (n: nat)
    ensures length > 0 ==> n > 0 && (n - 1) * TILE < length <= n * TILE
  {
    (length + TILE - 1) / TILE
  }

  predicate ValidPacket(packet: seq<byte>) {
    0 < |packet| <= MAX_PACKET
  }

  function Tile(packet: seq<byte>, i: nat): (tile: seq<byte>)
    requires i < TileCount(|packet|)
    ensures 1 <= |tile| <= TILE
    ensures i + 1 < TileCount(|packet|) ==> |tile| == TILE
  {
    if (i + 1) * TILE <= |packet| then packet[i * TILE..(i + 1) * TILE] else packet[i * TILE..]
  }

  function FinalWindow(count: nat): (w: nat)
    requires count > 0
  {
    (count - 1) / WINDOW
  }

  /** The last tile travels as All-1 and has bit 0 of the final window. */
  function TileBit(count: nat, i: nat): (b: nat)
    requires i < count
    ensures b < WINDOW
  {
    if i + 1 == count then 0 else WINDOW - 1 - i % WINDOW
  }

  /** The bits of a window that stand for a tile of the packet. */
  function Assigned(count: nat, window: nat): (bits: set<nat>) {
    AssignedBelow(count, window, count)
  }

  function AssignedBelow(count: nat, window: nat, n: nat): (bits: set<nat>)
    requires n <= count
  {
    set i | 0 <= i < n && i / WINDOW == window :: TileBit(count, i)
  }

  lemma AssignedStep(count: nat, window: nat, n: nat)
    requires n < count
    ensures AssignedBelow(count, window, n + 1) ==
            AssignedBelow(count, window, n) + if n / WINDOW == window then {TileBit(count, n)} else {}
  {
    forall b | b in AssignedBelow(count, window, n + 1)
      ensures b in AssignedBelow(count, window, n) || (n / WINDOW == window && b == TileBit(count, n))
    {
      var i :| 0 <= i < n + 1 && i / WINDOW == window && TileBit(count, i) == b;
      assert i < n ==> b in AssignedBelow(count, window, n);
    }
  }

  /** Tile index for a bit of a window, as the retransmission loop computes it. */
  function TileAt(count: nat, window: nat, bit: nat): (i: int)
    requires count > 0
  {
    if bit == 0 && window == FinalWindow(count) then count - 1 else window * WINDOW + WINDOW - 1 - bit
  }

  lemma TileAtInvertsTileBit(count: nat, i: nat)
    requires i < count
    ensures TileAt(count, i / WINDOW, TileBit(count, i)) == i
  {
    if i + 1 < count && TileBit(count, i) == 0 {
      assert i % WINDOW == WINDOW - 1;
      assert (count - 1) / WINDOW > i / WINDOW;
    }
  }

  lemma TileBitInjective(count: nat, i: nat, j: nat)
    requires i < count && j < count
    requires i / WINDOW == j / WINDOW && TileBit(count, i) == TileBit(count, j)
    ensures i == j
  {
    TileAtInvertsTileBit(count, i);
    TileAtInvertsTileBit(count, j);
  }

  lemma AssignedTile(count: nat, window: nat, bit: nat)
    requires count > 0 && bit in Assigned(count, window)
    ensures 0 <= TileAt(count, window, bit) < count
    ensures TileAt(count, window, bit) / WINDOW == window
    ensures TileBit(count, TileAt(count, window, bit)) == bit
    ensures window <= FinalWindow(count)
  {
    var i :| 0 <= i < count && i / WINDOW == window && TileBit(count, i) == bit;
    TileAtInvertsTileBit(count, i);
  }

  /** sender_fragment: the fragment that carries tile i. */
  function FragmentOf(packet: seq<byte>, rule: byte, i: nat): (f: Fragment)
    requires ValidRule(rule) && ValidPacket(packet) && i < TileCount(|packet|)
    ensures ValidFragment(f)
  {
    var final := i + 1 == TileCount(|packet|);
    Fragment(rule, i / WINDOW, if final then ALL_1 else WINDOW - 1 - i % WINDOW,
             if final then Rcs.Check(packet) else NO_RCS, Tile(packet, i))
  }

  function Frame(packet: seq<byte>, rule: byte, i: nat): (wire: seq<byte>)
    requires ValidRule(rule) && ValidPacket(packet) && i < TileCount(|packet|)
    ensures |wire| >= 2 && wire[0] == rule
  {
    Encode(FragmentOf(packet, rule, i))
  }
}
