/** What the shared packet buffer holds: accepted tiles at their final offsets
    and the All-1 tile parked in front of, or behind, everything else. */
module PacketBuffer {
  import opened Bits
  import opened FragmentCodec
  import opened Session

  function LastLength(s: Session): (n: nat) {
    if s.last.Last? then |s.last.tile| else 0
  }

  /** Every marked tile that ends at or before limit - final_len keeps its
      bytes, and the All-1 tile is intact at the staging offset. */
  ghost predicate Stored(buf: seq<byte>, s: Session) {
    s.limit <= |buf| && TilesAt(buf, s.tiles, s.limit - LastLength(s)) &&
    (s.last.Last? ==> LastAt(buf, s.staging, s.last.tile))
  }

  ghost predicate TilesAt(buf: seq<byte>, tiles: map<nat, seq<byte>>, tail: int)
    requires tail <= |buf|
  {
    forall o :: o in tiles && (o + 1) * TILE <= tail ==> buf[o * TILE..(o + 1) * TILE] == tiles[o]
  }

  ghost predicate LastAt(buf: seq<byte>, at: nat, tile: seq<byte>) {
    at + |tile| <= |buf| && buf[at..at + |tile|] == tile
  }

  /** buf with x copied to offset at. */
  function Splice(buf: seq<byte>, at: nat, x: seq<byte>): (r: seq<byte>)
    requires at + |x| <= |buf|
    ensures |r| == |buf|
    ensures r[at..at + |x|] == x
  {
    buf[..at] + x + buf[at + |x|..]
  }

  lemma SpliceApart(buf: seq<byte>, at: nat, x: seq<byte>, from: nat, to: nat)
    requires at + |x| <= |buf| && from <= to <= |buf|
    requires to <= at || at + |x| <= from
    ensures Splice(buf, at, x)[from..to] == buf[from..to]
  {
    var r := Splice(buf, at, x);
    assert forall i :: from <= i < to ==> r[i] == buf[i];
  }

  /** The tiles of a full prefix lie in the buffer in order. */
  lemma {:induction false} PrefixInBuffer(buf: seq<byte>, tiles: map<nat, seq<byte>>, n: nat)
    requires HasFirst(tiles, n) && n * TILE <= |buf|
    requires forall o :: 0 <= o < n ==> buf[o * TILE..(o + 1) * TILE] == tiles[o]
    ensures buf[..n * TILE] == Assemble(tiles, n)
  {
    if n > 0 {
      PrefixInBuffer(buf, tiles, n - 1);
      assert buf[..n * TILE] == buf[..(n - 1) * TILE] + buf[(n - 1) * TILE..n * TILE];
    }
  }

  /** Parking the All-1 tile at the end of the buffer. */
  lemma ParkLast(buf: seq<byte>, s: Session, last: Last)
    requires Stored(buf, s) && !s.last.Last? && last.Last? && |last.tile| <= s.limit
    requires ValidTiles(s)
    ensures Stored(Splice(buf, s.limit - |last.tile|, last.tile),
                   s.(last := last, staging := s.limit - |last.tile|))
  {
    var at := s.limit - |last.tile|;
    forall o | o in s.tiles && (o + 1) * TILE + |last.tile| <= s.limit
      ensures Splice(buf, at, last.tile)[o * TILE..(o + 1) * TILE] == s.tiles[o]
    {
      SpliceApart(buf, at, last.tile, o * TILE, (o + 1) * TILE);
    }
  }

  /** Moving the All-1 tile back to the end of the buffer: no marked tile that
      ends before that place is touched. */
  lemma Relocate(buf: seq<byte>, s: Session)
    requires Stored(buf, s) && Valid(s) && s.last.Last?
    ensures Stored(Splice(buf, s.limit - |s.last.tile|, s.last.tile),
                   s.(staging := s.limit - |s.last.tile|))
  {
    var at := s.limit - |s.last.tile|;
    forall o | o in s.tiles && (o + 1) * TILE + |s.last.tile| <= s.limit
      ensures Splice(buf, at, s.last.tile)[o * TILE..(o + 1) * TILE] == s.tiles[o]
    {
      SpliceApart(buf, at, s.last.tile, o * TILE, (o + 1) * TILE);
    }
  }

  /** Moving the All-1 tile forward behind a complete prefix. */
  lemma Advance(buf: seq<byte>, s: Session, n: nat)
    requires Stored(buf, s) && Valid(s) && IsPrefix(s, n) && HasFirst(s.tiles, n)
    requires n * TILE + |s.last.tile| <= s.limit
    ensures Stored(Splice(buf, n * TILE, s.last.tile), s.(staging := n * TILE))
    ensures Splice(buf, n * TILE, s.last.tile)[..n * TILE + |s.last.tile|] ==
            Assemble(s.tiles, n) + s.last.tile
  {
    var tile := s.last.tile;
    var r := Splice(buf, n * TILE, tile);
    forall o | 0 <= o < n
      ensures r[o * TILE..(o + 1) * TILE] == s.tiles[o]
    {
      SpliceApart(buf, n * TILE, tile, o * TILE, (o + 1) * TILE);
    }
    PrefixInBuffer(r, s.tiles, n);
    assert r[..n * TILE + |tile|] == r[..n * TILE] + r[n * TILE..n * TILE + |tile|];
  }

  /** Writing a tile that ends at or before the staging offset. */
  lemma PutTile(buf: seq<byte>, s: Session, o: nat, tile: seq<byte>)
    requires Stored(buf, s) && |tile| == TILE && (o + 1) * TILE <= s.limit && o !in s.tiles
    requires s.last.Last? ==> (o + 1) * TILE <= s.staging
    ensures Stored(Splice(buf, o * TILE, tile), s.(tiles := s.tiles[o := tile]))
  {
    var r := Splice(buf, o * TILE, tile);
    forall p | p in s.tiles && (p + 1) * TILE + LastLength(s) <= s.limit
      ensures r[p * TILE..(p + 1) * TILE] == s.tiles[p]
    {
      assert p < o || p > o;
      SpliceApart(buf, o * TILE, tile, p * TILE, (p + 1) * TILE);
    }
    if s.last.Last? {
      SpliceApart(buf, o * TILE, tile, s.staging, s.staging + |s.last.tile|);
    }
  }
}
