/** Packets that may be reported short: exactly those whose later tiles lead the
    CRC register round a circle. There are some of every length, unless the last
    tile is alone in its window. */
module ShortPackets {
  import opened Bits
  import opened FragmentCodec
  import opened Tiles
  import opened Honest
  import opened Exchange
  import opened Lossless
  import opened LossyPass
  import opened Rcs
  import opened Register
  import S = Sender
  import R = Session

  /** The register after the first n tiles. */
  function After(j: Job, n: nat): (r: Word)
    requires ValidJob(j) && n <= Count(j) - 1
  {
    Update(Fill(true), j.packet[..n * TILE])
  }

  /** The first n tiles collide with the packet if and only if the tiles after
      them, up to the last, bring the register back to where it was. */
  lemma CollisionExactly(j: Job, n: nat)
    requires ValidJob(j) && n < Count(j) - 1
    ensures Collision(j, n) <==> LastWindow(j) * WINDOW <= n && After(j, n) == After(j, Count(j) - 1)
  {
    hide Update, Check;
    var ones, last := Fill(true), Tile(j.packet, Count(j) - 1);
    LeadingAll(j);
    CheckExactly(Leading(j, n), j.packet);
    UpdateConcat(ones, j.packet[..n * TILE], last);
    UpdateConcat(ones, j.packet[..(Count(j) - 1) * TILE], last);
    if Update(ones, Leading(j, n)) == Update(ones, j.packet) {
      UpdateInjective(After(j, n), After(j, Count(j) - 1), last);
    }
  }

  /** Equal but for the four bytes that end at position p. */
  ghost predicate Twins(a: seq<byte>, b: seq<byte>, p: nat) {
    |a| == |b| && 4 <= p <= |a| && a[..p - 4] == b[..p - 4] && a[p..] == b[p..]
  }

  /** Every packet with n in its last window has a twin that collides at n:
      four bytes of the last tile but one make the difference. */
  lemma CollidingTwin(j: Job, n: nat) returns (k: Job)
    requires ValidJob(j) && LastWindow(j) * WINDOW <= n < Count(j) - 1
    ensures ValidJob(k) && k.rule == j.rule && Twins(j.packet, k.packet, (Count(j) - 1) * TILE)
    ensures Count(k) == Count(j) && Collision(k, n)
  {
    hide Update, Check, Collision;
    var p, ones := (Count(j) - 1) * TILE, Fill(true);
    assert n * TILE <= p - TILE && p < |j.packet|;
    var front := j.packet[..p - 4];
    var four := FourBytes(Update(ones, front), After(j, n));
    k := Job(front + four + j.packet[p..], j.rule);
    assert k.packet[..p] == front + four;
    assert k.packet[..n * TILE] == j.packet[..n * TILE];
    UpdateConcat(ones, front, four);
    CollisionExactly(k, n);
  }

  /** So some packet of the same length is reported short. */
  lemma SomeReportedShort(j: Job, n: nat, senderLimit: nat, limit: nat)
    returns (k: Job, s: S.Sender, actions: seq<Action>)
    requires ValidJob(j) && LastWindow(j) * WINDOW <= n < Count(j) - 1
    requires |j.packet| <= limit <= MAX_PACKET && |j.packet| <= senderLimit <= MAX_PACKET
    ensures ValidJob(k) && Twins(j.packet, k.packet, (Count(j) - 1) * TILE) && Count(k) == Count(j)
    ensures S.Init(k.rule, k.packet, senderLimit) == Ok(s)
    ensures Run(Start(s, limit), actions).reported == [Leading(k, n)] && Leading(k, n) != k.packet
  {
    hide Collision, Leading;
    k := CollidingTwin(j, n);
    s := S.Init(k.rule, k.packet, senderLimit).value;
    actions := ShortReported(k, s, senderLimit, limit, n);
  }
}
