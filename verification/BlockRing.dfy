/** What the two ends of a block queue agree on: packets lie one behind the other
    in a ring of fixed-size blocks, each from the start of a block, and only the
    descriptor of a packet's first block is filled in. */
module BlockRing {
  import opened Bytes

  /** Sizes that the firmware interface fixes: of a block and of a buffer
      descriptor, the place and width of the length field in a descriptor (a unit
      of 1 << shift and a span of 1 << width), and the longest packet. */
  datatype Sizes = Sizes(block: nat, bd: nat, unit: nat, span: nat, maxLen: nat)
  {
    ghost predicate Ok() {
      block > 0 && bd > 0 && unit > 0 && maxLen < span
    }

    /** DIV_ROUND_UP(len, ICSS_BLOCK_SIZE) */
    function Blocks(len: nat): (n: nat)
      requires block > 0
    {
      (len + block - 1) / block
    }

    /** (pktlen << PRUETH_BD_LENGTH_SHIFT) & PRUETH_BD_LENGTH_MASK */
    function Encode(len: nat): nat
      requires span > 0
    {
      len % span * unit
    }

    /** (descriptor & PRUETH_BD_LENGTH_MASK) >> PRUETH_BD_LENGTH_SHIFT */
    function Decode(word: nat): nat
      requires unit > 0 && span > 0
    {
      word / unit % span
    }

    ghost predicate PacketOk(p: seq<Byte>) {
      0 < |p| <= maxLen
    }
  }

  lemma DecodeEncode(z: Sizes, len: nat)
    requires z.Ok() && len <= z.maxLen
    ensures z.Decode(z.Encode(len)) == len && z.Encode(len) == len * z.unit
  {
    DivMul(len, z.unit);
    assert len % z.span == len;
  }

  /** Only the length field of a descriptor counts, whatever the bits around it. */
  lemma DecodeField(z: Sizes, len: nat, low: nat, high: nat)
    requires z.Ok() && len < z.span && low < z.unit
    ensures z.Decode((high * z.span + len) * z.unit + low) == len
  {
    DivUnique((high * z.span + len) * z.unit + low, z.unit, high * z.span + len, low);
    DivUnique(high * z.span + len, z.span, high, len);
  }

  lemma DivMul(a: nat, b: nat)
    requires b > 0
    ensures a * b / b == a
  {
    DivUnique(a * b, b, a, 0);
  }

  lemma DivUnique(x: nat, b: nat, k: nat, r: nat)
    requires b > 0 && x == k * b + r && r < b
    ensures x / b == k && x % b == r
  {
    var k' := x / b;
    assert x == k' * b + x % b;
    if k' < k {
      MulMono(k' + 1, k, b);
    } else if k < k' {
      MulMono(k + 1, k', b);
    }
  }

  lemma BlocksCover(z: Sizes, len: nat)
    requires z.Ok()
    ensures len <= z.Blocks(len) * z.block < len + z.block
    ensures len > 0 ==> z.Blocks(len) > 0
  {
  }

  lemma BlocksWithin(z: Sizes, len: nat, n: nat)
    requires z.Ok()
    ensures z.Blocks(len) <= n <==> len <= n * z.block
  {
    BlocksCover(z, len);
    var b := z.Blocks(len);
    if b <= n {
      MulMono(b, n, z.block);
    } else {
      MulMono(n, b - 1, z.block);
      assert b * z.block == (b - 1) * z.block + z.block;
    }
  }

  lemma MulMono(a: nat, b: nat, c: nat)
    requires a <= b
    ensures a * c <= b * c && (b - a) * c == b * c - a * c
  {
    assert b * c == a * c + (b - a) * c;
  }

  function Used(z: Sizes, pkts: seq<seq<Byte>>): nat
    requires z.block > 0
  {
    if pkts == [] then 0 else z.Blocks(|pkts[0]|) + Used(z, pkts[1..])
  }

  lemma {:induction false} UsedConcat(z: Sizes, a: seq<seq<Byte>>, b: seq<seq<Byte>>)
    requires z.block > 0
    ensures Used(z, a + b) == Used(z, a) + Used(z, b)
  {
    if a == [] {
      assert a + b == b;
    } else {
      assert (a + b)[1..] == a[1..] + b;
      UsedConcat(z, a[1..], b);
    }
  }

  // ---- the ring, read from its first block on ----

  /** `u` is the buffer and `d` the descriptors from the read position on: the
      packets lie at the front, each rounded up to whole blocks. */
  ghost predicate Laid(z: Sizes, u: seq<Byte>, d: seq<nat>, pkts: seq<seq<Byte>>)
    requires z.Ok()
  {
    pkts == [] || (
      var p, n := pkts[0], z.Blocks(|pkts[0]|);
      && z.PacketOk(p)
      && 0 < n <= |d| && |p| <= n * z.block <= |u|
      && u[..|p|] == p
      && z.Decode(d[0]) == |p|
      && Laid(z, u[n * z.block..], d[n..], pkts[1..]))
  }

  /** Only the blocks in use matter. */
  lemma {:induction false} LaidSame(z: Sizes, u: seq<Byte>, d: seq<nat>, pkts: seq<seq<Byte>>,
                                  u': seq<Byte>, d': seq<nat>)
    requires z.Ok() && Laid(z, u, d, pkts)
    requires var n := Used(z, pkts);
             && n <= |d| && n <= |d'| && n * z.block <= |u| && n * z.block <= |u'|
             && u[..n * z.block] == u'[..n * z.block] && d[..n] == d'[..n]
    ensures Laid(z, u', d', pkts)
  {
    if pkts != [] {
      var p, n, m := pkts[0], z.Blocks(|pkts[0]|), Used(z, pkts);
      var b := n * z.block;
      MulMono(n, m, z.block);
      assert u'[..|p|] == u'[..m * z.block][..|p|] == u[..|p|];
      assert d'[0] == d'[..m][0] == d[0];
      assert u[b..][..(m - n) * z.block] == u[..m * z.block][b..];
      assert u'[b..][..(m - n) * z.block] == u'[..m * z.block][b..];
      assert d[n..][..m - n] == d[..m][n..];
      assert d'[n..][..m - n] == d'[..m][n..];
      LaidSame(z, u[b..], d[n..], pkts[1..], u'[b..], d'[n..]);
    }
  }

  lemma {:induction false} LaidConcat(z: Sizes, u: seq<Byte>, d: seq<nat>, a: seq<seq<Byte>>, b: seq<seq<Byte>>)
    requires z.Ok() && Laid(z, u, d, a)
    requires Used(z, a) <= |d| && Used(z, a) * z.block <= |u|
    requires Laid(z, u[Used(z, a) * z.block..], d[Used(z, a)..], b)
    ensures Laid(z, u, d, a + b)
  {
    if a == [] {
      assert a + b == b && u[0..] == u && d[0..] == d;
    } else {
      var n, m := z.Blocks(|a[0]|), Used(z, a);
      var k := n * z.block;
      MulMono(n, m, z.block);
      assert u[k..][(m - n) * z.block..] == u[m * z.block..];
      assert d[n..][m - n..] == d[m..];
      assert (a + b)[1..] == a[1..] + b;
      LaidConcat(z, u[k..], d[n..], a[1..], b);
    }
  }

  lemma LaidOne(z: Sizes, u: seq<Byte>, d: seq<nat>, p: seq<Byte>)
    requires z.Ok() && z.PacketOk(p)
    requires z.Blocks(|p|) <= |d| && z.Blocks(|p|) * z.block <= |u|
    requires |p| <= |u| && u[..|p|] == p && |d| > 0 && d[0] == z.Encode(|p|)
    ensures Laid(z, u, d, [p])
  {
    BlocksCover(z, |p|);
    DecodeEncode(z, |p|);
  }

  // ---- turning the ring ----

  function Rot<T>(s: seq<T>, k: nat): (r: seq<T>)
    requires k <= |s|
    ensures |r| == |s|
  {
    s[k..] + s[..k]
  }

  /** Position `k + i` in a ring of `n`. */
  function Around(k: nat, i: nat, n: nat): nat {
    if k + i < n then k + i else k + i - n
  }

  lemma RotAt<T>(s: seq<T>, k: nat, i: nat)
    requires k <= |s| && i < |s|
    ensures Around(k, i, |s|) < |s| && Rot(s, k)[i] == s[Around(k, i, |s|)]
  {
  }

  lemma RotRot<T>(s: seq<T>, k: nat, n: nat)
    requires k < |s| && n <= |s|
    ensures Around(k, n, |s|) <= |s|
    ensures Rot(s, Around(k, n, |s|)) == Rot(s, k)[n..] + Rot(s, k)[..n]
  {
  }

  /** memcpy of `p` to position `k` of the ring, the part behind its end going to
      the start. */
  function Put<T>(s: seq<T>, k: nat, p: seq<T>): (r: seq<T>)
    requires k <= |s| && |p| <= |s|
    ensures |r| == |s|
  {
    var h := |s| - k;
    if |p| <= h then s[..k] + p + s[k + |p|..] else p[h..] + s[|p| - h..k] + p[..h]
  }

  /** memcpy of `len` elements from position `k` of the ring. */
  function Get<T>(s: seq<T>, k: nat, len: nat): (r: seq<T>)
    requires k <= |s| && len <= |s|
    ensures r == Rot(s, k)[..len]
  {
    var h := |s| - k;
    if len <= h then s[k..k + len] else s[k..] + s[..len - h]
  }

  /** Seen from `k`, what is put `o` further on lies at `o` and nothing else changes. */
  lemma PutRot<T>(s: seq<T>, k: nat, o: nat, p: seq<T>)
    requires k < |s| && o + |p| <= |s|
    ensures Around(k, o, |s|) <= |s|
    ensures Rot(Put(s, Around(k, o, |s|), p), k) == Rot(s, k)[..o] + p + Rot(s, k)[o + |p|..]
  {
    var s', want := Put(s, Around(k, o, |s|), p), Rot(s, k)[..o] + p + Rot(s, k)[o + |p|..];
    forall i | 0 <= i < |s|
      ensures Rot(s', k)[i] == want[i]
    {
      RotAt(s, k, i);
      RotAt(s', k, i);
    }
  }

  // ---- a queue ----

  /** The memory of a queue and its two positions, in blocks. */
  datatype Ring = Ring(z: Sizes, ram: seq<Byte>, bds: seq<nat>, rd: nat, wr: nat)
  {
    ghost predicate Shaped() {
      && z.Ok() && |ram| == |bds| * z.block && z.maxLen <= |ram|
      && rd < |bds| && wr < |bds|
      && rd * z.block <= |ram| && wr * z.block <= |ram|
    }

    /** free_blocks in prueth_tx_enqueue: equal positions mean that all are free. */
    function Free(): nat
      requires rd < |bds| && wr < |bds|
    {
      if wr > rd then |bds| - wr + rd else if wr < rd then rd - wr else |bds|
    }

    /** The position `n` blocks further on. */
    function Past(at: nat, n: nat): (p: nat)
      requires at < |bds| && n <= |bds|
      ensures p < |bds| && p == (at + n) % |bds|
    {
      if at + n < |bds| then at + n else
      DivUnique(at + n, |bds|, 1, at + n - |bds|);
      at + n - |bds|
    }
  }

  /** `pkts` lie in the ring from the read to the write position; they may fill it. */
  ghost predicate Lies(q: Ring, pkts: seq<seq<Byte>>) {
    && q.Shaped()
    && Used(q.z, pkts) <= |q.bds|
    && q.wr == q.Past(q.rd, Used(q.z, pkts))
    && forall k {:trigger Opened(Packets, k)} :: Opened(Packets, k) ==>
         Laid(q.z, Rot(q.ram, q.rd * q.z.block), Rot(q.bds, q.rd), pkts)
  }

  /** The ring holds exactly `pkts`, as both ends see it. */
  ghost predicate Holds(q: Ring, pkts: seq<seq<Byte>>) {
    Lies(q, pkts) && Used(q.z, pkts) < |q.bds|
  }

  lemma UsedPositive(q: Ring, pkts: seq<seq<Byte>>)
    requires Lies(q, pkts) && pkts != []
    ensures q.z.PacketOk(pkts[0]) && 0 < q.z.Blocks(|pkts[0]|) <= Used(q.z, pkts)
  {
    assert Opened(Packets, 0);
  }

  lemma PastAround(q: Ring, at: nat, n: nat)
    requires q.Shaped() && at < |q.bds| && n < |q.bds|
    ensures q.Past(at, n) == Around(at, n, |q.bds|)
    ensures q.Past(at, n) * q.z.block <= |q.ram| && n * q.z.block <= |q.ram|
    ensures q.Past(at, n) * q.z.block == Around(at * q.z.block, n * q.z.block, |q.ram|)
  {
    var b, c := |q.bds|, q.z.block;
    MulMono(q.Past(at, n), b, c);
    MulMono(n, b, c);
    assert (at + n) * c == at * c + n * c;
    if at + n >= b {
      MulMono(b, at + n, c);
    } else {
      MulMono(at + n + 1, b, c);
      assert (at + n + 1) * c == (at + n) * c + c;
    }
  }

  /** The positions are equal exactly when the queue is empty, and free_blocks
      counts what the packets leave. */
  lemma FreeExact(q: Ring, pkts: seq<seq<Byte>>)
    requires Holds(q, pkts)
    ensures q.Free() == |q.bds| - Used(q.z, pkts)
    ensures q.rd == q.wr <==> pkts == []
  {
    if pkts != [] {
      UsedPositive(q, pkts);
    }
  }

  lemma EmptyHolds(q: Ring)
    requires q.Shaped() && q.rd == q.wr
    ensures Holds(q, [])
  {
    PastAround(q, q.rd, 0);
  }

  lemma PastPast(q: Ring, at: nat, m: nat, n: nat)
    requires at < |q.bds| && m + n <= |q.bds|
    ensures q.Past(q.Past(at, m), n) == q.Past(at, m + n)
  {
  }

  lemma LaidAppend(z: Sizes, u: seq<Byte>, d: seq<nat>, pkts: seq<seq<Byte>>, p: seq<Byte>,
                   u': seq<Byte>, d': seq<nat>)
    requires z.Ok() && Laid(z, u, d, pkts) && z.PacketOk(p)
    requires var m := Used(z, pkts);
             && m + z.Blocks(|p|) <= |d| && (m + z.Blocks(|p|)) * z.block <= |u|
             && m < |d| && m * z.block + |p| <= |u|
             && u' == u[..m * z.block] + p + u[m * z.block + |p|..]
             && d' == d[..m] + [z.Encode(|p|)] + d[m + 1..]
    ensures Laid(z, u', d', pkts + [p])
  {
    var m, n := Used(z, pkts), z.Blocks(|p|);
    var k := m * z.block;
    assert (m + n) * z.block == k + n * z.block;
    LaidSame(z, u, d, pkts, u', d');
    assert u'[k..][..|p|] == p;
    LaidOne(z, u'[k..], d'[m..], p);
    LaidConcat(z, u', d', pkts, [p]);
  }

  /** What an accepted enqueue does to the ring. */
  function Enqueued(q: Ring, p: seq<Byte>): (q': Ring)
    requires q.Shaped() && q.z.PacketOk(p) && q.z.Blocks(|p|) <= q.Free()
    ensures q'.Shaped()
  {
    MulMono(q.Past(q.wr, q.z.Blocks(|p|)), |q.bds|, q.z.block);
    q.(ram := Put(q.ram, q.wr * q.z.block, p), bds := q.bds[q.wr := q.z.Encode(|p|)],
       wr := q.Past(q.wr, q.z.Blocks(|p|)))
  }

  /** Whatever the ring holds, an accepted enqueue ends with equal positions, which
      both ends read as empty, exactly when it takes all the free blocks. */
  lemma PositionsMeet(q: Ring, p: seq<Byte>)
    requires q.Shaped() && q.z.PacketOk(p) && q.z.Blocks(|p|) <= q.Free()
    ensures Enqueued(q, p).wr == q.rd <==> q.z.Blocks(|p|) == q.Free()
  {
    BlocksCover(q.z, |p|);
  }

  /** The packets in a queue of `n` blocks after an enqueue: a packet that takes
      the last free block makes the positions equal, and all are lost. */
  function Sent(z: Sizes, n: nat, pkts: seq<seq<Byte>>, p: seq<Byte>): seq<seq<Byte>>
    requires z.block > 0
  {
    var used := Used(z, pkts) + z.Blocks(|p|);
    if used > n then pkts else if used == n then [] else pkts + [p]
  }

  lemma Room(q: Ring, m: nat, n: nat)
    requires q.Shaped() && m + n <= |q.bds|
    ensures (m + n) * q.z.block == m * q.z.block + n * q.z.block <= |q.ram|
  {
    MulMono(m + n, |q.bds|, q.z.block);
    assert (m + n) * q.z.block == m * q.z.block + n * q.z.block;
  }

  /** The two memories after an enqueue, seen from the read position. */
  lemma EnqueueMoves(q: Ring, m: nat, p: seq<Byte>)
    requires q.Shaped() && q.z.PacketOk(p) && q.z.Blocks(|p|) <= q.Free()
    requires m + q.z.Blocks(|p|) <= |q.bds| && m < |q.bds| && q.wr == q.Past(q.rd, m)
    ensures m * q.z.block + |p| <= |q.ram|
    ensures var u := Rot(q.ram, q.rd * q.z.block);
            Rot(Enqueued(q, p).ram, q.rd * q.z.block) == u[..m * q.z.block] + p + u[m * q.z.block + |p|..]
    ensures var d := Rot(q.bds, q.rd);
            Rot(Enqueued(q, p).bds, q.rd) == d[..m] + [q.z.Encode(|p|)] + d[m + 1..]
  {
    PastAround(q, q.rd, m);
    BlocksCover(q.z, |p|);
    Room(q, m, q.z.Blocks(|p|));
    Room(q, q.rd, 1);
    PutRot(q.ram, q.rd * q.z.block, m * q.z.block, p);
    PutRot(q.bds, q.rd, m, [q.z.Encode(|p|)]);
    assert Put(q.bds, q.wr, [q.z.Encode(|p|)]) == Enqueued(q, p).bds;
  }

  lemma EnqueueLays(q: Ring, pkts: seq<seq<Byte>>, p: seq<Byte>)
    requires Holds(q, pkts) && q.z.PacketOk(p) && q.z.Blocks(|p|) <= q.Free()
    ensures var q' := Enqueued(q, p);
            Laid(q.z, Rot(q'.ram, q.rd * q.z.block), Rot(q'.bds, q.rd), pkts + [p])
  {
    assert Opened(Packets, 0);
    var z, m, n, q' := q.z, Used(q.z, pkts), q.z.Blocks(|p|), Enqueued(q, p);
    FreeExact(q, pkts);
    EnqueueMoves(q, m, p);
    Room(q, m, n);
    LaidAppend(z, Rot(q.ram, q.rd * z.block), Rot(q.bds, q.rd), pkts, p,
               Rot(q'.ram, q.rd * z.block), Rot(q'.bds, q.rd));
  }

  /** A packet that fits behind those in a ring with a free block lies behind them. */
  lemma EnqueueLies(q: Ring, pkts: seq<seq<Byte>>, p: seq<Byte>)
    requires Holds(q, pkts) && q.z.PacketOk(p) && q.z.Blocks(|p|) <= q.Free()
    ensures Lies(Enqueued(q, p), pkts + [p])
    ensures Used(q.z, pkts + [p]) == Used(q.z, pkts) + q.z.Blocks(|p|)
  {
    FreeExact(q, pkts);
    PastPast(q, q.rd, Used(q.z, pkts), q.z.Blocks(|p|));
    EnqueueLays(q, pkts, p);
    UsedConcat(q.z, pkts, [p]);
    assert Used(q.z, [p]) == q.z.Blocks(|p|);
  }

  /** An enqueue that leaves a free block appends the packet; one that takes the
      last makes the positions equal, and both ends see an empty queue. */
  lemma EnqueueHolds(q: Ring, pkts: seq<seq<Byte>>, p: seq<Byte>)
    requires Holds(q, pkts) && q.z.PacketOk(p)
    ensures Holds(if q.z.Blocks(|p|) <= q.Free() then Enqueued(q, p) else q, Sent(q.z, |q.bds|, pkts, p))
  {
    FreeExact(q, pkts);
    if q.z.Blocks(|p|) == q.Free() {
      EnqueueLies(q, pkts, p);
      EmptyHolds(Enqueued(q, p));
    } else if q.z.Blocks(|p|) < q.Free() {
      EnqueueLies(q, pkts, p);
    }
  }

  /** The ring after a packet is offered, accepted or not. */
  function Offered(q: Ring, p: seq<Byte>): (q': Ring)
    requires q.Shaped() && q.z.PacketOk(p)
  {
    if q.z.Blocks(|p|) <= q.Free() then Enqueued(q, p) else q
  }

  lemma OfferedHolds(q: Ring, pkts: seq<seq<Byte>>, p: seq<Byte>)
    requires Holds(q, pkts) && q.z.PacketOk(p)
    ensures Holds(Offered(q, p), Sent(q.z, |q.bds|, pkts, p))
    ensures q.z.Blocks(|p|) <= q.Free() <==> Used(q.z, pkts) + q.z.Blocks(|p|) <= |q.bds|
  {
    EnqueueHolds(q, pkts, p);
    FreeExact(q, pkts);
  }

  /** The length in the next descriptor is that of a packet. */
  ghost predicate Readable(q: Ring)
    requires q.Shaped()
  {
    0 < q.z.Decode(q.bds[q.rd]) <= q.z.maxLen
  }

  /** The next packet. */
  function Next(q: Ring): seq<Byte>
    requires q.Shaped() && Readable(q)
  {
    Get(q.ram, q.rd * q.z.block, q.z.Decode(q.bds[q.rd]))
  }

  /** The ring once it is read and its descriptor cleared. */
  function Dequeued(q: Ring): (q': Ring)
    requires q.Shaped() && Readable(q)
    ensures q'.Shaped()
  {
    var n := q.z.Blocks(q.z.Decode(q.bds[q.rd]));
    BlocksWithin(q.z, q.z.Decode(q.bds[q.rd]), |q.bds|);
    MulMono(q.Past(q.rd, n), |q.bds|, q.z.block);
    q.(bds := q.bds[q.rd := 0], rd := q.Past(q.rd, n))
  }

  /** The ring once the reader has given up on what the next descriptor says and
      gone on to the write position as it knows it. */
  function Dropped(q: Ring, stop: nat): (q': Ring)
    requires q.Shaped() && stop < |q.bds|
    ensures q'.Shaped()
  {
    MulMono(stop, |q.bds|, q.z.block);
    q.(bds := q.bds[q.rd := 0], rd := stop)
  }

  /** The two memories after a packet of `n` blocks is read, seen from its end. */
  lemma DequeueMoves(q: Ring, n: nat)
    requires q.Shaped() && Readable(q) && 0 < n < |q.bds| && q.z.Blocks(q.z.Decode(q.bds[q.rd])) == n
    ensures n * q.z.block <= |q.ram|
    ensures var q' := Dequeued(q);
            var u, d := Rot(q.ram, q.rd * q.z.block), Rot(q.bds, q.rd);
            && Rot(q'.ram, q'.rd * q.z.block) == u[n * q.z.block..] + u[..n * q.z.block]
            && Rot(q'.bds, q'.rd)[..|q.bds| - n] == d[n..]
  {
    PastAround(q, q.rd, n);
    Room(q, q.rd, 1);
    RotRot(q.ram, q.rd * q.z.block, n * q.z.block);
    RotRot(Dequeued(q).bds, q.rd, n);
    assert Rot(Dequeued(q).bds, q.rd)[n..] == Rot(q.bds, q.rd)[n..];
  }

  /** Reading returns the oldest packet, byte for byte, and leaves the others. */
  lemma DequeueLies(q: Ring, pkts: seq<seq<Byte>>)
    requires Lies(q, pkts) && pkts != [] && q.z.Blocks(|pkts[0]|) < |q.bds|
    ensures Readable(q) && Next(q) == pkts[0] && Lies(Dequeued(q), pkts[1..])
    ensures Dequeued(q).rd == q.Past(q.rd, q.z.Blocks(|pkts[0]|))
  {
    assert Opened(Packets, 0);
    var z, n, m := q.z, q.z.Blocks(|pkts[0]|), Used(q.z, pkts);
    RotAt(q.bds, q.rd, 0);
    PastPast(q, q.rd, n, m - n);
    Room(q, n, m - n);
    DequeueMoves(q, n);
    var q' := Dequeued(q);
    var u, d := Rot(q.ram, q.rd * z.block), Rot(q.bds, q.rd);
    LaidSame(z, u[n * z.block..], d[n..], pkts[1..], Rot(q'.ram, q'.rd * z.block), Rot(q'.bds, q'.rd));
  }

  lemma DequeueHolds(q: Ring, pkts: seq<seq<Byte>>)
    requires Holds(q, pkts) && pkts != []
    ensures Readable(q) && Next(q) == pkts[0] && Holds(Dequeued(q), pkts[1..])
  {
    UsedPositive(q, pkts);
    DequeueLies(q, pkts);
  }

  // ---- runs ----

  /** A packet is offered, or the reader is called with a quota; `fail` is the
      packet of the call for which no socket buffer is to be had. */
  datatype Op = Send(p: seq<Byte>) | Receive(quota: int, fail: nat)

  /** Packets in the queue, accepted so far and delivered so far. */
  datatype Link = Link(pkts: seq<seq<Byte>>, sent: seq<seq<Byte>>, got: seq<seq<Byte>>)

  /** How many of `n` packets one call delivers: at least one, and at most the quota. */
  function Taken(n: nat, quota: int, fail: nat): (k: nat)
    ensures k <= n && k <= fail
  {
    Min(n, Min(Max(quota, 1), fail))
  }

  function Step(z: Sizes, n: nat, s: Link, op: Op): Link
    requires z.block > 0
  {
    match op
    case Send(p) =>
      if Used(z, s.pkts) + z.Blocks(|p|) > n then s
      else Link(Sent(z, n, s.pkts, p), s.sent + [p], s.got)
    case Receive(quota, fail) =>
      var k := Taken(|s.pkts|, quota, fail);
      Link(s.pkts[k..], s.sent, s.got + s.pkts[..k])
  }

  function Run(z: Sizes, n: nat, ops: seq<Op>): Link
    requires z.block > 0
  {
    if ops == [] then Link([], [], []) else Step(z, n, Run(z, n, ops[..|ops| - 1]), ops[|ops| - 1])
  }

  /** No packet that is sent takes exactly the free blocks. */
  predicate NeverFills(z: Sizes, n: nat, ops: seq<Op>)
    requires z.block > 0
  {
    ops == [] || (
      var before, op := ops[..|ops| - 1], ops[|ops| - 1];
      && NeverFills(z, n, before)
      && (op.Send? ==> Used(z, Run(z, n, before).pkts) + z.Blocks(|op.p|) != n))
  }

  /** Over every run what was delivered followed by what is queued is what was
      accepted, in order and once each, exactly when no accepted packet took all
      the free blocks; otherwise packets are lost. */
  lemma {:induction false} FifoExactly(z: Sizes, n: nat, ops: seq<Op>)
    requires z.block > 0
    ensures var s := Run(z, n, ops);
            && (NeverFills(z, n, ops) <==> s.got + s.pkts == s.sent)
            && |s.got| + |s.pkts| <= |s.sent|
            && (|s.got| + |s.pkts| == |s.sent| ==> s.got + s.pkts == s.sent)
  {
    if ops != [] {
      FifoExactly(z, n, ops[..|ops| - 1]);
      var s, op := Run(z, n, ops[..|ops| - 1]), ops[|ops| - 1];
      match op {
        case Send(p) =>
          Assoc(s.got, s.pkts, [p]);
        case Receive(quota, fail) =>
          var k := Taken(|s.pkts|, quota, fail);
          assert s.pkts == s.pkts[..k] + s.pkts[k..];
          Assoc(s.got, s.pkts[..k], s.pkts[k..]);
      }
    }
  }

  /** A frame that takes exactly an empty queue's blocks: accepted, never seen again. */
  lemma FullMeansEmpty(z: Sizes, n: nat, p: seq<Byte>, quota: int, fail: nat)
    requires z.Ok() && z.PacketOk(p) && z.Blocks(|p|) == n
    ensures var s := Run(z, n, [Send(p), Receive(quota, fail)]);
            s.sent == [p] && s.got == [] && s.pkts == []
  {
    var ops := [Send(p), Receive(quota, fail)];
    assert ops[..1] == [Send(p)] && ops[..1][..0] == [];
    assert Run(z, n, ops[..1][..0]) == Link([], [], []);
  }
}
