// IP prefixes as ParseCIDR returns them (section 3.1 of RFC 4632, section 2.3 of RFC 4291):
// an address of 32 or 128 bits whose bits below the prefix length are zero.
module Cidr {

  function Pow2(n: nat): (p: nat)
    ensures p > 0
  {
    if n == 0 then 1 else 2 * Pow2(n - 1)
  }

  datatype Prefix = Prefix(width: nat, addr: nat, length: nat) {
    // Number of addresses the prefix stands for.
    function Size(): (s: nat)
      ensures s > 0
    {
      if length <= width then Pow2(width - length) else 1
    }

    // What net.ParseCIDR guarantees of the network it returns.
    predicate Masked() {
      && width in {32, 128}
      && length <= width
      && addr < Pow2(width)
      && addr % Size() == 0
    }
  }

  // net.IPNet.Contains: the address and the network agree on the masked bits.
  predicate Contains(pool: Prefix, addr: nat) {
    addr / pool.Size() == pool.addr / pool.Size()
  }

  // The body of the pool loop: same family, network address inside, at least as long.
  predicate PoolCovers(pool: Prefix, peer: Prefix) {
    && peer.width == pool.width
    && Contains(pool, peer.addr)
    && peer.length >= pool.length
  }

  // peerIPAllowedOnInterface
  predicate PeerIPAllowed(peer: Prefix, pools: seq<Prefix>) {
    |pools| == 0 || AnyPoolCovers(peer, pools)
  }

  predicate AnyPoolCovers(peer: Prefix, pools: seq<Prefix>) {
    |pools| > 0 && (PoolCovers(pools[0], peer) || AnyPoolCovers(peer, pools[1..]))
  }

  // The addresses a prefix stands for: Size() consecutive ones from the network address on.
  predicate Holds(p: Prefix, addr: nat) {
    p.addr <= addr < p.addr + p.Size()
  }

  predicate Covers(pool: Prefix, peer: Prefix) {
    && peer.width == pool.width
    && Holds(pool, peer.addr)
    && Holds(pool, peer.addr + peer.Size() - 1)
  }

  lemma {:induction false} Pow2Monotone(m: nat, n: nat)
    ensures m < n ==> Pow2(m) < Pow2(n)
    ensures m <= n ==> Pow2(n) == Pow2(m) * Pow2(n - m)
  {
    if m < n {
      Pow2Monotone(m, n - 1);
      assert Pow2(n) == 2 * Pow2(n - 1);
      assert Pow2(n - m) == 2 * Pow2(n - m - 1);
    }
  }

  lemma MulMonotone(a: nat, b: nat, s: nat)
    ensures a <= b ==> a * s <= b * s
  {
  }

  lemma DivisionBounds(a: nat, s: nat, q: nat)
    requires s > 0
    ensures a / s == q <==> q * s <= a < (q + 1) * s
  {
    var d := a / s;
    assert d * s <= a < (d + 1) * s;
    MulMonotone(d + 1, q, s);
    MulMonotone(q + 1, d, s);
  }

  // Between consecutive multiples of s, division by s is constant.
  lemma SameBlock(base: nat, s: nat, a: nat)
    requires s > 0 && base % s == 0
    ensures a / s == base / s <==> base <= a < base + s
  {
    var q := base / s;
    assert base == q * s;
    assert (q + 1) * s == q * s + s;
    DivisionBounds(a, s, q);
  }

  // Comparing masked bits is membership in the run of addresses.
  lemma ContainsIffHolds(pool: Prefix, addr: nat)
    requires pool.Masked()
    ensures Contains(pool, addr) <==> Holds(pool, addr)
  {
    SameBlock(pool.addr, pool.Size(), addr);
  }

  lemma BlockEnds(a: nat, b: nat, s: nat, k: nat)
    requires s > 0 && k > 0 && a % s == 0 && b % (s * k) == 0
    requires b <= a < b + s * k
    ensures a + s <= b + s * k
  {
    var i, j := a / s, b / (s * k);
    assert a == i * s;
    assert b == j * (s * k);
    assert b + s * k == (j * k + k) * s;
    MulMonotone(j * k + k, i, s);
    MulMonotone(i + 1, j * k + k, s);
    assert (i + 1) * s == i * s + s;
  }

  // Same family and network address inside: the last address is inside iff the peer is as long.
  lemma LongerIffLastInside(pool: Prefix, peer: Prefix)
    requires pool.Masked() && peer.Masked()
    requires peer.width == pool.width && Holds(pool, peer.addr)
    ensures peer.length >= pool.length <==> Holds(pool, peer.addr + peer.Size() - 1)
  {
    Pow2Monotone(peer.width - peer.length, pool.width - pool.length);
    Pow2Monotone(pool.width - pool.length, peer.width - peer.length);
    if peer.length >= pool.length {
      BlockEnds(peer.addr, pool.addr, peer.Size(), Pow2(peer.length - pool.length));
    }
  }

  lemma PoolCoversIffCovers(pool: Prefix, peer: Prefix)
    requires pool.Masked() && peer.Masked()
    ensures PoolCovers(pool, peer) <==> Covers(pool, peer)
  {
    ContainsIffHolds(pool, peer.addr);
    if peer.width == pool.width && Holds(pool, peer.addr) {
      LongerIffLastInside(pool, peer);
    }
  }

  lemma CoversIffSubset(pool: Prefix, peer: Prefix)
    ensures Covers(pool, peer) <==>
            peer.width == pool.width && forall addr: nat :: Holds(peer, addr) ==> Holds(pool, addr)
  {
  }

  lemma {:induction false} AnyPoolCoversIff(peer: Prefix, pools: seq<Prefix>)
    ensures AnyPoolCovers(peer, pools) <==> exists i :: 0 <= i < |pools| && PoolCovers(pools[i], peer)
  {
    if |pools| > 0 {
      AnyPoolCoversIff(peer, pools[1..]);
      if i :| 0 <= i < |pools| && PoolCovers(pools[i], peer) {
        assert i == 0 || pools[1..][i - 1] == pools[i];
      }
      if i :| 0 <= i < |pools[1..]| && PoolCovers(pools[1..][i], peer) {
        assert pools[i + 1] == pools[1..][i];
      }
    }
  }

  // A peer prefix is let through on a nonempty pool list exactly when some pool of its own
  // family holds every one of its addresses; an empty list lets everything through.
  lemma PeerIPAllowedIff(peer: Prefix, pools: seq<Prefix>)
    requires peer.Masked() && forall i :: 0 <= i < |pools| ==> pools[i].Masked()
    ensures PeerIPAllowed(peer, pools) <==>
            || pools == []
            || exists i :: 0 <= i < |pools| && pools[i].width == peer.width &&
                           forall addr: nat :: Holds(peer, addr) ==> Holds(pools[i], addr)
  {
    AnyPoolCoversIff(peer, pools);
    forall i | 0 <= i < |pools|
      ensures PoolCovers(pools[i], peer) <==>
              pools[i].width == peer.width && forall addr: nat :: Holds(peer, addr) ==> Holds(pools[i], addr)
    {
      PoolCoversIffCovers(pools[i], peer);
      CoversIffSubset(pools[i], peer);
    }
  }

  // ----- the run of addresses, bit by bit

  // A prefix of full length stands for its one address; a shorter one for its two halves, which have one bit
  // more.
  lemma HeldByHalves(p: Prefix, addr: nat)
    requires p.Masked()
    ensures p.length == p.width ==> (Holds(p, addr) <==> addr == p.addr)
    ensures p.length < p.width ==>
              var left := Prefix(p.width, p.addr, p.length + 1);
              var right := Prefix(p.width, p.addr + left.Size(), p.length + 1);
              Holds(p, addr) <==> Holds(left, addr) || Holds(right, addr)
    ensures p.length == 0 ==> (addr < Pow2(p.width) <==> Holds(p, addr))
  {
    if p.length < p.width {
      assert Pow2(p.width - p.length) == 2 * Pow2(p.width - (p.length + 1));
    }
    if p.length == 0 {
      SmallMultiple(p.addr, Pow2(p.width));
    }
  }

  lemma SmallMultiple(a: nat, s: nat)
    requires s > 0 && a < s && a % s == 0
    ensures a == 0
  {
  }
}
