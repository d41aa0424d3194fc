/** The route conflict check of src/netroute.rs over a concrete `Ipv4Net`. */
module NetRoute {
  import opened Wrappers

  /** A 32-bit address, most significant octet first. */
  type Addr = n: int | 0 <= n < 0x1_0000_0000

  type Prefix = n: nat | n <= 32

  /** An address with a prefix length; the address may have host bits set. */
  datatype Ipv4Net = Ipv4Net(addr: Addr, prefix: Prefix)

  /** `x & !(2^k - 1)`: the low `k` bits cleared, one binary digit at a time. */
  function ClearLow(x: nat, k: nat): nat {
    if k == 0 then x else 2 * ClearLow(x / 2, k - 1)
  }

  /** `x | (2^k - 1)`: the low `k` bits set. */
  function SetLow(x: nat, k: nat): nat {
    if k == 0 then x else 2 * SetLow(x / 2, k - 1) + 1
  }

  function HostBits(n: Ipv4Net): nat {
    32 - n.prefix
  }

  /** `Ipv4Net::network`. */
  function Network(n: Ipv4Net): nat {
    ClearLow(n.addr, HostBits(n))
  }

  /** `Ipv4Net::broadcast`. */
  function Broadcast(n: Ipv4Net): nat {
    SetLow(n.addr, HostBits(n))
  }

  /** `Ipv4Net::contains` for a net. */
  predicate Contains(n: Ipv4Net, other: Ipv4Net) {
    Network(n) <= Network(other) && Broadcast(other) <= Broadcast(n)
  }

  /** The address has the leading bits of the block: what a router matches on. */
  predicate Covers(n: Ipv4Net, x: Addr) {
    ClearLow(x, HostBits(n)) == Network(n)
  }

  // ---------- masking is what it is called ----------

  /** Bit `i` of a number, least significant first. */
  function Bit(x: nat, i: nat): nat {
    if i == 0 then x % 2 else Bit(x / 2, i - 1)
  }

  /** `ClearLow` zeroes the bits below `k`, `SetLow` sets them, and both keep all others. */
  lemma {:induction false} MaskedBits(x: nat, k: nat, i: nat)
    ensures Bit(ClearLow(x, k), i) == if i < k then 0 else Bit(x, i)
    ensures Bit(SetLow(x, k), i) == if i < k then 1 else Bit(x, i)
  {
    if k > 0 && i > 0 {
      MaskedBits(x / 2, k - 1, i - 1);
    }
  }

  // ---------- blocks ----------

  /** Agreeing above the low `k` bits is lying between the cleared and the set number. */
  lemma {:induction false} MaskIsRange(a: nat, k: nat, x: nat)
    ensures ClearLow(x, k) == ClearLow(a, k) <==> ClearLow(a, k) <= x <= SetLow(a, k)
  {
    if k > 0 {
      MaskIsRange(a / 2, k - 1, x / 2);
    }
  }

  lemma {:induction false} MaskedEnds(a: nat, k: nat)
    ensures ClearLow(ClearLow(a, k), k) == ClearLow(a, k) == ClearLow(SetLow(a, k), k)
    ensures ClearLow(a, k) <= a <= SetLow(a, k)
  {
    if k > 0 {
      MaskedEnds(a / 2, k - 1);
    }
  }

  /** Of two blocks with a common number, the one with more free bits holds the other. */
  lemma {:induction false} SharedNumberNests(a: nat, j: nat, b: nat, k: nat, x: nat)
    requires j <= k && ClearLow(x, j) == ClearLow(a, j) && ClearLow(x, k) == ClearLow(b, k)
    ensures ClearLow(b, k) <= ClearLow(a, j) && SetLow(a, j) <= SetLow(b, k)
  {
    if j > 0 {
      SharedNumberNests(a / 2, j - 1, b / 2, k - 1, x / 2);
    } else {
      MaskIsRange(b, k, x);
    }
  }

  function Pow2(n: nat): (p: nat)
    ensures p > 0
  {
    if n == 0 then 1 else 2 * Pow2(n - 1)
  }

  lemma {:induction false} SetLowStaysInRange(a: nat, k: nat, n: nat)
    requires k <= n && a < Pow2(n)
    ensures SetLow(a, k) < Pow2(n)
  {
    if k > 0 {
      SetLowStaysInRange(a / 2, k - 1, n - 1);
    }
  }

  lemma Pow2Of32()
    ensures Pow2(32) == 0x1_0000_0000
  {
    assert Pow2(8) == 0x100;
    assert Pow2(16) == 0x1_0000;
    assert Pow2(24) == 0x100_0000;
  }

  /** The addresses a router matches are exactly those from network to broadcast. */
  lemma CoversIsRange(n: Ipv4Net, x: Addr)
    ensures Covers(n, x) <==> Network(n) <= x <= Broadcast(n)
  {
    MaskIsRange(n.addr, HostBits(n), x);
  }

  /** Both ends of a block are addresses of the block. */
  lemma EndsAreCovered(n: Ipv4Net)
    ensures Network(n) <= Broadcast(n) < 0x1_0000_0000
    ensures Covers(n, Network(n)) && Covers(n, Broadcast(n))
  {
    Pow2Of32();
    SetLowStaysInRange(n.addr, HostBits(n), 32);
    MaskedEnds(n.addr, HostBits(n));
  }

  /** Of two blocks with a common address, the one with the shorter prefix contains the other. */
  lemma SharedAddressNests(outer: Ipv4Net, inner: Ipv4Net, x: Addr)
    requires Covers(outer, x) && Covers(inner, x) && outer.prefix <= inner.prefix
    ensures Contains(outer, inner)
  {
    SharedNumberNests(inner.addr, HostBits(inner), outer.addr, HostBits(outer), x);
  }

  /** `Contains` is inclusion of address sets. */
  lemma ContainsIsInclusion(m: Ipv4Net, n: Ipv4Net)
    ensures Contains(m, n) <==> forall x :: Covers(n, x) ==> Covers(m, x)
  {
    EndsAreCovered(n);
    CoversIsRange(m, Network(n));
    CoversIsRange(m, Broadcast(n));
    if Contains(m, n) {
      forall x | Covers(n, x) ensures Covers(m, x) {
        CoversIsRange(n, x);
        CoversIsRange(m, x);
      }
    }
  }

  // ---------- a block of prefix p is fixed by p bits ----------

  /** `x >> k`. */
  function High(x: nat, k: nat): nat {
    if k == 0 then x else High(x / 2, k - 1)
  }

  lemma {:induction false} LowBitsCount(x: nat, k: nat)
    ensures SetLow(x, k) - ClearLow(x, k) + 1 == Pow2(k)
    ensures ClearLow(x, k) == High(x, k) * Pow2(k)
  {
    if k > 0 {
      LowBitsCount(x / 2, k - 1);
      Doubled(High(x / 2, k - 1), Pow2(k - 1));
    }
  }

  lemma Doubled(a: nat, b: nat)
    ensures 2 * (a * b) == a * (2 * b)
  {
  }

  /**
   Network and broadcast address in plain arithmetic: the ends of the block of
   2^(32 - p) addresses, starting at a multiple of its size, that holds the address.
   */
  lemma BlockIs(n: Ipv4Net)
    ensures Network(n) <= n.addr <= Broadcast(n)
    ensures Broadcast(n) - Network(n) + 1 == Pow2(32 - n.prefix)
    ensures Network(n) == High(n.addr, 32 - n.prefix) * Pow2(32 - n.prefix)
  {
    hide Pow2, ClearLow, SetLow, High;
    LowBitsCount(n.addr, 32 - n.prefix);
    MaskedEnds(n.addr, 32 - n.prefix);
  }

  /** Two numbers of n bits that differ do so in some bit. */
  lemma {:induction false} DifferentBit(x: nat, y: nat, n: nat) returns (i: nat)
    requires x < Pow2(n) && y < Pow2(n) && x != y
    ensures i < n && Bit(x, i) != Bit(y, i)
    decreases n
  {
    if x % 2 != y % 2 {
      i := 0;
    } else {
      i := DifferentBit(x / 2, y / 2, n - 1);
      i := i + 1;
    }
  }

  lemma {:induction false} HighBits(x: nat, k: nat, i: nat)
    requires k <= i
    ensures Bit(x, i) == Bit(High(x, k), i - k)
  {
    if k > 0 {
      HighBits(x / 2, k - 1, i - 1);
    }
  }

  lemma {:induction false} HighIsSmall(x: nat, k: nat, n: nat)
    requires k <= n && x < Pow2(n)
    ensures High(x, k) < Pow2(n - k)
  {
    if k > 0 {
      HighIsSmall(x / 2, k - 1, n - 1);
    }
  }

  lemma {:induction false} ClearLowShowsHigh(x: nat, y: nat, k: nat)
    ensures ClearLow(x, k) == ClearLow(y, k) <==> High(x, k) == High(y, k)
  {
    if k > 0 {
      ClearLowShowsHigh(x / 2, y / 2, k - 1);
    }
  }

  lemma SameHighBits(x: nat, y: nat, k: nat, n: nat)
    requires k <= n && x < Pow2(n) && y < Pow2(n)
    ensures ClearLow(x, k) == ClearLow(y, k) <==> forall i :: k <= i < n ==> Bit(x, i) == Bit(y, i)
  {
    hide Bit, High, ClearLow, Pow2;
    ClearLowShowsHigh(x, y, k);
    forall i | k <= i < n ensures Bit(x, i) == Bit(High(x, k), i - k) && Bit(y, i) == Bit(High(y, k), i - k) {
      HighBits(x, k, i);
      HighBits(y, k, i);
    }
    if High(x, k) != High(y, k) {
      HighIsSmall(x, k, n);
      HighIsSmall(y, k, n);
      var i := DifferentBit(High(x, k), High(y, k), n - k);
      assert Bit(x, i + k) != Bit(y, i + k);
    }
  }

  /** A block of prefix p matches exactly the addresses that agree with it in the leading p of 32 bits. */
  lemma CoversIsPrefix(n: Ipv4Net, x: Addr)
    ensures Covers(n, x) <==> forall i :: 32 - n.prefix <= i < 32 ==> Bit(x, i) == Bit(n.addr, i)
  {
    Pow2Of32();
    hide Pow2, Bit;
    SameHighBits(x, n.addr, 32 - n.prefix, 32);
  }

  predicate Overlaps(m: Ipv4Net, n: Ipv4Net) {
    Contains(m, n) || Contains(n, m)
  }

  /** Two blocks are either disjoint or nested. */
  lemma DisjointOrNested(m: Ipv4Net, n: Ipv4Net)
    ensures Overlaps(m, n) <==> exists x :: Covers(m, x) && Covers(n, x)
  {
    if Overlaps(m, n) {
      ContainsIsInclusion(m, n);
      ContainsIsInclusion(n, m);
      EndsAreCovered(m);
      EndsAreCovered(n);
      if Contains(m, n) {
        assert Covers(m, Network(n));
      } else {
        assert Covers(n, Network(m));
      }
    }
    if x :| Covers(m, x) && Covers(n, x) {
      if m.prefix <= n.prefix {
        SharedAddressNests(m, n, x);
      } else {
        SharedAddressNests(n, m, x);
      }
    }
  }

  // ---------- the conflict check ----------

  /** The route itself, if it overlaps the wanted block. */
  function Conflict(wanted: Ipv4Net): Ipv4Net -> Option<Ipv4Net> {
    (n: Ipv4Net) => if Overlaps(n, wanted) then Some(n) else None
  }

  /** `find_conflict`. */
  function FindConflict(wanted: Ipv4Net, existing: seq<Ipv4Net>): Option<Ipv4Net> {
    FirstOf(existing, Conflict(wanted))
  }

  ghost predicate SharesAddress(m: Ipv4Net, n: Ipv4Net) {
    exists x :: Covers(m, x) && Covers(n, x)
  }

  /** The answer is the first route, in list order, that shares an address with `wanted`. */
  lemma FindConflictIs(wanted: Ipv4Net, existing: seq<Ipv4Net>)
    ensures FindConflict(wanted, existing).None? <==>
            forall i :: 0 <= i < |existing| ==> !SharesAddress(wanted, existing[i])
    ensures FindConflict(wanted, existing).Some? ==>
            exists k :: 0 <= k < |existing| && FindConflict(wanted, existing) == Some(existing[k])
                        && SharesAddress(wanted, existing[k])
                        && forall j :: 0 <= j < k ==> !SharesAddress(wanted, existing[j])
  {
    hide FirstOf, Overlaps, SharesAddress;
    forall i | 0 <= i < |existing|
      ensures Conflict(wanted)(existing[i]) == if SharesAddress(wanted, existing[i]) then Some(existing[i]) else None
    {
      ConflictIs(wanted, existing[i]);
    }
    FirstOfNone(existing, Conflict(wanted));
    if FindConflict(wanted, existing).Some? {
      var k := FirstOfExists(existing, Conflict(wanted));
    }
  }

  lemma ConflictIs(wanted: Ipv4Net, n: Ipv4Net)
    ensures Conflict(wanted)(n) == if SharesAddress(wanted, n) then Some(n) else None
  {
    hide Contains, Covers;
    DisjointOrNested(wanted, n);
  }

  // ---------- routing ----------

  /** Longest-prefix match; of two equally long matches the earlier entry is kept. */
  function Lookup(table: seq<Ipv4Net>, x: Addr): (r: Option<Ipv4Net>)
    ensures r.Some? ==> r.value in table && Covers(r.value, x)
    ensures r.Some? <==> exists i :: 0 <= i < |table| && Covers(table[i], x)
    ensures r.Some? ==> forall i :: 0 <= i < |table| && Covers(table[i], x) ==> table[i].prefix <= r.value.prefix
  {
    if table == [] then
      None
    else
      var front, last := table[..|table| - 1], table[|table| - 1];
      var best := Lookup(front, x);
      assert forall i :: 0 <= i < |front| ==> table[i] == front[i];
      if Covers(last, x) && (best.None? || best.value.prefix < last.prefix) then Some(last) else best
  }

  /** No conflict means exactly that no address of `wanted` has a route yet. */
  lemma NoConflictIffUnrouted(wanted: Ipv4Net, existing: seq<Ipv4Net>)
    ensures FindConflict(wanted, existing).None? <==>
            forall x :: Covers(wanted, x) ==> Lookup(existing, x).None?
  {
    FindConflictIs(wanted, existing);
    if FindConflict(wanted, existing).None? {
      forall x | Covers(wanted, x) ensures Lookup(existing, x).None? {
        assert forall i :: 0 <= i < |existing| && Covers(existing[i], x) ==> SharesAddress(wanted, existing[i]);
      }
    } else {
      var k :| 0 <= k < |existing| && SharesAddress(wanted, existing[k]);
      var x :| Covers(wanted, x) && Covers(existing[k], x);
      assert Lookup(existing, x).Some?;
    }
  }

  /** Without a conflict, adding `wanted` takes exactly its own addresses and no one else's. */
  lemma NoConflictRoutesExactly(wanted: Ipv4Net, existing: seq<Ipv4Net>, x: Addr)
    requires FindConflict(wanted, existing).None?
    ensures Lookup(existing + [wanted], x) == if Covers(wanted, x) then Some(wanted) else Lookup(existing, x)
  {
    NoConflictIffUnrouted(wanted, existing);
    var table := existing + [wanted];
    assert table[..|table| - 1] == existing;
  }
}
