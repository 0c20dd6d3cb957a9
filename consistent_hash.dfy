/** The consistent-hash load balancer. Every address contributes
    `4 * (replicaNumber / 4)` virtual points to a sorted ring, one per 4-byte
    window of the MD5 digest of the address followed by a replica index; a
    routing key picks the first point at or after its own hash, wrapping to the
    smallest point. One ring is cached per service name until the identity hash
    of the address list changes. MD5 itself is a parameter. */
module ConsistentHash {
  import opened Common
  import opened JavaText
  import opened ServiceNaming

  /** The two's-complement bit pattern of a Java `byte`. */
  type byte = bv8

  /** An MD5 digest: always 16 bytes. */
  type Digest = d: seq<byte> | |d| == 16
    witness [0, 0, 0, 0, 0, 0, 0, 0, 0, 0, 0, 0, 0, 0, 0, 0]

  /** Points per real address used by `doSelect`. */
  const REPLICA_NUMBER := 160

  /** The widening of a `byte` to `long`, which copies the sign bit. */
  function SignExtend(b: byte): bv64
  {
    if b >= 0x80 then (b as bv64) | 0xFFFF_FFFF_FFFF_FF00 else b as bv64
  }

  /** `(long) (b & 255)`: the byte read as unsigned. */
  function Unsigned(b: byte): (r: bv64)
    ensures r == b as bv64
  {
    SignExtend(b) & 0xFF
  }

  lemma WindowValue(b0: byte, b1: byte, b2: byte, b3: byte)
    ensures ((((b3 as bv64) << 24) | ((b2 as bv64) << 16) | ((b1 as bv64) << 8) | (b0 as bv64)) & 0xFFFF_FFFF) as int
         == b0 as int + 0x100 * b1 as int + 0x1_0000 * b2 as int + 0x100_0000 * b3 as int
  {
  }

  function Window(b0: byte, b1: byte, b2: byte, b3: byte): (r: int)
    ensures r == b0 as int + 0x100 * b1 as int + 0x1_0000 * b2 as int + 0x100_0000 * b3 as int
  {
    var u0, u1, u2, u3 := Unsigned(b0), Unsigned(b1), Unsigned(b2), Unsigned(b3);
    assert u0 == b0 as bv64 && u1 == b1 as bv64 && u2 == b2 as bv64 && u3 == b3 as bv64;
    WindowValue(b0, b1, b2, b3);
    (((u3 << 24) | (u2 << 16) | (u1 << 8) | u0) & 0xFFFF_FFFF) as int
  }

  /** `hash(digest, idx)`: the `idx`-th 4-byte window of the digest read as an
      unsigned little-endian 32-bit number. */
  function Hash(digest: seq<byte>, idx: nat): (r: int)
    requires 4 * idx + 3 < |digest|
    ensures 0 <= r < 0x1_0000_0000
  {
    Window(digest[4 * idx], digest[4 * idx + 1], digest[4 * idx + 2], digest[4 * idx + 3])
  }

  /** The window is read little-endian: byte `4 idx` is the least significant. */
  lemma HashLittleEndian(digest: seq<byte>, idx: nat)
    requires 4 * idx + 3 < |digest|
    ensures Hash(digest, idx) == digest[4 * idx] as int + 0x100 * digest[4 * idx + 1] as int
               + 0x1_0000 * digest[4 * idx + 2] as int + 0x100_0000 * digest[4 * idx + 3] as int
  {
  }

  // ---- The ring the constructor builds ----

  /** Iterations of `for (int i = 0; i < replicaNumber / 4; i++)` under Java's
      truncating division. */
  function ReplicaGroups(replicaNumber: int): (n: nat)
    ensures replicaNumber < 4 ==> n == 0
    ensures replicaNumber >= 0 ==> 4 * n <= replicaNumber < 4 * n + 4
  {
    if replicaNumber < 4 then 0 else replicaNumber / 4
  }

  /** The ring key of window `h` of digest number `i` of an address. */
  function VirtualKey(md5: string -> Digest, invoker: string, i: nat, h: nat): (k: int)
    requires h < 4
    ensures 0 <= k < 0x1_0000_0000
  {
    Hash(md5(invoker + NatToString(i)), h)
  }

  /** A `put(key, address)` into the ring. */
  type Point = (int, string)

  /** The first `h` windows of digest number `i`, in the order they are put. */
  function ReplicaPoints(md5: string -> Digest, invoker: string, i: nat, h: nat): (ps: seq<Point>)
    requires h <= 4
    ensures |ps| == h
  {
    if h == 0 then [] else ReplicaPoints(md5, invoker, i, h - 1) + [(VirtualKey(md5, invoker, i, h - 1), invoker)]
  }

  /** The points of digests `0 .. n-1` of one address, in the order they are put. */
  function InvokerPoints(md5: string -> Digest, invoker: string, n: nat): (ps: seq<Point>)
    ensures |ps| == 4 * n
  {
    if n == 0 then [] else InvokerPoints(md5, invoker, n - 1) + ReplicaPoints(md5, invoker, n - 1, 4)
  }

  /** The `j`-th put for digest `i` is window `j` of that digest, and it stores
      the address. */
  lemma {:induction false} ReplicaPointsAt(md5: string -> Digest, invoker: string, i: nat, h: nat, j: nat)
    requires j < h <= 4
    ensures ReplicaPoints(md5, invoker, i, h)[j] == (VirtualKey(md5, invoker, i, j), invoker)
  {
    if j < h - 1 {
      ReplicaPointsAt(md5, invoker, i, h - 1, j);
    }
  }

  /** Every put of an address's points stores that address. */
  lemma {:induction false} InvokerPointsOwner(md5: string -> Digest, invoker: string, n: nat, p: Point)
    requires p in InvokerPoints(md5, invoker, n)
    ensures p.1 == invoker
  {
    if p in InvokerPoints(md5, invoker, n - 1) {
      InvokerPointsOwner(md5, invoker, n - 1, p);
    } else {
      var rp := ReplicaPoints(md5, invoker, n - 1, 4);
      var j :| 0 <= j < 4 && rp[j] == p;
      ReplicaPointsAt(md5, invoker, n - 1, 4, j);
    }
  }

  /** Every put of the constructor, in order: address after address. */
  function Points(md5: string -> Digest, invokers: seq<string>, n: nat): (ps: seq<Point>)
    ensures ps == [] <==> invokers == [] || n == 0
  {
    if invokers == [] then []
    else Points(md5, invokers[..|invokers| - 1], n) + InvokerPoints(md5, invokers[|invokers| - 1], n)
  }

  /** Each put stores one of the addresses, at one of that address's own keys. */
  lemma {:induction false} PointsFromInvokers(md5: string -> Digest, invokers: seq<string>, n: nat, p: Point)
    requires p in Points(md5, invokers, n)
    ensures p.1 in invokers && p in InvokerPoints(md5, p.1, n)
  {
    var init := invokers[..|invokers| - 1];
    var last := invokers[|invokers| - 1];
    assert invokers == init + [last];
    if p !in InvokerPoints(md5, last, n) {
      PointsFromInvokers(md5, init, n, p);
    } else {
      InvokerPointsOwner(md5, last, n, p);
    }
  }

  /** Every point of every listed address is put. */
  lemma {:induction false} PointsCoverInvokers(md5: string -> Digest, invokers: seq<string>, n: nat, a: string, p: Point)
    requires a in invokers && p in InvokerPoints(md5, a, n)
    ensures p in Points(md5, invokers, n)
  {
    var init := invokers[..|invokers| - 1];
    var last := invokers[|invokers| - 1];
    assert invokers == init + [last];
    if a != last {
      PointsCoverInvokers(md5, init, n, a, p);
    }
  }

  /** The constructor's loop steps, one put, one digest and one address at a time. */
  lemma PutAllSnoc(ps: seq<Point>, p: Point)
    ensures PutAll(ps + [p]) == PutAll(ps)[p.0 := p.1]
  {
    assert (ps + [p])[..|ps|] == ps;
  }

  lemma PointsSnoc(md5: string -> Digest, invokers: seq<string>, n: nat, j: nat)
    requires j < |invokers|
    ensures Points(md5, invokers[..j + 1], n) == Points(md5, invokers[..j], n) + InvokerPoints(md5, invokers[j], n)
  {
    assert invokers[..j + 1][..j] == invokers[..j];
  }

  /** The map after the puts `ps`, in order, into an empty `TreeMap`. */
  function PutAll(ps: seq<Point>): (m: map<int, string>)
    ensures |m| <= |ps|
    ensures m == map[] <==> ps == []
  {
    if ps == [] then map[] else PutAll(ps[..|ps| - 1])[ps[|ps| - 1].0 := ps[|ps| - 1].1]
  }

  /** The ring a selector holds after its constructor. */
  function Ring(md5: string -> Digest, invokers: seq<string>, replicaNumber: int): (ring: map<int, string>)
    ensures ring == map[] <==> invokers == [] || replicaNumber < 4
  {
    PutAll(Points(md5, invokers, ReplicaGroups(replicaNumber)))
  }

  /** A key is in the map exactly when some put used it. */
  lemma {:induction false} PutAllKeys(ps: seq<Point>, k: int)
    ensures k in PutAll(ps) <==> exists j :: 0 <= j < |ps| && ps[j].0 == k
  {
    if ps != [] {
      var init := ps[..|ps| - 1];
      PutAllKeys(init, k);
      if exists j :: 0 <= j < |init| && init[j].0 == k {
        var j :| 0 <= j < |init| && init[j].0 == k;
        assert ps[j].0 == k;
      }
      if exists j :: 0 <= j < |ps| && ps[j].0 == k {
        var j :| 0 <= j < |ps| && ps[j].0 == k;
        if j < |init| { assert init[j].0 == k; }
      }
    }
  }

  /** Every entry of the map was put by one of the puts. */
  lemma {:induction false} PutAllEntry(ps: seq<Point>, k: int)
    requires k in PutAll(ps)
    ensures (k, PutAll(ps)[k]) in ps
  {
    var init := ps[..|ps| - 1];
    if ps[|ps| - 1].0 != k {
      PutAllEntry(init, k);
      assert forall p :: p in init ==> p in ps;
    }
  }

  /** Colliding keys: the value stored is the one of the latest put. */
  lemma {:induction false} PutAllLatest(ps: seq<Point>, j: nat)
    requires j < |ps|
    requires forall j' :: j < j' < |ps| ==> ps[j'].0 != ps[j].0
    ensures ps[j].0 in PutAll(ps) && PutAll(ps)[ps[j].0] == ps[j].1
  {
    if j < |ps| - 1 {
      var init := ps[..|ps| - 1];
      PutAllLatest(init, j);
    }
  }

  /** Every address stored in the ring is one of the input addresses. */
  lemma RingValuesAreInvokers(md5: string -> Digest, invokers: seq<string>, replicaNumber: int, k: int)
    requires k in Ring(md5, invokers, replicaNumber)
    ensures Ring(md5, invokers, replicaNumber)[k] in invokers
  {
    var ps := Points(md5, invokers, ReplicaGroups(replicaNumber));
    PutAllEntry(ps, k);
    PointsFromInvokers(md5, invokers, ReplicaGroups(replicaNumber), (k, PutAll(ps)[k]));
  }

  /** A non-empty address list with at least four replicas gives a non-empty ring. */
  lemma RingNonEmpty(md5: string -> Digest, invokers: seq<string>, replicaNumber: int)
    requires invokers != [] && replicaNumber >= 4
    ensures Ring(md5, invokers, replicaNumber) != map[]
  {
    var n := ReplicaGroups(replicaNumber);
    var ps := Points(md5, invokers, n);
    var a := invokers[0];
    var p := InvokerPoints(md5, a, n)[0];
    PointsCoverInvokers(md5, invokers, n, a, p);
    var j :| 0 <= j < |ps| && ps[j] == p;
    PutAllKeys(ps, p.0);
  }

  /** The set of keys one address can contribute. */
  function KeysOf(ps: seq<Point>): set<int>
  {
    set p | p in ps :: p.0
  }

  lemma {:induction false} KeysOfSize(ps: seq<Point>)
    ensures |KeysOf(ps)| <= |ps|
  {
    if ps != [] {
      var init := ps[..|ps| - 1];
      KeysOfSize(init);
      assert KeysOf(ps) == KeysOf(init) + {ps[|ps| - 1].0} by {
        assert ps == init + [ps[|ps| - 1]];
      }
    }
  }

  /** Each address owns at most `4 * (replicaNumber / 4)` points of the ring
      (fewer when keys collide), however often it occurs in the list. */
  lemma RingPointsPerInvoker(md5: string -> Digest, invokers: seq<string>, replicaNumber: int, a: string)
    ensures var ring := Ring(md5, invokers, replicaNumber);
            |set k | k in ring && ring[k] == a| <= 4 * ReplicaGroups(replicaNumber)
  {
    var n := ReplicaGroups(replicaNumber);
    var ps := Points(md5, invokers, n);
    var ring := PutAll(ps);
    var own := set k | k in ring && ring[k] == a;
    var mine := InvokerPoints(md5, a, n);
    forall k | k in own ensures k in KeysOf(mine) {
      PutAllEntry(ps, k);
      PointsFromInvokers(md5, invokers, n, (k, a));
    }
    SubsetSize(own, KeysOf(mine));
    KeysOfSize(mine);
  }

  lemma Element(s: set<int>) returns (x: int)
    requires s != {}
    ensures x in s
  {
    if forall y :: y !in s {
      assert false;
    }
    x :| x in s;
  }

  lemma {:induction false} SubsetSize(a: set<int>, b: set<int>)
    requires a <= b
    ensures |a| <= |b|
    decreases |b|
  {
    if a != {} {
      var x := Element(a);
      SubsetSize(a - {x}, b - {x});
    }
  }

  // ---- The ceiling lookup ----

  predicate IsLeast(s: set<int>, k: int)
  {
    k in s && forall x :: x in s ==> k <= x
  }

  lemma {:induction false} LeastExists(s: set<int>)
    requires s != {}
    ensures exists k :: IsLeast(s, k)
    decreases |s|
  {
    var x := Element(s);
    if s != {x} {
      LeastExists(s - {x});
      var m :| IsLeast(s - {x}, m);
      var least := if x < m then x else m;
      forall y | y in s ensures least <= y {
        if y != x { assert y in s - {x}; }
      }
      assert IsLeast(s, least);
    } else {
      assert IsLeast(s, x);
    }
  }

  /** The smallest element of a non-empty set. */
  function Least(s: set<int>): (m: int)
    requires s != {}
    ensures IsLeast(s, m)
  {
    LeastExists(s);
    var m :| IsLeast(s, m);
    m
  }

  /** The keys of `tailMap(hashCode, true)`. */
  function TailKeys(ring: map<int, string>, hashCode: int): set<int>
  {
    set k | k in ring.Keys && k >= hashCode
  }

  // ---- ConsistentHashSelector ----

  lemma ReplicaStep(md5: string -> Digest, before: seq<Point>, invoker: string, i: nat, h: nat)
    requires h < 4
    ensures PutAll(before + ReplicaPoints(md5, invoker, i, h + 1))
         == PutAll(before + ReplicaPoints(md5, invoker, i, h))[Hash(md5(invoker + NatToString(i)), h) := invoker]
  {
    var p := (VirtualKey(md5, invoker, i, h), invoker);
    assert before + ReplicaPoints(md5, invoker, i, h + 1) == (before + ReplicaPoints(md5, invoker, i, h)) + [p];
    PutAllSnoc(before + ReplicaPoints(md5, invoker, i, h), p);
  }

  lemma GroupStart(md5: string -> Digest, done: seq<Point>, invoker: string)
    ensures done + InvokerPoints(md5, invoker, 0) == done
  {
  }

  lemma ReplicaStart(md5: string -> Digest, before: seq<Point>, invoker: string, i: nat)
    ensures before + ReplicaPoints(md5, invoker, i, 0) == before
  {
  }

  lemma GroupStep(md5: string -> Digest, done: seq<Point>, invoker: string, i: nat)
    ensures done + InvokerPoints(md5, invoker, i) + ReplicaPoints(md5, invoker, i, 4)
         == done + InvokerPoints(md5, invoker, i + 1)
  {
  }

  class ConsistentHashSelector {
    /** The `TreeMap` from point keys to addresses. */
    var virtualInvokers: map<int, string>
    const identityHashCode: int
    const md5: string -> Digest
    ghost const invokers: seq<string>
    ghost const replicaNumber: int

    ghost predicate Valid()
      reads this
    {
      virtualInvokers == Ring(md5, invokers, replicaNumber)
    }

    constructor (invokers: seq<string>, replicaNumber: int, identityHashCode: int, md5: string -> Digest)
      ensures Valid()
      ensures this.invokers == invokers && this.replicaNumber == replicaNumber
      ensures this.identityHashCode == identityHashCode && this.md5 == md5
      ensures virtualInvokers == Ring(md5, invokers, replicaNumber)
    {
      this.identityHashCode := identityHashCode;
      this.md5 := md5;
      this.invokers := invokers;
      this.replicaNumber := replicaNumber;
      virtualInvokers := map[];
      new;
      var groups := ReplicaGroups(replicaNumber);
      for j := 0 to |invokers|
        invariant virtualInvokers == PutAll(Points(md5, invokers[..j], groups))
      {
        var invoker := invokers[j];
        ghost var done := Points(md5, invokers[..j], groups);
        GroupStart(md5, done, invoker);
        for i := 0 to groups
          invariant virtualInvokers == PutAll(done + InvokerPoints(md5, invoker, i))
        {
          PutDigest(invoker, i, done + InvokerPoints(md5, invoker, i));
          GroupStep(md5, done, invoker, i);
        }
        PointsSnoc(md5, invokers, groups, j);
      }
      assert invokers[..|invokers|] == invokers;
    }

    /** One pass of the constructor's middle loop: the four windows of the
        digest of `invoker + i` are put in order. */
    method PutDigest(invoker: string, i: nat, ghost before: seq<Point>)
      requires virtualInvokers == PutAll(before)
      modifies this
      ensures virtualInvokers == PutAll(before + ReplicaPoints(md5, invoker, i, 4))
    {
      var digest := md5(invoker + NatToString(i));
      ReplicaStart(md5, before, invoker, i);
      for h := 0 to 4
        invariant virtualInvokers == PutAll(before + ReplicaPoints(md5, invoker, i, h))
      {
        var m := Hash(digest, h);
        ReplicaStep(md5, before, invoker, i, h);
        virtualInvokers := virtualInvokers[m := invoker];
      }
    }

    /** `selectForKey(hashCode)`: the address at the smallest key at or above
        `hashCode`, or at the smallest key when there is none; `None` stands for
        the `NullPointerException` an empty ring raises. */
    function SelectForKey(hashCode: int): (r: Option<string>)
      reads this
      ensures r.Some? <==> virtualInvokers != map[]
      ensures r.Some? ==> r.value in virtualInvokers.Values
      ensures forall k :: IsLeast(TailKeys(virtualInvokers, hashCode), k) ==> r == Some(virtualInvokers[k])
      ensures TailKeys(virtualInvokers, hashCode) == {} ==>
                forall k :: IsLeast(virtualInvokers.Keys, k) ==> r == Some(virtualInvokers[k])
    {
      var tail := TailKeys(virtualInvokers, hashCode);
      if tail != {} then
        Some(virtualInvokers[Least(tail)])
      else if virtualInvokers.Keys != {} then
        Some(virtualInvokers[Least(virtualInvokers.Keys)])
      else
        assert virtualInvokers == map[];
        None
    }

    /** `select(rpcServiceKey)`: the first window of the key's digest, looked up. */
    function Select(rpcServiceKey: string): (r: Option<string>)
      reads this
      ensures r.Some? <==> virtualInvokers != map[]
      ensures r.Some? ==> r.value in virtualInvokers.Values
    {
      SelectForKey(Hash(md5(rpcServiceKey), 0))
    }
  }

  /** On a ring built from a non-empty list with at least four replicas, every
      key selects one of the listed addresses. */
  lemma SelectReturnsInvoker(s: ConsistentHashSelector, rpcServiceKey: string)
    requires s.Valid() && s.invokers != [] && s.replicaNumber >= 4
    ensures s.Select(rpcServiceKey).Some?
    ensures s.Select(rpcServiceKey).value in s.invokers
  {
    RingNonEmpty(s.md5, s.invokers, s.replicaNumber);
    var r := s.Select(rpcServiceKey).value;
    var k :| k in s.virtualInvokers && s.virtualInvokers[k] == r;
    RingValuesAreInvokers(s.md5, s.invokers, s.replicaNumber, k);
  }

  // ---- ConsistentHashLoadBalance ----

  class ConsistentHashLoadBalance {
    const md5: string -> Digest
    /** One selector per RPC service name. */
    var selectors: map<string, ConsistentHashSelector>

    ghost predicate Valid()
      reads this, selectors.Values
    {
      forall n :: n in selectors ==>
        selectors[n].Valid() && selectors[n].md5 == md5 && selectors[n].replicaNumber == REPLICA_NUMBER
    }

    constructor (md5: string -> Digest)
      ensures Valid() && this.md5 == md5 && selectors == map[]
    {
      this.md5 := md5;
      selectors := map[];
    }

    /** The cached selector of `rpcServiceName`, replaced by a new one over
        `serviceAddresses` when there is none or its identity hash differs. */
    method SelectorFor(rpcServiceName: string, serviceAddresses: seq<string>, identityHashCode: int)
      returns (selector: ConsistentHashSelector)
      requires Valid()
      modifies this
      ensures Valid()
      ensures rpcServiceName in selectors && selectors[rpcServiceName] == selector
      ensures selector.identityHashCode == identityHashCode
      ensures selectors.Keys == old(selectors).Keys + {rpcServiceName}
      ensures forall n :: n in old(selectors) && n != rpcServiceName ==> selectors[n] == old(selectors)[n]
      ensures rpcServiceName in old(selectors) && old(selectors)[rpcServiceName].identityHashCode == identityHashCode ==>
                selectors == old(selectors)
      ensures !(rpcServiceName in old(selectors) && old(selectors)[rpcServiceName].identityHashCode == identityHashCode) ==>
                && fresh(selector)
                && selector.invokers == serviceAddresses
                && selector.virtualInvokers == Ring(md5, serviceAddresses, REPLICA_NUMBER)
    {
      if rpcServiceName in selectors && selectors[rpcServiceName].identityHashCode == identityHashCode {
        return selectors[rpcServiceName];
      }
      selector := new ConsistentHashSelector(serviceAddresses, REPLICA_NUMBER, identityHashCode, md5);
      ghost var ring := selector.virtualInvokers;
      Install(rpcServiceName, selector);
      assert selector.virtualInvokers == ring;
    }

    /** Puts `selector` in the cache under `rpcServiceName`, replacing any old one. */
    method Install(rpcServiceName: string, selector: ConsistentHashSelector)
      requires Valid()
      requires selector.Valid() && selector.md5 == md5 && selector.replicaNumber == REPLICA_NUMBER
      modifies this
      ensures Valid()
      ensures selectors == old(selectors)[rpcServiceName := selector]
      ensures rpcServiceName in selectors && selectors[rpcServiceName] == selector
      ensures selectors.Keys == old(selectors).Keys + {rpcServiceName}
      ensures forall n :: n in old(selectors) && n != rpcServiceName ==> selectors[n] == old(selectors)[n]
    {
      selectors := selectors[rpcServiceName := selector];
    }

    /** `doSelect`. `identityHashCode` is `System.identityHashCode` of the address
        list and `parameterText` the string form of the argument stream. */
    method DoSelect(serviceAddresses: seq<string>, identityHashCode: int, rpcRequest: RpcRequest, parameterText: string)
      returns (r: Option<string>)
      requires Valid()
      modifies this
      ensures Valid()
      ensures var name := RequestServiceName(rpcRequest);
              && name in selectors && selectors[name].identityHashCode == identityHashCode
              && selectors.Keys == old(selectors).Keys + {name}
              && (forall n :: n in old(selectors) && n != name ==> selectors[n] == old(selectors)[n])
              && r == selectors[name].Select(name + parameterText)
              && (r.Some? ==> r.value in selectors[name].invokers)
      ensures var name := RequestServiceName(rpcRequest);
              name in old(selectors) && old(selectors)[name].identityHashCode == identityHashCode ==>
                selectors == old(selectors)
      ensures var name := RequestServiceName(rpcRequest);
              !(name in old(selectors) && old(selectors)[name].identityHashCode == identityHashCode) ==>
                && fresh(selectors[name])
                && selectors[name].invokers == serviceAddresses
                && selectors[name].virtualInvokers == Ring(md5, serviceAddresses, REPLICA_NUMBER)
                && (serviceAddresses != [] ==> r.Some? && r.value in serviceAddresses)
    {
      var rpcServiceName := RequestServiceName(rpcRequest);
      var selector := SelectorFor(rpcServiceName, serviceAddresses, identityHashCode);
      r := selector.Select(rpcServiceName + parameterText);
      SelectedInvoker(selector, rpcServiceName + parameterText);
    }
  }

  /** A selection, when there is one, is one of the selector's addresses; a
      non-empty address list always gives one. */
  lemma SelectedInvoker(s: ConsistentHashSelector, rpcServiceKey: string)
    requires s.Valid() && s.replicaNumber == REPLICA_NUMBER
    ensures s.Select(rpcServiceKey).Some? ==> s.Select(rpcServiceKey).value in s.invokers
    ensures s.invokers != [] ==> s.Select(rpcServiceKey).Some?
  {
    var r := s.Select(rpcServiceKey);
    if r.Some? {
      var k :| k in s.virtualInvokers && s.virtualInvokers[k] == r.value;
      RingValuesAreInvokers(s.md5, s.invokers, s.replicaNumber, k);
    }
    if s.invokers != [] {
      SelectReturnsInvoker(s, rpcServiceKey);
    }
  }
}
