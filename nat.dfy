/**
 * The NAT table: private socket addresses are mapped one-to-one onto
 * public socket addresses `(publicIp, port)`, with ports handed out
 * sequentially from 10000 on first use and never reclaimed.
 */
module Nat {
  import opened Addresses

  /** The first public port handed out. */
  const Base: int := 10000

  /** The largest value of the `u16` port counter: it cannot be incremented past this. */
  const MaxPort: int := 0xFFFF

  /** The value of a NAT table: its two maps, its port counter and its public address. */
  datatype NatState = NatState(
    pubToPrivate: map<SocketAddr, SocketAddr>,
    privateToPub: map<SocketAddr, SocketAddr>,
    nextPort: U16,
    publicIp: IpAddr)
  {
    /** The two maps are exact inverses of each other. */
    ghost predicate Inverse() {
      && (forall a :: a in privateToPub ==>
            privateToPub[a] in pubToPrivate && pubToPrivate[privateToPub[a]] == a)
      && (forall b :: b in pubToPrivate ==>
            pubToPrivate[b] in privateToPub && privateToPub[pubToPrivate[b]] == b)
    }

    /** Every public address in the table uses `publicIp` and a port in `[Base, nextPort)`. */
    ghost predicate InRange() {
      && Base <= nextPort
      && forall b :: b in pubToPrivate ==> b.ip == publicIp && Base <= b.port < nextPort
    }

    ghost predicate Valid() {
      Inverse() && InRange()
    }

    /** `translate` completes without overflowing the port counter. */
    predicate CanTranslate(privateAddr: SocketAddr) {
      privateAddr in privateToPub || nextPort < MaxPort
    }

    /** `NatTable::translate`: the new table and the public address returned. */
    function Translate(privateAddr: SocketAddr): (r: (NatState, SocketAddr))
      requires CanTranslate(privateAddr)
      ensures r.0.publicIp == publicIp
      // Idempotent for an endpoint already seen: the stored address, nothing changes.
      ensures privateAddr in privateToPub ==> r.0 == this && r.1 == privateToPub[privateAddr]
      // A new endpoint gets `(publicIp, nextPort)` and the counter moves on by exactly one.
      ensures privateAddr !in privateToPub ==>
                r.1 == SocketAddr(publicIp, nextPort) && r.0.nextPort == nextPort + 1
      ensures r.0.privateToPub.Keys == privateToPub.Keys + {privateAddr}
      ensures r.0.privateToPub[privateAddr] == r.1
      // The invariant is kept, the reverse map leads back, earlier mappings are kept.
      ensures Valid() ==> r.0.Valid()
      ensures Valid() ==> r.1 in r.0.pubToPrivate && r.0.pubToPrivate[r.1] == privateAddr
      ensures Valid() ==> forall a :: a in privateToPub ==> r.0.privateToPub[a] == privateToPub[a]
      ensures Valid() ==> forall b :: b in pubToPrivate ==>
                b in r.0.pubToPrivate && r.0.pubToPrivate[b] == pubToPrivate[b]
    {
      if privateAddr in privateToPub then
        (this, privateToPub[privateAddr])
      else
        var publicAddr := SocketAddr(publicIp, nextPort);
        (NatState(pubToPrivate[publicAddr := privateAddr],
                  privateToPub[privateAddr := publicAddr],
                  nextPort + 1,
                  publicIp),
         publicAddr)
    }
  }

  /** `NatTable::new`: no mappings, counter at `Base`. */
  function Fresh(publicIp: IpAddr): (s: NatState)
    ensures s.publicIp == publicIp
    ensures Layout(s, [])
    ensures s.Valid()
  {
    var s := NatState(map[], map[], Base, publicIp);
    assert Layout(s, []);
    LayoutValid(s, []);
    s
  }

  /** Two distinct private addresses never share a public address. */
  lemma NoSharedPublic(s: NatState, a: SocketAddr, a': SocketAddr)
    requires s.Valid()
    requires a in s.privateToPub && a' in s.privateToPub && a != a'
    ensures s.privateToPub[a] != s.privateToPub[a']
  {
  }

  ghost predicate NoDuplicates(s: seq<SocketAddr>) {
    forall i, j :: 0 <= i < j < |s| ==> s[i] != s[j]
  }

  /**
   * The exact shape of a table built by translations from `Fresh`: `order`
   * lists the private endpoints in the order they were first translated, and
   * the `i`-th one holds public port `Base + i`; the public ports in use are
   * exactly `[Base, nextPort)`.
   */
  ghost predicate Layout(s: NatState, order: seq<SocketAddr>) {
    && s.nextPort == Base + |order|
    && NoDuplicates(order)
    && (forall a :: a in s.privateToPub <==> a in order)
    && (forall i :: 0 <= i < |order| ==>
          order[i] in s.privateToPub && s.privateToPub[order[i]] == SocketAddr(s.publicIp, Base + i))
    && (forall b :: b in s.pubToPrivate <==> b.ip == s.publicIp && Base <= b.port < s.nextPort)
    && (forall i :: 0 <= i < |order| ==> s.pubToPrivate[SocketAddr(s.publicIp, Base + i)] == order[i])
  }

  lemma LayoutValid(s: NatState, order: seq<SocketAddr>)
    requires Layout(s, order)
    ensures s.Valid()
  {
    forall a | a in s.privateToPub
      ensures s.privateToPub[a] in s.pubToPrivate && s.pubToPrivate[s.privateToPub[a]] == a
    {
      var i :| 0 <= i < |order| && order[i] == a;
      assert s.privateToPub[a] == SocketAddr(s.publicIp, Base + i);
    }
    forall b | b in s.pubToPrivate
      ensures s.pubToPrivate[b] in s.privateToPub && s.privateToPub[s.pubToPrivate[b]] == b
    {
      var i := b.port - Base;
      assert 0 <= i < |order|;
      assert b == SocketAddr(s.publicIp, Base + i);
      assert s.pubToPrivate[b] == order[i];
      assert s.privateToPub[order[i]] == b;
    }
  }

  /** The list of endpoints after `p` is translated: `p` is appended if it is new. */
  function AppendNew(order: seq<SocketAddr>, p: SocketAddr): seq<SocketAddr> {
    if p in order then order else order + [p]
  }

  /** One translation keeps the layout, appending a new endpoint at the next port. */
  lemma TranslateLayout(s: NatState, order: seq<SocketAddr>, p: SocketAddr)
    requires Layout(s, order) && s.CanTranslate(p)
    ensures Layout(s.Translate(p).0, AppendNew(order, p))
  {
    if p !in s.privateToPub {
      var (t, q) := s.Translate(p);
      var order' := order + [p];
      assert q == SocketAddr(s.publicIp, Base + |order|);
      forall i | 0 <= i < |order'|
        ensures order'[i] in t.privateToPub && t.privateToPub[order'[i]] == SocketAddr(t.publicIp, Base + i)
      {
        if i < |order| {
          assert order'[i] == order[i] && order[i] != p;
        }
      }
      forall i | 0 <= i < |order'|
        ensures t.pubToPrivate[SocketAddr(t.publicIp, Base + i)] == order'[i]
      {
        if i < |order| {
          assert SocketAddr(t.publicIp, Base + i) != q;
        }
      }
    }
  }

  /** Every translation of `ps`, made left to right from `s`, completes without overflowing the counter. */
  ghost predicate CanTranslateAll(s: NatState, ps: seq<SocketAddr>)
    decreases |ps|
  {
    ps == [] || (s.CanTranslate(ps[0]) && CanTranslateAll(s.Translate(ps[0]).0, ps[1..]))
  }

  /** The table after translating every endpoint of `ps`, left to right. */
  function TranslateAll(s: NatState, ps: seq<SocketAddr>): (r: NatState)
    requires CanTranslateAll(s, ps)
    ensures r.publicIp == s.publicIp
    ensures s.nextPort <= r.nextPort <= s.nextPort + |ps|
    decreases |ps|
  {
    if ps == [] then s else TranslateAll(s.Translate(ps[0]).0, ps[1..])
  }

  /** The endpoints of `ps` not yet in `order`, appended in order of first appearance. */
  function FirstOccurrences(order: seq<SocketAddr>, ps: seq<SocketAddr>): (r: seq<SocketAddr>)
    ensures |order| <= |r|
    decreases |ps|
  {
    if ps == [] then order else FirstOccurrences(AppendNew(order, ps[0]), ps[1..])
  }

  /** The distinct endpoints of `ps`, in order of first appearance. */
  function Distinct(ps: seq<SocketAddr>): seq<SocketAddr> {
    FirstOccurrences([], ps)
  }

  lemma {:induction false} FirstOccurrencesElements(order: seq<SocketAddr>, ps: seq<SocketAddr>)
    requires NoDuplicates(order)
    ensures NoDuplicates(FirstOccurrences(order, ps))
    ensures forall x :: x in FirstOccurrences(order, ps) <==> x in order || x in ps
    decreases |ps|
  {
    if ps != [] {
      FirstOccurrencesElements(AppendNew(order, ps[0]), ps[1..]);
      assert ps == [ps[0]] + ps[1..];
    }
  }

  /** `Distinct(ps)` holds every endpoint of `ps` exactly once. */
  lemma DistinctElements(ps: seq<SocketAddr>)
    ensures NoDuplicates(Distinct(ps))
    ensures forall x :: x in Distinct(ps) <==> x in ps
  {
    FirstOccurrencesElements([], ps);
  }

  /**
   * Only the first translation of an endpoint allocates a port: a run of
   * translations fits in the port space when its distinct endpoints do,
   * however often each one repeats.
   */
  lemma {:induction false} DistinctCapacitySuffices(s: NatState, order: seq<SocketAddr>, ps: seq<SocketAddr>)
    requires Layout(s, order) && Base + |FirstOccurrences(order, ps)| <= MaxPort
    ensures CanTranslateAll(s, ps)
    decreases |ps|
  {
    if ps != [] {
      if ps[0] !in s.privateToPub {
        assert |AppendNew(order, ps[0])| == |order| + 1;
      }
      TranslateLayout(s, order, ps[0]);
      DistinctCapacitySuffices(s.Translate(ps[0]).0, AppendNew(order, ps[0]), ps[1..]);
    }
  }

  /** Replaying translations keeps the layout, with `order` grown by the new endpoints. */
  lemma {:induction false} TranslateAllLayout(s: NatState, order: seq<SocketAddr>, ps: seq<SocketAddr>)
    requires Layout(s, order) && CanTranslateAll(s, ps)
    ensures Layout(TranslateAll(s, ps), FirstOccurrences(order, ps))
    decreases |ps|
  {
    if ps != [] {
      TranslateLayout(s, order, ps[0]);
      TranslateAllLayout(s.Translate(ps[0]).0, AppendNew(order, ps[0]), ps[1..]);
    }
  }

  /**
   * Starting from a fresh table, any run whose distinct endpoints fit in the
   * port space completes, the `n`-th distinct private endpoint translated
   * (counting from 0) is mapped to port `Base + n`, and the counter stands
   * at `Base` plus the number of distinct endpoints.
   */
  lemma NthDistinctEndpoint(publicIp: IpAddr, ps: seq<SocketAddr>, n: nat)
    requires Base + |Distinct(ps)| <= MaxPort
    requires n < |Distinct(ps)|
    ensures CanTranslateAll(Fresh(publicIp), ps)
    ensures var s := TranslateAll(Fresh(publicIp), ps);
            && s.nextPort == Base + |Distinct(ps)|
            && Distinct(ps)[n] in s.privateToPub
            && s.privateToPub[Distinct(ps)[n]] == SocketAddr(publicIp, Base + n)
            && SocketAddr(publicIp, Base + n) in s.pubToPrivate
            && s.pubToPrivate[SocketAddr(publicIp, Base + n)] == Distinct(ps)[n]
  {
    DistinctCapacitySuffices(Fresh(publicIp), [], ps);
    TranslateAllLayout(Fresh(publicIp), [], ps);
  }

  /**
   * The NAT table as the source keeps it: two maps updated in place and a
   * port counter. The ghost `order` records the private endpoints in the
   * order they were first translated.
   */
  class NatTable {
    var pubToPrivate: map<SocketAddr, SocketAddr>
    var privateToPub: map<SocketAddr, SocketAddr>
    var nextPort: U16
    const publicIp: IpAddr
    ghost var order: seq<SocketAddr>

    function State(): NatState
      reads this
    {
      NatState(pubToPrivate, privateToPub, nextPort, publicIp)
    }

    ghost predicate Valid()
      reads this
    {
      Layout(State(), order) && State().Valid()
    }

    constructor (publicIp: IpAddr)
      ensures Valid() && State() == Fresh(publicIp) && order == []
    {
      pubToPrivate := map[];
      privateToPub := map[];
      nextPort := Base;
      this.publicIp := publicIp;
      order := [];
      new;
      LayoutValid(State(), order);
    }

    method Translate(privateAddr: SocketAddr) returns (publicAddr: SocketAddr)
      requires Valid() && State().CanTranslate(privateAddr)
      modifies this
      ensures Valid()
      ensures (State(), publicAddr) == old(State()).Translate(privateAddr)
      ensures order == AppendNew(old(order), privateAddr)
      ensures ReverseTranslate(publicAddr) == Some(privateAddr)
    {
      TranslateLayout(State(), order, privateAddr);
      if privateAddr in privateToPub {
        publicAddr := privateToPub[privateAddr];
      } else {
        publicAddr := SocketAddr(publicIp, nextPort);
        nextPort := nextPort + 1;
        privateToPub := privateToPub[privateAddr := publicAddr];
        pubToPrivate := pubToPrivate[publicAddr := privateAddr];
        order := order + [privateAddr];
      }
      LayoutValid(State(), order);
    }

    /** `NatTable::reverse_translate`: a lookup in the public-to-private map. */
    function ReverseTranslate(publicAddr: SocketAddr): (r: Option<SocketAddr>)
      reads this
      ensures r.Some? <==> publicAddr in pubToPrivate
      ensures Valid() && r.Some? ==> r.value in privateToPub && privateToPub[r.value] == publicAddr
      ensures Valid() && !(publicAddr.ip == publicIp && Base <= publicAddr.port < nextPort) ==> r == None
    {
      if publicAddr in pubToPrivate then Some(pubToPrivate[publicAddr]) else None
    }
  }
}
