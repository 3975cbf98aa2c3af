/** The address pool of the DHCP service: one lease per hardware address, addresses handed out
    upwards, the first one reused when the pool is used up. */
module LeasePool {
  import opened Common

  const WORD := 0x1_0000_0000

  type word = x: int | 0 <= x < WORD

  /** A pool as a value: what the mutex guards. */
  datatype Pool = Pool(leases: map<seq<byte>, word>, next: word, start: word, end: word)

  function Fresh(start: word, end: word): Pool { Pool(map[], start, start, end) }

  /** Clients are told apart by at most six octets. */
  function Key(mac: seq<byte>): seq<byte> { if |mac| < 6 then mac else mac[..6] }

  /** The incremented counter wraps around at 2^32. */
  function Served(p: Pool, mac: seq<byte>): (Pool, word) {
    var key := Key(mac);
    if key in p.leases then (p, p.leases[key])
    else if p.next <= p.end then
      (p.(leases := p.leases[key := p.next], next := (p.next + 1) % WORD), p.next)
    else (p.(leases := p.leases[key := p.start]), p.start)
  }

  class LeasePool {
    var leases: map<seq<byte>, word>
    var next: word
    const start: word
    const end: word

    function View(): Pool
      reads this
    {
      Pool(leases, next, start, end)
    }

    constructor (poolStart: word, poolEnd: word)
      ensures View() == Fresh(poolStart, poolEnd)
    {
      leases, next, start, end := map[], poolStart, poolStart, poolEnd;
    }

    method GetOrAllocate(mac: seq<byte>) returns (ip: word)
      modifies this
      ensures (View(), ip) == Served(old(View()), mac)
    {
      var key := Key(mac);
      if key in leases {
        return leases[key];
      }
      if next <= end {
        ip := next;
        next := (next + 1) % WORD;
      } else {
        ip := start;
      }
      leases := leases[key := ip];
    }
  }

  /** The pool after a sequence of requests. */
  function After(start: word, end: word, requests: seq<seq<byte>>): Pool {
    if requests == [] then Fresh(start, end)
    else Served(After(start, end, requests[..|requests| - 1]), requests[|requests| - 1]).0
  }

  /** The answer to request `k`. */
  function Answer(start: word, end: word, requests: seq<seq<byte>>, k: nat): word
    requires k < |requests|
  {
    Served(After(start, end, requests[..k]), requests[k]).1
  }

  /** The clients in the order of their first request. */
  function Clients(requests: seq<seq<byte>>): (r: seq<seq<byte>>)
    ensures forall k | 0 <= k < |requests| :: Key(requests[k]) in r
  {
    if requests == [] then []
    else
      var earlier := Clients(requests[..|requests| - 1]);
      var key := Key(requests[|requests| - 1]);
      assert requests == requests[..|requests| - 1] + [requests[|requests| - 1]];
      if key in earlier then earlier else earlier + [key]
  }

  lemma {:induction false} ClientsAreDistinct(requests: seq<seq<byte>>)
    ensures Distinct(Clients(requests))
  {
    if requests != [] {
      ClientsAreDistinct(requests[..|requests| - 1]);
    }
  }

  lemma {:induction false} ClientsOfPrefix(requests: seq<seq<byte>>, k: nat)
    requires k <= |requests|
    ensures Clients(requests[..k]) <= Clients(requests)
  {
    if k == |requests| {
      assert requests[..k] == requests;
    } else {
      var earlier := requests[..|requests| - 1];
      assert earlier[..k] == requests[..k];
      ClientsOfPrefix(earlier, k);
    }
  }

  function Size(start: word, end: word): nat { if start <= end then end - start + 1 else 0 }

  /** The address of the client that came `i`-th: the intended numbering, or, when the last
      address of all is in the pool, one that runs on past it. */
  function AddressOf(start: word, end: word, i: nat): word {
    if end == WORD - 1 then (start + i) % WORD
    else if i < Size(start, end) then start + i
    else start
  }

  function NextAfter(start: word, end: word, n: nat): word {
    if end == WORD - 1 then (start + n) % WORD
    else if n < Size(start, end) then start + n
    else start + Size(start, end)
  }

  ghost predicate Follows(p: Pool, start: word, end: word, clients: seq<seq<byte>>) {
    && p.start == start && p.end == end
    && (forall key :: key in p.leases <==> key in clients)
    && (forall i | 0 <= i < |clients| :: p.leases[clients[i]] == AddressOf(start, end, i))
    && p.next == NextAfter(start, end, |clients|)
  }

  lemma NewClient(p: Pool, start: word, end: word, clients: seq<seq<byte>>, mac: seq<byte>)
    requires Follows(p, start, end, clients) && Key(mac) !in clients
    ensures Served(p, mac).1 == AddressOf(start, end, |clients|)
    ensures Follows(Served(p, mac).0, start, end, clients + [Key(mac)])
  {
    var n := |clients|;
    if end == WORD - 1 {
      assert ((start + n) % WORD + 1) % WORD == (start + n + 1) % WORD by { Successor(start + n); }
    }
  }

  lemma Successor(x: nat)
    ensures (x % WORD + 1) % WORD == (x + 1) % WORD
  {
    var q, r := x / WORD, x % WORD;
    assert x == q * WORD + r;
    if r + 1 == WORD {
      assert x + 1 == (q + 1) * WORD;
    } else {
      assert x + 1 == q * WORD + (r + 1);
    }
  }

  /** After any requests, every client holds the address of its place in the order of first
      requests, nobody else holds one, and the counter depends on the number of clients alone. */
  lemma {:induction false} PoolFollowsClients(start: word, end: word, requests: seq<seq<byte>>)
    ensures Follows(After(start, end, requests), start, end, Clients(requests))
  {
    if requests != [] {
      var earlier, mac := requests[..|requests| - 1], requests[|requests| - 1];
      PoolFollowsClients(start, end, earlier);
      if Key(mac) !in Clients(earlier) {
        NewClient(After(start, end, earlier), start, end, Clients(earlier), mac);
      }
    }
  }

  /** Every answer is the address of the asking client's place. */
  lemma AnswerIsByPlace(start: word, end: word, requests: seq<seq<byte>>, k: nat) returns (i: nat)
    requires k < |requests|
    ensures i < |Clients(requests)| && Clients(requests)[i] == Key(requests[k])
    ensures Answer(start, end, requests, k) == AddressOf(start, end, i)
  {
    var before, mac := requests[..k], requests[k];
    PoolFollowsClients(start, end, before);
    ClientsOfPrefix(requests, k);
    ClientsOfPrefix(requests, k + 1);
    assert requests[..k + 1][..k] == before;
    var clients := Clients(before);
    if Key(mac) in clients {
      i :| 0 <= i < |clients| && clients[i] == Key(mac);
    } else {
      i := |clients|;
      NewClient(After(start, end, before), start, end, clients, mac);
      assert Clients(requests[..k + 1]) == clients + [Key(mac)];
    }
  }

  /** What the pool is for: answers in range, one address per client for good, no sharing among
      the first clients, later ones on the first address. */
  ghost predicate AsIntended(start: word, end: word, requests: seq<seq<byte>>) {
    forall k, i | 0 <= k < |requests| && 0 <= i < |Clients(requests)| && Clients(requests)[i] == Key(requests[k]) ::
      Answer(start, end, requests, k) == if i < Size(start, end) then start + i else start
  }

  lemma PlaceIsUnique(start: word, end: word, requests: seq<seq<byte>>, k: nat, i: nat)
    requires k < |requests| && i < |Clients(requests)| && Clients(requests)[i] == Key(requests[k])
    ensures Answer(start, end, requests, k) == AddressOf(start, end, i)
  {
    var j := AnswerIsByPlace(start, end, requests, k);
    ClientsAreDistinct(requests);
    assert i == j;
  }

  lemma {:induction false} EveryClientAsked(requests: seq<seq<byte>>, i: nat) returns (k: nat)
    requires i < |Clients(requests)|
    ensures k < |requests| && Key(requests[k]) == Clients(requests)[i]
  {
    var last := |requests| - 1;
    if i < |Clients(requests[..last])| {
      k := EveryClientAsked(requests[..last], i);
    } else {
      k := last;
    }
  }

  /** The intended numbering differs from the code's exactly past the end of a pool that holds
      the last address of all, and there only where wrapping around misses the first address. */
  lemma NumberingsDiffer(start: word, end: word, i: nat)
    requires i <= Size(start, end) + (if start == 0 then 1 else 0) || end < WORD - 1
    ensures AddressOf(start, end, i) == (if i < Size(start, end) then start + i else start)
            <==> end < WORD - 1 || i < Size(start, end) + (if start == 0 then 1 else 0)
  {
  }

  lemma IntendedWhile(start: word, end: word, requests: seq<seq<byte>>)
    requires end < WORD - 1 || |Clients(requests)| <= Size(start, end) + (if start == 0 then 1 else 0)
    ensures AsIntended(start, end, requests)
  {
    forall k, i | 0 <= k < |requests| && 0 <= i < |Clients(requests)| && Clients(requests)[i] == Key(requests[k])
      ensures Answer(start, end, requests, k) == if i < Size(start, end) then start + i else start
    {
      PlaceIsUnique(start, end, requests, k, i);
      NumberingsDiffer(start, end, i);
    }
  }

  /** The pool is as intended for all requests when its last address is not the last of all;
      otherwise until it is used up (one client longer when it holds every address there is). */
  lemma IntendedExactly(start: word, end: word, requests: seq<seq<byte>>)
    ensures AsIntended(start, end, requests) <==>
              (end < WORD - 1 || |Clients(requests)| <= Size(start, end) + (if start == 0 then 1 else 0))
  {
    var i := Size(start, end) + if start == 0 then 1 else 0;
    if end < WORD - 1 || |Clients(requests)| <= i {
      IntendedWhile(start, end, requests);
    } else {
      var k := EveryClientAsked(requests, i);
      PlaceIsUnique(start, end, requests, k, i);
      NumberingsDiffer(start, end, i);
    }
  }

  /** The places that share an address: past the end of the pool all share the first one, and in a
      pool that holds the last address of all the numbering repeats after 2^32 places. */
  predicate SharedPlaces(start: word, end: word, i: nat, j: nat) {
    if end == WORD - 1 then i % WORD == j % WORD
    else i == j || ((i == 0 || i >= Size(start, end)) && (j == 0 || j >= Size(start, end)))
  }

  lemma WrappedPlace(start: word, i: nat)
    ensures (start + i) % WORD == if start + i % WORD < WORD then start + i % WORD else start + i % WORD - WORD
  {
    var q := i / WORD;
    assert i == q * WORD + i % WORD;
    if start + i % WORD >= WORD {
      assert start + i == (q + 1) * WORD + (start + i % WORD - WORD);
    } else {
      assert start + i == q * WORD + (start + i % WORD);
    }
  }

  lemma SharedAddress(start: word, end: word, i: nat, j: nat)
    ensures AddressOf(start, end, i) == AddressOf(start, end, j) <==> SharedPlaces(start, end, i, j)
  {
    if end == WORD - 1 {
      WrappedPlace(start, i);
      WrappedPlace(start, j);
    }
  }

  lemma InPool(start: word, end: word, i: nat)
    ensures start <= AddressOf(start, end, i) <= end <==>
              start <= end && (end == WORD - 1 ==> i % WORD < Size(start, end))
  {
    if end == WORD - 1 {
      WrappedPlace(start, i);
    }
  }

  lemma SharersRunPast(start: word, end: word, i: nat, j: nat)
    requires SharedPlaces(start, end, i, j) && i < j
    ensures j >= Size(start, end)
  {
  }

  /** Of any pool: two requests get the same address exactly when their clients' places share one,
      and an answer is in the pool exactly when there is a pool and its numbering has not run past
      the last address of all. Two clients share only once there are more clients than addresses. */
  lemma SharingExactly(start: word, end: word, requests: seq<seq<byte>>, a: nat, b: nat) returns (i: nat, j: nat)
    requires a < |requests| && b < |requests|
    ensures i < |Clients(requests)| && Clients(requests)[i] == Key(requests[a])
    ensures j < |Clients(requests)| && Clients(requests)[j] == Key(requests[b])
    ensures i == j <==> Key(requests[a]) == Key(requests[b])
    ensures Answer(start, end, requests, a) == Answer(start, end, requests, b) <==> SharedPlaces(start, end, i, j)
    ensures start <= Answer(start, end, requests, a) <= end <==>
              start <= end && (end == WORD - 1 ==> i % WORD < Size(start, end))
    ensures SharedPlaces(start, end, i, j) && i != j ==> |Clients(requests)| > Size(start, end)
  {
    i := AnswerIsByPlace(start, end, requests, a);
    j := AnswerIsByPlace(start, end, requests, b);
    ClientsAreDistinct(requests);
    SharedAddress(start, end, i, j);
    InPool(start, end, i);
    if SharedPlaces(start, end, i, j) && i != j {
      SharersRunPast(start, end, if i < j then i else j, if i < j then j else i);
    }
  }
}
