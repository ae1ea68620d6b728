/**
 The client registry (`clients` in server.cpp): socket number to per-client
 information, kept by `std::map` in ascending socket order, and the
 server listing that HELO builds from it. The peer address is taken as an
 already rendered IP string and a port number.
 */
module Registry {
  import opened Decimal

  type Port = p: int | 0 <= p < 0x1_0000

  /** What the server keeps per connection: the chosen name (initially empty) and the peer address. */
  datatype ClientInfo = ClientInfo(name: string, ip: string, port: Port)

  /** Socket number to client information. */
  type Clients = map<int, ClientInfo>

  /** A new connection is recorded under its socket with no name yet. */
  function Register(c: Clients, sock: int, ip: string, port: Port): (c': Clients)
    ensures c'.Keys == c.Keys + {sock}
    ensures c'[sock] == ClientInfo("", ip, port)
    ensures forall k :: k in c && k != sock ==> c'[k] == c[k]
  {
    c[sock := ClientInfo("", ip, port)]
  }

  /** A closed connection is erased; erasing an absent socket is a no-op. */
  function Unregister(c: Clients, sock: int): (c': Clients)
    ensures c'.Keys == c.Keys - {sock}
    ensures forall k :: k in c' ==> c'[k] == c[k]
  {
    c - {sock}
  }

  /** Accepting a new socket and then closing it leaves the registry as it was. */
  lemma UnregisterUndoesRegister(c: Clients, sock: int, ip: string, port: Port)
    requires sock !in c
    ensures Unregister(Register(c, sock, ip, port), sock) == c
  {
    assert Unregister(Register(c, sock, ip, port), sock).Keys == c.Keys;
  }

  /** CONNECT: only the sender's name changes. */
  function SetName(c: Clients, sock: int, name: string): (c': Clients)
    requires sock in c
    ensures c'.Keys == c.Keys
    ensures c'[sock].name == name
    ensures c'[sock].ip == c[sock].ip && c'[sock].port == c[sock].port
    ensures forall k :: k in c && k != sock ==> c'[k] == c[k]
  {
    c[sock := c[sock].(name := name)]
  }

  predicate IsLeast(m: int, s: set<int>) {
    m in s && forall x :: x in s ==> m <= x
  }

  lemma {:induction false} LeastExists(s: set<int>)
    requires s != {}
    ensures exists m :: IsLeast(m, s)
    decreases |s|
  {
    if forall y :: y !in s {
      assert false;
    }
    var x :| x in s;
    if s != {x} {
      LeastExists(s - {x});
      var m :| IsLeast(m, s - {x});
      var least := if x < m then x else m;
      forall y | y in s
        ensures least <= y
      {
        if y != x {
          assert y in s - {x};
        }
      }
      assert IsLeast(least, s);
    } else {
      assert IsLeast(x, s);
    }
  }

  /** The smallest socket of a non-empty set. */
  function LeastSocket(s: set<int>): (m: int)
    requires s != {}
    ensures m in s && forall x :: x in s ==> m <= x
  {
    LeastExists(s);
    var m :| IsLeast(m, s); m
  }

  predicate Increasing(r: seq<int>) {
    forall i, j :: 0 <= i < j < |r| ==> r[i] < r[j]
  }

  /** The sockets of a set in ascending order, as iterating a `std::map<int, ...>` visits its keys. */
  function AscendingSockets(s: set<int>): (r: seq<int>)
    ensures Increasing(r)
    ensures forall x :: x in s <==> x in r
    ensures |r| == |s|
    decreases |s|
  {
    if s == {} then []
    else
      var m := LeastSocket(s);
      var rest := AscendingSockets(s - {m});
      ConsIncreasing(m, rest);
      [m] + rest
  }

  /** `socks` with every occurrence of `self` removed, order kept. */
  function Without(socks: seq<int>, self: int): (r: seq<int>)
    ensures forall x :: x in r <==> x in socks && x != self
    ensures Increasing(socks) ==> Increasing(r)
  {
    if |socks| == 0 then []
    else if socks[0] == self then Without(socks[1..], self)
    else
      var rest := Without(socks[1..], self);
      HeadBelowRest(socks);
      ConsIncreasing(socks[0], rest);
      [socks[0]] + rest
  }

  lemma ConsIncreasing(a: int, rest: seq<int>)
    ensures Increasing(rest) && (forall x :: x in rest ==> a < x) ==> Increasing([a] + rest)
  {
    if Increasing(rest) && (forall x :: x in rest ==> a < x) {
      var r := [a] + rest;
      forall i, j | 0 <= i < j < |r|
        ensures r[i] < r[j]
      {
        assert r[j] == rest[j - 1] && rest[j - 1] in rest;
        if i > 0 {
          assert r[i] == rest[i - 1];
        }
      }
    }
  }

  lemma HeadBelowRest(socks: seq<int>)
    requires |socks| > 0
    ensures Increasing(socks) ==> forall x :: x in socks[1..] ==> socks[0] < x
  {
    if Increasing(socks) {
      forall x | x in socks[1..]
        ensures socks[0] < x
      {
        var j :| 0 <= j < |socks[1..]| && socks[1..][j] == x;
        assert socks[j + 1] == x;
      }
    }
  }

  /**
   The sockets a HELO reply lists for sender `self`: the sender first, then
   every other registered socket in ascending order. Every registered socket
   appears exactly once.
   */
  function HeloSockets(c: Clients, self: int): (r: seq<int>)
    requires self in c
    ensures |r| >= 1 && r[0] == self
    ensures forall x :: x in r <==> x in c
    ensures forall i, j :: 0 <= i < j < |r| ==> r[i] != r[j]
    ensures Increasing(r[1..])
    ensures |r| == |c|
  {
    var others := Without(AscendingSockets(c.Keys), self);
    OthersCount(c, self);
    SenderFirstIsDistinct(self, others);
    [self] + others
  }

  lemma SenderFirstIsDistinct(self: int, others: seq<int>)
    requires Increasing(others)
    requires self !in others
    ensures forall i, j :: 0 <= i < j < |[self] + others| ==> ([self] + others)[i] != ([self] + others)[j]
    ensures ([self] + others)[1..] == others
  {
    var r := [self] + others;
    assert r[1..] == others;
    forall i, j | 0 <= i < j < |r|
      ensures r[i] != r[j]
    {
      assert r[j] == others[j - 1];
      if i > 0 {
        assert r[i] == others[i - 1];
      }
    }
  }

  lemma OthersCount(c: Clients, self: int)
    requires self in c
    ensures |Without(AscendingSockets(c.Keys), self)| == |c| - 1
  {
    var all := AscendingSockets(c.Keys);
    var others := Without(all, self);
    DistinctCardinality(others);
    assert (set x | x in others) == c.Keys - {self};
  }

  lemma {:induction false} DistinctCardinality(r: seq<int>)
    requires Increasing(r)
    ensures |(set x | x in r)| == |r|
    decreases |r|
  {
    if |r| > 0 {
      DistinctCardinality(r[1..]);
      assert (set x | x in r) == {r[0]} + (set x | x in r[1..]);
      assert r[0] !in (set x | x in r[1..]);
    }
  }

  predicate AllIn(socks: seq<int>, c: Clients) {
    forall x :: x in socks ==> x in c
  }

  /** One listing entry: `sock,ip,port`. */
  function Entry(c: Clients, sock: int): string
    requires sock in c
  {
    IntToString(sock) + "," + c[sock].ip + "," + NatToString(c[sock].port)
  }

  /** `;sock,ip,port` for each socket of `socks`, in order. */
  function Listing(c: Clients, socks: seq<int>): string
    requires AllIn(socks, c)
  {
    if |socks| == 0 then "" else ";" + Entry(c, socks[0]) + Listing(c, socks[1..])
  }

  /** The HELO loop over all clients in map order, skipping the sender. */
  function PeerEntries(c: Clients, socks: seq<int>, self: int): string
    requires AllIn(socks, c)
  {
    if |socks| == 0 then ""
    else (if socks[0] != self then ";" + Entry(c, socks[0]) else "") + PeerEntries(c, socks[1..], self)
  }

  /** The fixed head of a HELO reply: `SERVERS,` followed by the `A5 ` self tag. */
  const HeloTag: string := "SERVERS,A5 "

  /** The HELO reply text for a registered sender. */
  function HeloReply(c: Clients, self: int): string
    requires self in c
  {
    HeloTag + Entry(c, self) + PeerEntries(c, AscendingSockets(c.Keys), self)
  }

  lemma {:induction false} PeerEntriesSkipsSelf(c: Clients, socks: seq<int>, self: int)
    requires AllIn(socks, c)
    ensures PeerEntries(c, socks, self) == Listing(c, Without(socks, self))
    decreases |socks|
  {
    if |socks| > 0 {
      PeerEntriesSkipsSelf(c, socks[1..], self);
      if socks[0] != self {
        var rest := Without(socks[1..], self);
        assert Without(socks, self) == [socks[0]] + rest;
        assert ([socks[0]] + rest)[1..] == rest;
      }
    }
  }

  /**
   The HELO reply is the tag `SERVERS,A5 ` followed by the entry of every
   socket of `HeloSockets`: the sender's entry first, then `;`-separated
   entries of all the other clients in ascending socket order.
   */
  lemma HeloReplyListsEveryClientOnce(c: Clients, self: int)
    requires self in c
    ensures HeloReply(c, self)
         == HeloTag + Entry(c, HeloSockets(c, self)[0]) + Listing(c, HeloSockets(c, self)[1..])
  {
    var all := AscendingSockets(c.Keys);
    var hs := HeloSockets(c, self);
    assert hs == [self] + Without(all, self);
    assert hs[1..] == Without(all, self);
    PeerEntriesSkipsSelf(c, all, self);
  }
}
