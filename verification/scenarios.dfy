/**
 Properties of the chat server that span several commands or follow a
 buffer from the wire through tokenising and dispatch.
 */
module Scenarios {
  import opened Tokenizer
  import opened Mailbox
  import opened Registry
  import opened Dispatcher

  /** A buffer without NUL is read in full. */
  lemma CStringOfNoNul(s: string)
    requires NoNul(s)
    ensures CString(s) == s
  {
  }

  /**
   Post then fetch: after `SENDMSG to from words...` from one client, a
   `GETMSGS to` from any client receives exactly that message, and a second
   `GETMSGS to` receives nothing.
   */
  lemma SendThenGetDeliversOnce(st: State, a: int, b: int, to: string, from: string, words: seq<string>)
    requires a in st.clients && b in st.clients
    requires IsWord(to) && IsWord(from) && AllWords(words) && |words| >= 1
    requires Queue(st.store, to) == []
    requires |SendMsgCommand(to, from, JoinSpaced(words))| <= MaxCommandLength
    ensures
      var o1 := Dispatch(st, a, Tokenize(JoinSpaced(["SENDMSG", to, from] + words)));
      var o2 := Dispatch(o1.state, b, Tokenize(JoinSpaced(["GETMSGS", to])));
      var o3 := Dispatch(o2.state, b, Tokenize(JoinSpaced(["GETMSGS", to])));
      && o1.replies == []
      && o2.replies == ["From " + from + ": " + JoinSpaced(words)]
      && o3.replies == []
  {
    var send := ["SENDMSG", to, from] + words;
    var get := ["GETMSGS", to];
    assert IsWord("SENDMSG") && IsWord("GETMSGS");
    TokenizeJoinSpaced(send);
    TokenizeJoinSpaced(get);
    assert send[3..] == words;
    var o1 := Dispatch(st, a, send);
    assert Queue(o1.state.store, to) == [Message(from, JoinSpaced(words))];
    var o2 := Dispatch(o1.state, b, get);
    assert Queue(o2.state.store, to) == [];
  }

  lemma JoinCons(w: string, ts: seq<string>)
    requires |ts| >= 1
    ensures JoinSpaced([w] + ts) == w + " " + JoinSpaced(ts)
  {
    assert ([w] + ts)[1..] == ts;
  }

  /** The concrete SENDMSG buffer is its five tokens joined by single spaces. */
  lemma HelloWorldSendText()
    ensures JoinSpaced(["hello", "world"]) == "hello world"
    ensures JoinSpaced(["SENDMSG", "G2", "G1", "hello", "world"]) == "SENDMSG G2 G1 hello world"
  {
    JoinCons("hello", ["world"]);
    assert ["hello"] + ["world"] == ["hello", "world"];
    JoinCons("G1", ["hello", "world"]);
    assert ["G1"] + ["hello", "world"] == ["G1", "hello", "world"];
    JoinCons("G2", ["G1", "hello", "world"]);
    assert ["G2"] + ["G1", "hello", "world"] == ["G2", "G1", "hello", "world"];
    JoinCons("SENDMSG", ["G2", "G1", "hello", "world"]);
    assert ["SENDMSG"] + ["G2", "G1", "hello", "world"] == ["SENDMSG", "G2", "G1", "hello", "world"];
  }

  /**
   The scenario with concrete tokens: `SENDMSG G2 G1 hello world` from one
   client, then `GETMSGS G2` twice from another.
   */
  lemma HelloWorldDeliveredOnce(st: State, a: int, b: int)
    requires a in st.clients && b in st.clients
    requires Queue(st.store, "G2") == []
    ensures
      var o1 := Dispatch(st, a, ["SENDMSG", "G2", "G1", "hello", "world"]);
      var o2 := Dispatch(o1.state, b, ["GETMSGS", "G2"]);
      var o3 := Dispatch(o2.state, b, ["GETMSGS", "G2"]);
      o2.replies == ["From G1: hello world"] && o3.replies == []
  {
    HelloWorldSendText();
    var send := ["SENDMSG", "G2", "G1", "hello", "world"];
    assert send[3..] == ["hello", "world"];
    var o1 := Dispatch(st, a, send);
    assert Queue(o1.state.store, "G2") == [Message("G1", "hello world")];
    var o2 := Dispatch(o1.state, b, ["GETMSGS", "G2"]);
    assert o2 == GetMsgs(o1.state, "G2");
    assert |o2.replies| == 1;
    assert o2.replies[0] == "From " + "G1" + ": " + "hello world";
    assert "From " + "G1" + ": " + "hello world" == "From G1: hello world";
    assert o2.replies == ["From G1: hello world"];
    assert Queue(o2.state.store, "G2") == [];
    var o3 := Dispatch(o2.state, b, ["GETMSGS", "G2"]);
    assert |o3.replies| == 0;
  }

  /** Post then fetch from the wire: the same as `SendThenGetDeliversOnce`, starting from received buffers. */
  lemma SendThenGetFromBuffers(st: State, a: int, b: int, to: string, from: string, words: seq<string>,
                      sendBuf: string, getBuf: string)
    requires a in st.clients && b in st.clients
    requires IsWord(to) && IsWord(from) && AllWords(words) && |words| >= 1
    requires Queue(st.store, to) == []
    requires |SendMsgCommand(to, from, JoinSpaced(words))| <= MaxCommandLength
    requires CString(sendBuf) == JoinSpaced(["SENDMSG", to, from] + words)
    requires CString(getBuf) == JoinSpaced(["GETMSGS", to])
    ensures
      var o1 := HandleReceived(st, a, sendBuf);
      var o2 := HandleReceived(o1.state, b, getBuf);
      var o3 := HandleReceived(o2.state, b, getBuf);
      o2.replies == ["From " + from + ": " + JoinSpaced(words)] && o3.replies == []
  {
    SendThenGetDeliversOnce(st, a, b, to, from, words);
    TokenizeJoinSpaced(["GETMSGS", to]);
  }

  /**
   A command wrapped in the SOH (0x01) start byte is never recognised, since
   the server does not strip it: the state is unchanged and nothing is sent.
   */
  lemma FramedCommandIsIgnored(st: State, sock: int, buf: string)
    requires sock in st.clients
    requires |buf| >= 1 && buf[0] == 1 as char
    ensures HandleReceived(st, sock, buf) == NoEffect(st)
  {
    var s := CString(buf);
    assert |s| >= 1;
    FirstTokenStartsBuffer(s);
    var tokens := Tokenize(s);
    assert tokens[0][0] == 1 as char;
    assert !Recognized(tokens);
  }

  /** KEEPALIVE for `g` gives the same answer before and after a SENDMSG to another group. */
  lemma KeepAliveIgnoresOtherGroups(st: State, g: string, to: string, from: string, words: seq<string>)
    requires g != to
    ensures KeepAlive(SendMsg(st, to, from, words).state, g).replies == KeepAlive(st, g).replies
  {
    var st' := SendMsg(st, to, from, words).state;
    assert Queue(st'.store, g) == Queue(st.store, g);
    assert GetMessageCount(st'.store, g) == GetMessageCount(st.store, g);
  }

  /** `t` occurs in `s` starting at position `i`. */
  predicate OccursAt(s: string, t: string, i: int) {
    0 <= i <= |s| - |t| && s[i..i + |t|] == t
  }

  /** `t` occurs in `s` at some position. */
  ghost predicate Contains(s: string, t: string) {
    exists i :: OccursAt(s, t, i)
  }

  lemma ContainsInSuffix(p: string, s: string, t: string)
    requires Contains(s, t)
    ensures Contains(p + s, t)
  {
    var i :| OccursAt(s, t, i);
    assert (p + s)[|p| + i..|p| + i + |t|] == t;
    assert OccursAt(p + s, t, |p| + i);
  }

  /** Every listed socket contributes its `;sock,ip,port` entry to the listing text. */
  lemma {:induction false} ListingContainsEntry(c: Clients, socks: seq<int>, k: int)
    requires AllIn(socks, c)
    requires k in socks
    ensures Contains(Listing(c, socks), ";" + Entry(c, k))
    decreases |socks|
  {
    var head := ";" + Entry(c, socks[0]);
    var l := Listing(c, socks);
    assert l == head + Listing(c, socks[1..]);
    if socks[0] == k {
      assert l[0..|head|] == head;
      assert OccursAt(l, head, 0);
    } else {
      ListingContainsEntry(c, socks[1..], k);
      ContainsInSuffix(head, Listing(c, socks[1..]), ";" + Entry(c, k));
    }
  }

  /** A HELO from a registered client lists the `;sock,ip,port` entry of every other registered client. */
  lemma HeloListsEveryOther(st: State, self: int, sock: int)
    requires self in st.clients && sock in st.clients && sock != self
    ensures |Helo(st, self).replies| == 1
    ensures Contains(Helo(st, self).replies[0], ";" + Entry(st.clients, sock))
  {
    var c := st.clients;
    var hs := HeloSockets(c, self);
    assert sock in hs && hs[0] != sock;
    assert sock in hs[1..] by {
      var j :| 0 <= j < |hs| && hs[j] == sock;
      assert hs[1..][j - 1] == sock;
    }
    ListingContainsEntry(c, hs[1..], sock);
    ContainsInSuffix(HeloTag + Entry(c, hs[0]), Listing(c, hs[1..]), ";" + Entry(c, sock));
  }

  /**
   After another connection is accepted, a HELO from an already registered
   client lists the newcomer's socket, address and port.
   */
  lemma HeloListsNewConnection(st: State, self: int, sock: int, ip: string, port: Port)
    requires self in st.clients && sock != self
    ensures
      var c := Register(st.clients, sock, ip, port);
      var o := Helo(st.(clients := c), self);
      |o.replies| == 1 && Contains(o.replies[0], ";" + Entry(c, sock))
  {
    var c := Register(st.clients, sock, ip, port);
    HeloListsEveryOther(st.(clients := c), self, sock);
  }

  /**
   LEAVE as `clientCommand` runs it: the socket is to be closed, yet its
   registry entry stays, so a later HELO from any other client still lists
   the departed socket's address.
   */
  lemma LeaveStaysListed(st: State, gone: int, self: int)
    requires gone in st.clients && self in st.clients && gone != self
    ensures
      var o := Dispatch(st, gone, ["LEAVE"]);
      && o.closeRequested
      && gone in o.state.clients
      && |Helo(o.state, self).replies| == 1
      && Contains(Helo(o.state, self).replies[0], ";" + Entry(st.clients, gone))
  {
    var o := Dispatch(st, gone, ["LEAVE"]);
    assert o.state == st;
    HeloListsEveryOther(st, self, gone);
  }

  /**
   LEAVE with the registry entry erased: a later HELO from any remaining
   client lists exactly the clients still registered, which no longer
   include the departed socket.
   */
  lemma LeaveIsDelisted(st: State, gone: int, self: int, buf: string)
    requires gone in st.clients && self in st.clients && gone != self
    requires Tokenize(CString(buf)) != [] && Tokenize(CString(buf))[0] == "LEAVE"
    ensures
      var o := HandleReceived(st, gone, buf);
      && o.closeRequested
      && gone !in o.state.clients
      && self in o.state.clients
      && (forall x :: x in HeloSockets(o.state.clients, self) <==> x in st.clients && x != gone)
  {
  }
}
