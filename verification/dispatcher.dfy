/**
 The command dispatcher of the chat server (`clientCommand`): one received
 buffer is split into white-space separated tokens, and the first token with
 the token count selects one command, which reads and updates the mailbox
 store and the client registry and produces the replies sent back to the
 sender, in order.
 */
module Dispatcher {
  import opened Decimal
  import opened Tokenizer
  import opened Mailbox
  import opened Registry

  /** The server's process-wide state: the mailboxes and the client registry. */
  datatype State = State(store: Store, clients: Clients)

  /**
   The effect of one command: the new state, the reply strings sent to the
   sender (one `send` each, in order), and whether the sender's socket is to
   be closed.
   */
  datatype Outcome = Outcome(state: State, replies: seq<string>, closeRequested: bool)

  /** Longest `SENDMSG,to,from,body` text that is stored. */
  const MaxCommandLength: nat := 5000

  /** The reply to an oversized SENDMSG; its wording says 500 although the limit is 5000. */
  const OversizeError: string := "Error: Message exceeds the 500-byte limit."

  /** The state as it was, no reply, socket kept open. */
  function NoEffect(st: State): Outcome
  {
    Outcome(st, [], false)
  }

  /** The token lists `clientCommand` acts on; every other list falls to its final `else`. */
  predicate Recognized(tokens: seq<string>)
    requires |tokens| >= 1
  {
    || (tokens[0] == "CONNECT" && |tokens| == 2)
    || tokens[0] == "LEAVE"
    || (tokens[0] == "HELO" && |tokens| == 2)
    || (tokens[0] == "SENDMSG" && |tokens| >= 4)
    || (tokens[0] == "GETMSGS" && |tokens| == 2)
    || (tokens[0] == "KEEPALIVE" && |tokens| == 2)
  }

  /** CONNECT name: record the sender's name; nothing else changes and nothing is sent. */
  function Connect(st: State, sock: int, name: string): (o: Outcome)
    requires sock in st.clients
    ensures o.state.store == st.store
    ensures o.state.clients.Keys == st.clients.Keys
    ensures o.state.clients[sock] == st.clients[sock].(name := name)
    ensures forall k :: k in st.clients && k != sock ==> o.state.clients[k] == st.clients[k]
    ensures o.replies == [] && !o.closeRequested
  {
    Outcome(st.(clients := SetName(st.clients, sock, name)), [], false)
  }

  /**
   HELO: a registered sender gets one reply listing itself first and then
   every other client; an unregistered sender gets nothing. The state is
   never changed.
   */
  function Helo(st: State, sock: int): (o: Outcome)
    ensures o.state == st && !o.closeRequested
    ensures sock !in st.clients ==> o.replies == []
    ensures sock in st.clients ==>
              && |o.replies| == 1
              && o.replies[0] == HeloTag + Entry(st.clients, HeloSockets(st.clients, sock)[0])
                                 + Listing(st.clients, HeloSockets(st.clients, sock)[1..])
  {
    if sock in st.clients then
      HeloReplyListsEveryClientOnce(st.clients, sock);
      Outcome(st, [HeloReply(st.clients, sock)], false)
    else
      NoEffect(st)
  }

  /** The body loop of SENDMSG: every token followed by one space. */
  function AppendEachSpaced(ts: seq<string>): string
  {
    if |ts| == 0 then "" else AppendEachSpaced(ts[..|ts| - 1]) + ts[|ts| - 1] + " "
  }

  /** The SENDMSG body: the loop's text with its trailing space removed when there is one. */
  function MessageBody(ts: seq<string>): string
  {
    var m := AppendEachSpaced(ts);
    if |m| > 0 then m[..|m| - 1] else m
  }

  lemma {:induction false} JoinSpacedSnoc(ts: seq<string>)
    requires |ts| >= 2
    ensures JoinSpaced(ts) == JoinSpaced(ts[..|ts| - 1]) + " " + ts[|ts| - 1]
    decreases |ts|
  {
    if |ts| > 2 {
      JoinSpacedSnoc(ts[1..]);
      assert ts[1..][..|ts[1..]| - 1] == ts[..|ts| - 1][1..];
    }
  }

  lemma {:induction false} AppendEachSpacedIsJoin(ts: seq<string>)
    requires |ts| >= 1
    ensures AppendEachSpaced(ts) == JoinSpaced(ts) + " "
    decreases |ts|
  {
    if |ts| == 1 {
      assert ts[..0] == [];
    } else {
      AppendEachSpacedIsJoin(ts[..|ts| - 1]);
      JoinSpacedSnoc(ts);
    }
  }

  /** The loop-and-pop body is the tokens joined by single spaces, with no trailing space. */
  lemma MessageBodyIsJoin(ts: seq<string>)
    ensures MessageBody(ts) == JoinSpaced(ts)
  {
    if |ts| >= 1 {
      AppendEachSpacedIsJoin(ts);
      var m := AppendEachSpaced(ts);
      assert m[..|m| - 1] == JoinSpaced(ts);
    }
  }

  /** The command text whose length is checked against the limit. */
  function SendMsgCommand(to: string, from: string, body: string): string
  {
    "SENDMSG," + to + "," + from + "," + body
  }

  /**
   SENDMSG to from words...: the body is the words joined by single spaces.
   When `SENDMSG,to,from,body` is longer than the limit nothing is stored and
   the one reply is the error text; otherwise the message is appended to the
   queue of `to` and nothing is sent.
   */
  function SendMsg(st: State, to: string, from: string, words: seq<string>): (o: Outcome)
    ensures o.state.clients == st.clients && !o.closeRequested
    ensures |"SENDMSG," + to + "," + from + "," + JoinSpaced(words)| > MaxCommandLength ==>
              o.state == st && o.replies == [OversizeError]
    ensures |"SENDMSG," + to + "," + from + "," + JoinSpaced(words)| <= MaxCommandLength ==>
              && o.replies == []
              && o.state.store.Keys == st.store.Keys + {to}
              && Queue(o.state.store, to) == Queue(st.store, to) + [Message(from, JoinSpaced(words))]
              && forall g :: g != to ==> Queue(o.state.store, g) == Queue(st.store, g)
  {
    var body := MessageBody(words);
    MessageBodyIsJoin(words);
    if |SendMsgCommand(to, from, body)| > MaxCommandLength then
      Outcome(st, [OversizeError], false)
    else
      Outcome(st.(store := StoreMessage(st.store, to, from, body)), [], false)
  }

  /** The size test in terms of the words: 10 characters of fixed text, the ids, the words and one space between each two. */
  lemma SendMsgLength(to: string, from: string, words: seq<string>)
    requires |words| >= 1
    ensures |SendMsgCommand(to, from, JoinSpaced(words))|
         == 10 + |to| + |from| + TotalLength(words) + |words| - 1
  {
    JoinSpacedLength(words);
  }

  /**
   The checked `SENDMSG,to,from,body` text is never longer than the command
   text it was tokenised from: the commas stand where separating white space
   stood, and white-space runs only shrink to one space.
   */
  lemma SendMsgCommandNoLonger(s: string)
    requires |Tokenize(s)| >= 4 && Tokenize(s)[0] == "SENDMSG"
    ensures var t := Tokenize(s);
      |SendMsgCommand(t[1], t[2], JoinSpaced(t[3..]))| <= |s|
  {
    var t := Tokenize(s);
    JoinedTokensNoLonger(s);
    assert t[1..][1..][1..] == t[3..];
    assert JoinSpaced(t) == t[0] + " " + JoinSpaced(t[1..]);
    assert JoinSpaced(t[1..]) == t[1] + " " + JoinSpaced(t[1..][1..]);
    assert JoinSpaced(t[1..][1..]) == t[2] + " " + JoinSpaced(t[3..]);
  }

  /**
   A SENDMSG read from a buffer whose text, up to its first NUL, fits the
   limit is always stored: the oversize error needs more than 5000
   characters before the first NUL.
   */
  lemma ShortSendMsgIsStored(st: State, sock: int, buf: string)
    requires sock in st.clients
    requires |CString(buf)| <= MaxCommandLength
    requires |Tokenize(CString(buf))| >= 4 && Tokenize(CString(buf))[0] == "SENDMSG"
    ensures var t := Tokenize(CString(buf));
      && HandleReceived(st, sock, buf).replies == []
      && Queue(HandleReceived(st, sock, buf).state.store, t[1])
           == Queue(st.store, t[1]) + [Message(t[2], JoinSpaced(t[3..]))]
  {
    SendMsgCommandNoLonger(CString(buf));
  }

  /** One GETMSGS reply line. */
  function FormatMessage(m: Message): string
  {
    "From " + m.fromGroupID + ": " + m.content
  }

  function FormatAll(ms: seq<Message>): (r: seq<string>)
    ensures |r| == |ms|
    ensures forall i :: 0 <= i < |ms| ==> r[i] == FormatMessage(ms[i])
  {
    if |ms| == 0 then [] else [FormatMessage(ms[0])] + FormatAll(ms[1..])
  }

  /**
   GETMSGS g: one reply per message that was pending for `g`, in FIFO order;
   afterwards `g` has nothing pending and every other group is as it was.
   */
  function GetMsgs(st: State, g: string): (o: Outcome)
    ensures o.state.clients == st.clients && !o.closeRequested
    ensures |o.replies| == GetMessageCount(st.store, g)
    ensures forall i :: 0 <= i < |o.replies| ==>
              o.replies[i] == "From " + Queue(st.store, g)[i].fromGroupID + ": " + Queue(st.store, g)[i].content
    ensures Queue(o.state.store, g) == []
    ensures forall h :: h != g ==> Queue(o.state.store, h) == Queue(st.store, h)
    ensures o.state.store.Keys == st.store.Keys
  {
    var d := GetMessages(st.store, g);
    Outcome(st.(store := d.store), FormatAll(d.messages), false)
  }

  /** KEEPALIVE g: one reply `KEEPALIVE,<n>` where `n` is the number of messages pending for `g`; nothing changes. */
  function KeepAlive(st: State, g: string): (o: Outcome)
    ensures o.state == st && !o.closeRequested
    ensures |o.replies| == 1
    ensures |o.replies[0]| > 10 && o.replies[0][..10] == "KEEPALIVE,"
    ensures AllDigits(o.replies[0][10..]) && DigitsValue(o.replies[0][10..]) == |Queue(st.store, g)|
    ensures o.replies[0][10] == '0' ==> |o.replies[0]| == 11
  {
    var count := GetMessageCount(st.store, g);
    var reply := "KEEPALIVE," + NatToString(count);
    NatToStringRoundTrip(count);
    assert reply[10..] == NatToString(count);
    Outcome(st, [reply], false)
  }

  /**
   `clientCommand` after tokenising: the first matching branch runs. LEAVE
   only asks for the socket to be closed. Its registry entry is never erased:
   the closed socket is taken out of the `select` set, so the event loop never
   sees the zero-length read after which it erases an entry.
   */
  function Dispatch(st: State, sock: int, tokens: seq<string>): (o: Outcome)
    requires |tokens| >= 1
    requires tokens[0] == "CONNECT" && |tokens| == 2 ==> sock in st.clients
    ensures o.closeRequested <==> tokens[0] == "LEAVE"
    ensures !Recognized(tokens) ==> o == NoEffect(st)
    ensures o.state.clients.Keys == st.clients.Keys
    ensures forall k :: k in st.clients && k != sock ==> o.state.clients[k] == st.clients[k]
    ensures o.state.clients != st.clients ==> tokens[0] == "CONNECT" && |tokens| == 2
    ensures o.state.store != st.store ==>
              (tokens[0] == "SENDMSG" && |tokens| >= 4) || (tokens[0] == "GETMSGS" && |tokens| == 2)
    ensures |o.replies| > 1 ==> tokens[0] == "GETMSGS" && |tokens| == 2
    ensures tokens[0] == "LEAVE" ==> o.state == st && o.replies == []
    ensures tokens[0] == "CONNECT" && |tokens| == 2 ==> o == Connect(st, sock, tokens[1])
    ensures tokens[0] == "HELO" && |tokens| == 2 ==> o == Helo(st, sock)
    ensures tokens[0] == "SENDMSG" && |tokens| >= 4 ==> o == SendMsg(st, tokens[1], tokens[2], tokens[3..])
    ensures tokens[0] == "GETMSGS" && |tokens| == 2 ==> o == GetMsgs(st, tokens[1])
    ensures tokens[0] == "KEEPALIVE" && |tokens| == 2 ==> o == KeepAlive(st, tokens[1])
  {
    var cmd := tokens[0];
    if cmd == "CONNECT" && |tokens| == 2 then Connect(st, sock, tokens[1])
    else if cmd == "LEAVE" then Outcome(st, [], true)
    else if cmd == "HELO" && |tokens| == 2 then Helo(st, sock)
    else if cmd == "SENDMSG" && |tokens| >= 4 then SendMsg(st, tokens[1], tokens[2], tokens[3..])
    else if cmd == "GETMSGS" && |tokens| == 2 then GetMsgs(st, tokens[1])
    else if cmd == "KEEPALIVE" && |tokens| == 2 then KeepAlive(st, tokens[1])
    else NoEffect(st)
  }

  /**
   A received buffer handled end to end: read it as a C string, tokenise it
   and dispatch. Two cases differ from the source. A buffer with no token at
   all is dropped like an unknown command, where the source reads the first
   token unguarded. LEAVE also erases the sender's registry entry, where the
   source leaves it in place for good.
   */
  function HandleReceived(st: State, sock: int, buf: string): (o: Outcome)
    requires sock in st.clients
    ensures Tokenize(CString(buf)) == [] ==> o == NoEffect(st)
    ensures Tokenize(CString(buf)) != [] && Tokenize(CString(buf))[0] != "LEAVE" ==>
              o == Dispatch(st, sock, Tokenize(CString(buf)))
    ensures Tokenize(CString(buf)) != [] && Tokenize(CString(buf))[0] == "LEAVE" ==>
              && o.closeRequested && o.replies == [] && o.state.store == st.store
              && o.state.clients == Unregister(st.clients, sock)
    ensures o.state.clients.Keys == if o.closeRequested then st.clients.Keys - {sock} else st.clients.Keys
  {
    var tokens := Tokenize(CString(buf));
    if |tokens| == 0 then NoEffect(st)
    else
      var o := Dispatch(st, sock, tokens);
      if o.closeRequested then o.(state := o.state.(clients := Unregister(o.state.clients, sock))) else o
  }

  /** A buffer holding only white space before its first NUL has no token for `tokens[0]` to read. */
  lemma BlankBufferHasNoCommand(buf: string)
    requires forall i :: 0 <= i < |CString(buf)| ==> IsSpace(CString(buf)[i])
    ensures Tokenize(CString(buf)) == []
  {
    BlankHasNoToken(CString(buf));
  }

  /**
   Concrete buffers that reach the unguarded `tokens[0]`: an empty C string
   (a payload whose first byte is NUL, or a failed `recv` while the shared
   buffer is still as zeroed at the start of the `select` cycle), a bare
   newline, and NUL bytes only.
   */
  lemma EmptyAndNewlineHaveNoCommand()
    ensures Tokenize(CString("")) == []
    ensures Tokenize(CString("\n")) == []
    ensures Tokenize(CString("\0\0\0")) == []
  {
    BlankBufferHasNoCommand("\n");
  }
}
