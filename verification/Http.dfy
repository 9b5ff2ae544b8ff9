/**
 * httpGetRequest of http.cpp: build the request text, resolve the host, open
 * a TCP socket, set its receive timeout, connect to port 80, send the request,
 * receive into a 1024-byte buffer and close the socket through the single
 * `cleanup` exit.
 *
 * The SimpleLink calls are an oracle: a Replies value says what each call
 * returns on one run, and the Transport object records every call made, the
 * socket's state and how often it was closed.  Which calls are made, in which
 * order, and what the request returns are stated by the functions Protocol
 * and Outcome, and the lemmas below prove the lifecycle properties on them.
 */
module Http {
  import opened CArith

  /** Receive timeout, in seconds. */
  const TIMEOUT: int := 45
  /** Size of `receive_msg_buffer`. */
  const RECEIVE_BUFFER_SIZE: int := 1024
  const HTTP_PORT: int := 80

  datatype Option<T> = None | Some(value: T)

  // ---------------------------------------------------------------- request text

  /** The request: request line and Host header, each ended by a bare line feed, then an empty line. */
  function BuildRequest(host: string, path: string): (request: string)
    ensures |request| == |path| + |host| + 22
  {
    var headPost := "GET " + path + " HTTP/1.1";
    var headHost := "Host: " + host;
    headPost + "\n" + headHost + "\n\n"
  }

  /**
   * Where the parts sit in the request text.  Lines end in a bare line feed, not
   * the carriage return and line feed of RFC 9112 (section 2.2): the request has
   * a carriage return only if the host or path brings one.
   */
  lemma RequestLayout(host: string, path: string)
    ensures var request := BuildRequest(host, path);
      && request[..4] == "GET " && request[4..4 + |path|] == path
      && request[4 + |path|..20 + |path|] == " HTTP/1.1\nHost: "
      && request[20 + |path|..20 + |path| + |host|] == host
      && request[|request| - 2..] == "\n\n"
      && ('\r' in request <==> '\r' in host || '\r' in path)
  {
  }

  /** The first index at or after `from` holding `c`, or |s| if there is none. */
  function IndexOf(s: string, c: char, from: nat): (k: nat)
    requires from <= |s|
    ensures from <= k <= |s|
    ensures k < |s| ==> s[k] == c
    ensures forall j :: from <= j < k ==> s[j] != c
    decreases |s| - from
  {
    if from == |s| || s[from] == c then from else IndexOf(s, c, from + 1)
  }

  /** Reads (host, path) back from a text in the form BuildRequest writes; None for any other text. */
  function ParseRequest(request: string): Option<(string, string)>
  {
    if |request| < 22 || request[..4] != "GET " then None
    else
      var space := IndexOf(request, ' ', 4);
      if space + 18 > |request|
         || request[space..space + 16] != " HTTP/1.1\nHost: "
         || request[|request| - 2..] != "\n\n"
      then None
      else Some((request[space + 16..|request| - 2], request[4..space]))
  }

  /** A path without spaces (as request targets are) and any host are read back from the request. */
  lemma RequestRoundTrip(host: string, path: string)
    requires ' ' !in path
    ensures ParseRequest(BuildRequest(host, path)) == Some((host, path))
  {
    var request := BuildRequest(host, path);
    RequestLayout(host, path);
    var space := IndexOf(request, ' ', 4);
    assert request[4 + |path|] == ' ';
    assert forall j :: 4 <= j < 4 + |path| ==> request[j] == path[j - 4];
    assert space == 4 + |path|;
  }

  lemma ExampleRequest()
    ensures BuildRequest("example.com", "/x") == "GET /x HTTP/1.1\nHost: example.com\n\n"
  {
  }

  // ---------------------------------------------------------------- transport calls

  datatype SocketState = Unopened | Open | Closed

  datatype AddressFamily = Inet
  datatype SocketKind = Stream
  datatype TransportProtocol = Tcp

  datatype Address = Address(family: AddressFamily, port: int, ip: uint32)

  /** One SimpleLink call, with the arguments that matter to this request. */
  datatype Call =
    | ResolveHost(name: string)
    | OpenSocket(family: AddressFamily, kind: SocketKind, protocol: TransportProtocol)
    | SetReceiveTimeout(handle: int, seconds: int)
    | Connect(handle: int, peer: Address)
    | Send(handle: int, data: string)
    | Receive(handle: int, capacity: int)
    | Close(handle: int)

  /** What each call returns on one run: resolver status and address, socket handle, and the four step results. */
  datatype Replies = Replies(
    dns: int16, hostIp: uint32, socket: int16,
    setTimeout: int16, connect: int16, send: int16, recv: int16)

  /** The server address: port 80 of the resolved host. */
  function Peer(net: Replies): Address
  {
    Address(Inet, HTTP_PORT, net.hostIp)
  }

  /** The socket operations between open and close, in source order. */
  function Steps(handle: int, request: string, peer: Address): seq<Call>
  {
    [ SetReceiveTimeout(handle, TIMEOUT),
      Connect(handle, peer),
      Send(handle, request),
      Receive(handle, RECEIVE_BUFFER_SIZE) ]
  }

  function StepReplies(net: Replies): seq<int>
  {
    [net.setTimeout, net.connect, net.send, net.recv]
  }

  /** How many steps run when each stops the sequence on a negative result: through the first failure, or all. */
  function StepsRun(replies: seq<int>): (n: nat)
    ensures n <= |replies| && (replies != [] ==> n >= 1)
    ensures forall i :: 0 <= i < n - 1 ==> replies[i] >= 0
    ensures 0 < n < |replies| ==> replies[n - 1] < 0
  {
    if replies == [] then 0
    else if replies[0] < 0 then 1
    else 1 + StepsRun(replies[1..])
  }

  /** StepsRun is the only count its contract allows: k steps run when the first k - 1 succeed and the k-th is the last or fails. */
  lemma StepsRunAt(replies: seq<int>, k: int)
    requires 0 < k <= |replies|
    requires forall j :: 0 <= j < k - 1 ==> replies[j] >= 0
    requires k < |replies| ==> replies[k - 1] < 0
    ensures StepsRun(replies) == k
  {
  }

  /** Resolution and the socket both succeeded, so there is a socket to close. */
  predicate Opened(net: Replies)
  {
    net.dns >= 0 && net.socket >= 0
  }

  /**
   * Every call httpGetRequest makes, in order: the resolve always comes first,
   * the open follows exactly when the host resolved, and a close of the
   * handle ends the trace exactly when the socket was opened.
   */
  function Protocol(host: string, path: string, net: Replies): (calls: seq<Call>)
    ensures 1 <= |calls| <= 7 && calls[0] == ResolveHost(host)
    ensures |calls| >= 2 <==> net.dns >= 0
    ensures net.dns >= 0 ==> calls[1] == OpenSocket(Inet, Stream, Tcp)
    ensures calls[|calls| - 1].Close? <==> Opened(net)
  {
    var afterOpen := if net.socket < 0 then []
      else Steps(net.socket, BuildRequest(host, path), Peer(net))[..StepsRun(StepReplies(net))] + [Close(net.socket)];
    var afterResolve := if net.dns < 0 then [] else [OpenSocket(Inet, Stream, Tcp)] + afterOpen;
    [ResolveHost(host)] + afterResolve
  }

  /**
   * What httpGetRequest returns: the result of the last call whose result it
   * checked.  It is always one of the call results, and a non-negative outcome
   * means that every call succeeded and it is the received byte count.
   */
  function Outcome(net: Replies): (r: int)
    ensures r in [net.dns as int, net.socket as int] + StepReplies(net)
    ensures r >= 0 ==> Opened(net) && StepsRun(StepReplies(net)) == 4 && r == net.recv
  {
    if net.dns < 0 then net.dns
    else if net.socket < 0 then net.socket
    else StepReplies(net)[StepsRun(StepReplies(net)) - 1]
  }

  /** Number of Close calls in a call trace. */
  function CountCloses(calls: seq<Call>): nat
  {
    if calls == [] then 0
    else CountCloses(calls[..|calls| - 1]) + (if calls[|calls| - 1].Close? then 1 else 0)
  }

  lemma {:induction false} CountClosesAppend(a: seq<Call>, b: seq<Call>)
    ensures CountCloses(a + b) == CountCloses(a) + CountCloses(b)
    decreases |b|
  {
    if b == [] {
      assert a + b == a;
    } else {
      var front := b[..|b| - 1];
      assert (a + b)[..|a + b| - 1] == a + front;
      CountClosesAppend(a, front);
    }
  }

  lemma {:induction false} CountClosesNone(calls: seq<Call>)
    requires forall j :: 0 <= j < |calls| ==> !calls[j].Close?
    ensures CountCloses(calls) == 0
    decreases |calls|
  {
    if calls != [] {
      CountClosesNone(calls[..|calls| - 1]);
    }
  }

  /** The first negative entry of s, or `otherwise` when there is none. */
  function FirstFailure(s: seq<int>, otherwise: int): int
  {
    if s == [] then otherwise
    else if s[0] < 0 then s[0]
    else FirstFailure(s[1..], otherwise)
  }

  lemma {:induction false} StepsRunFindsFirstFailure(s: seq<int>)
    requires s != []
    ensures s[StepsRun(s) - 1] == FirstFailure(s, s[|s| - 1])
  {
    if s[0] >= 0 && |s| > 1 {
      StepsRunFindsFirstFailure(s[1..]);
    }
  }

  /**
   * The request returns the first negative result among resolution, open and
   * the four steps, in that order; when none fails, the byte count received.
   */
  lemma OutcomeIsFirstFailure(net: Replies)
    ensures Outcome(net) == FirstFailure([net.dns as int, net.socket as int] + StepReplies(net), net.recv)
    ensures Outcome(net) < 0 <==> net.dns < 0 || net.socket < 0 || exists i :: 0 <= i < 4 && StepReplies(net)[i] < 0
  {
    var all := [net.dns as int, net.socket as int] + StepReplies(net);
    assert all[1..][1..] == StepReplies(net);
    if Opened(net) {
      StepsRunFindsFirstFailure(StepReplies(net));
    }
  }

  /** An opened socket's trace: resolution, open, the steps run, then one close. */
  lemma ClosedOnceWhenOpened(host: string, path: string, net: Replies)
    requires Opened(net)
    ensures CountCloses(Protocol(host, path, net)) == 1
    ensures Protocol(host, path, net)[|Protocol(host, path, net)| - 1] == Close(net.socket)
  {
    var full := Steps(net.socket, BuildRequest(host, path), Peer(net));
    var front := [ResolveHost(host), OpenSocket(Inet, Stream, Tcp)] + full[..StepsRun(StepReplies(net))];
    assert forall j :: 2 <= j < |front| ==> front[j] == full[j - 2];
    CountClosesNone(front);
    assert Protocol(host, path, net) == front + [Close(net.socket)];
    CountClosesAppend(front, [Close(net.socket)]);
    assert [Close(net.socket)][..0] == [];
  }

  /** The socket is closed exactly once, as the last call, if it was opened; otherwise never. */
  lemma CloseExactlyOnce(host: string, path: string, net: Replies)
    ensures CountCloses(Protocol(host, path, net)) == if Opened(net) then 1 else 0
    ensures Opened(net) ==> Protocol(host, path, net)[|Protocol(host, path, net)| - 1] == Close(net.socket)
  {
    var calls := Protocol(host, path, net);
    if Opened(net) {
      ClosedOnceWhenOpened(host, path, net);
    } else if net.dns < 0 {
      assert calls[..0] == [];
    } else {
      assert calls == [ResolveHost(host), OpenSocket(Inet, Stream, Tcp)];
      assert calls[..1] == [ResolveHost(host)] && calls[..1][..0] == [];
      assert CountCloses(calls) == CountCloses(calls[..1]) == CountCloses(calls[..1][..0]);
    }
  }

  /**
   * A step is made exactly when resolution, open and every earlier step
   * succeeded: a failure stops the request at the failing call.
   */
  lemma StepRunsIffEarlierSucceeded(host: string, path: string, net: Replies, i: int)
    requires 0 <= i < 4
    ensures Steps(net.socket, BuildRequest(host, path), Peer(net))[i] in Protocol(host, path, net)
        <==> Opened(net) && forall j :: 0 <= j < i ==> StepReplies(net)[j] >= 0
  {
    var steps := Steps(net.socket, BuildRequest(host, path), Peer(net));
    var calls := Protocol(host, path, net);
    var replies := StepReplies(net);
    if Opened(net) {
      var n := StepsRun(replies);
      assert calls == [ResolveHost(host), OpenSocket(Inet, Stream, Tcp)] + steps[..n] + [Close(net.socket)];
      if steps[i] in calls {
        var k :| 0 <= k < |calls| && calls[k] == steps[i];
        assert 2 <= k < 2 + n;
        assert steps[k - 2] == steps[i];
        assert k - 2 == i;
      }
      if forall j :: 0 <= j < i ==> replies[j] >= 0 {
        assert i < n;
        assert calls[2 + i] == steps[i];
      }
    } else if net.dns < 0 {
      assert calls == [ResolveHost(host)];
    } else {
      assert calls == [ResolveHost(host), OpenSocket(Inet, Stream, Tcp)];
    }
  }

  /** Resolution failing ends the request at once: no socket, no close, the resolver's code returned. */
  lemma DnsFailureOpensNothing(host: string, path: string, net: Replies)
    requires net.dns < 0
    ensures Protocol(host, path, net) == [ResolveHost(host)] && Outcome(net) == net.dns
  {
  }

  /**
   * When every call succeeds the request connects to port 80 of the resolved
   * address, sends the built request, receives into the 1024-byte buffer and
   * returns the byte count received.
   */
  lemma SuccessfulRequest(host: string, path: string, net: Replies)
    requires Opened(net) && net.setTimeout >= 0 && net.connect >= 0 && net.send >= 0 && net.recv >= 0
    ensures Protocol(host, path, net) == [
      ResolveHost(host), OpenSocket(Inet, Stream, Tcp),
      SetReceiveTimeout(net.socket, TIMEOUT),
      Connect(net.socket, Peer(net)),
      Send(net.socket, BuildRequest(host, path)),
      Receive(net.socket, RECEIVE_BUFFER_SIZE),
      Close(net.socket)]
    ensures Outcome(net) == net.recv
  {
    assert StepsRun(StepReplies(net)) == 4;
  }

  // ---------------------------------------------------------------- the open-failure test as written

  /** `socket_handle = sl_Socket(...)` as written: the signed reply stored in a `uint16_t`. */
  function StoredHandleAsWritten(reply: int16): (handle: uint16)
    ensures reply >= 0 ==> handle == reply
    ensures reply < 0 ==> handle == reply + 0x1_0000
  {
    reply % 0x1_0000
  }

  /** The calls made as written: the open-failure test never fires, so the steps and the close always follow the open. */
  function ProtocolAsWritten(host: string, path: string, net: Replies): (calls: seq<Call>)
    ensures |calls| >= 1 && calls[0] == ResolveHost(host)
    ensures net.dns >= 0 ==> |calls| >= 3 && calls[1] == OpenSocket(Inet, Stream, Tcp)
    ensures net.dns >= 0 <==> calls[|calls| - 1] == Close(StoredHandleAsWritten(net.socket))
  {
    var handle := StoredHandleAsWritten(net.socket);
    [ResolveHost(host)]
    + (if net.dns < 0 then []
       else [OpenSocket(Inet, Stream, Tcp)] + Steps(handle, BuildRequest(host, path), Peer(net))[..StepsRun(StepReplies(net))] + [Close(handle)])
  }

  /**
   * As written, a failed open is not caught: with sl_Socket returning -1 the
   * request configures, connects, sends and receives on handle 65535 and then
   * closes it, although no socket was opened (a close that
   * Transport.CloseSocket's precondition rules out).
   */
  lemma OpenFailureUndetectedAsWritten(host: string, path: string, net: Replies)
    requires net.dns >= 0 && net.socket == -1
    requires net.setTimeout >= 0 && net.connect >= 0 && net.send >= 0 && net.recv >= 0
    ensures !(StoredHandleAsWritten(net.socket) < 0)
    ensures CountCloses(ProtocolAsWritten(host, path, net)) == 1
    ensures ProtocolAsWritten(host, path, net)[|ProtocolAsWritten(host, path, net)| - 1] == Close(65535)
    ensures ProtocolAsWritten(host, path, net) != Protocol(host, path, net)
  {
    var calls := ProtocolAsWritten(host, path, net);
    assert StepsRun(StepReplies(net)) == 4;
    var front := [ResolveHost(host), OpenSocket(Inet, Stream, Tcp)] + Steps(65535, BuildRequest(host, path), Peer(net));
    assert calls == front + [Close(65535)];
    CountClosesAppend(front, [Close(65535)]);
    CountClosesNone(front);
    assert Protocol(host, path, net) == [ResolveHost(host), OpenSocket(Inet, Stream, Tcp)];
  }

  /**
   * The same for every failed open and every step result: as written, the
   * request closes the handle `reply + 65536` exactly once, as its last call,
   * where the intended request closes nothing.
   */
  lemma FailedOpenClosedAsWritten(host: string, path: string, net: Replies)
    requires net.dns >= 0 && net.socket < 0
    ensures CountCloses(ProtocolAsWritten(host, path, net)) == 1
    ensures ProtocolAsWritten(host, path, net)[|ProtocolAsWritten(host, path, net)| - 1] == Close(net.socket as int + 0x1_0000)
    ensures CountCloses(Protocol(host, path, net)) == 0
  {
    var handle := StoredHandleAsWritten(net.socket);
    var calls := ProtocolAsWritten(host, path, net);
    var run := Steps(handle, BuildRequest(host, path), Peer(net))[..StepsRun(StepReplies(net))];
    var front := [ResolveHost(host), OpenSocket(Inet, Stream, Tcp)] + run;
    assert calls == front + [Close(handle)];
    assert forall j :: 0 <= j < |front| ==> !front[j].Close?;
    CountClosesAppend(front, [Close(handle)]);
    CountClosesNone(front);
    OpenFailureClosesNothing(host, path, net);
  }

  /**
   * What httpGetRequest returns as written: after a successful resolve the
   * open result is never returned, only the result of the last step run.
   */
  function OutcomeAsWritten(net: Replies): (r: int)
    ensures net.dns < 0 ==> r == net.dns
    ensures net.dns >= 0 ==> r in StepReplies(net)
  {
    if net.dns < 0 then net.dns
    else StepReplies(net)[StepsRun(StepReplies(net)) - 1]
  }

  /**
   * As written, a failed open followed by successful steps reports success:
   * the caller gets the received byte count, where the intended request
   * returns the open's negative code.
   */
  lemma FailedOpenReportsSuccessAsWritten(net: Replies)
    requires net.dns >= 0 && net.socket < 0
    requires net.setTimeout >= 0 && net.connect >= 0 && net.send >= 0 && net.recv >= 0
    ensures OutcomeAsWritten(net) == net.recv >= 0
    ensures Outcome(net) == net.socket < 0
  {
    assert StepsRun(StepReplies(net)) == 4;
  }

  /** When the open succeeds, the request as written and the corrected one make the same calls and return the same result. */
  lemma AsWrittenAgreesWhenOpened(host: string, path: string, net: Replies)
    requires net.socket >= 0
    ensures ProtocolAsWritten(host, path, net) == Protocol(host, path, net)
    ensures OutcomeAsWritten(net) == Outcome(net)
  {
  }

  /** With the handle kept signed, a failed open returns its code at once and closes nothing. */
  lemma OpenFailureClosesNothing(host: string, path: string, net: Replies)
    requires net.dns >= 0 && net.socket < 0
    ensures Protocol(host, path, net) == [ResolveHost(host), OpenSocket(Inet, Stream, Tcp)]
    ensures Outcome(net) == net.socket
    ensures CountCloses(Protocol(host, path, net)) == 0
  {
    CloseExactlyOnce(host, path, net);
  }

  // ---------------------------------------------------------------- the request as a state machine

  class Transport {
    var state: SocketState
    var closes: nat
    /** Every SimpleLink call made so far, in order. */
    var calls: seq<Call>

    constructor ()
      ensures state == Unopened && closes == 0 && calls == []
    {
      state, closes, calls := Unopened, 0, [];
    }

    /** `sl_NetAppDnsGetHostByName`: recorded; no socket is involved. */
    method Resolve(host: string, reply: int16) returns (result: int)
      modifies this`calls
      ensures result == reply && calls == old(calls) + [ResolveHost(host)]
    {
      calls := calls + [ResolveHost(host)];
      result := reply;
    }

    /** `sl_Socket`: a non-negative reply is the handle of a newly open socket. */
    method CreateSocket(reply: int16) returns (handle: int16)
      requires state == Unopened
      modifies this`state, this`calls
      ensures handle == reply && calls == old(calls) + [OpenSocket(Inet, Stream, Tcp)]
      ensures state == if reply >= 0 then Open else Unopened
    {
      calls := calls + [OpenSocket(Inet, Stream, Tcp)];
      handle := reply;
      if reply >= 0 {
        state := Open;
      }
    }

    /** A call on the open socket (set option, connect, send, receive): recorded, its reply returned. */
    method Issue(c: Call, reply: int16) returns (result: int)
      requires state == Open
      modifies this`calls
      ensures result == reply && calls == old(calls) + [c]
    {
      calls := calls + [c];
      result := reply;
    }

    /** `sl_Close`: allowed only on the open socket, which it closes. */
    method CloseSocket(handle: int)
      requires state == Open
      modifies this
      ensures state == Closed && closes == old(closes) + 1 && calls == old(calls) + [Close(handle)]
    {
      calls := calls + [Close(handle)];
      state := Closed;
      closes := closes + 1;
    }

    /**
     * Lines 47-83 of httpGetRequest, on the open socket: set the receive
     * timeout, connect, send and receive, each stopping the exchange on a
     * negative result.  The labelled block stands for the source's
     * `goto cleanup`: every exit from it reaches the one close.
     */
    method ExchangeAndClose(socketHandle: int16, request: string, peer: Address, net: Replies)
      returns (success: int)
      requires state == Open
      modifies this
      ensures success == StepReplies(net)[StepsRun(StepReplies(net)) - 1]
      ensures calls == old(calls) + Steps(socketHandle, request, peer)[..StepsRun(StepReplies(net))] + [Close(socketHandle)]
      ensures state == Closed && closes == old(closes) + 1
    {
      ghost var steps := Steps(socketHandle, request, peer);
      ghost var made := 0;
      label cleanup: {
        success := Issue(SetReceiveTimeout(socketHandle, TIMEOUT), net.setTimeout);
        made := 1;
        if success < 0 {
          break cleanup;
        }
        success := Issue(Connect(socketHandle, peer), net.connect);
        made := 2;
        if success < 0 {
          break cleanup;
        }
        success := Issue(Send(socketHandle, request), net.send);
        made := 3;
        if success < 0 {
          break cleanup;
        }
        success := Issue(Receive(socketHandle, RECEIVE_BUFFER_SIZE), net.recv);
        made := 4;
        if success < 0 {
          break cleanup;
        }
      }
      StepsRunAt(StepReplies(net), made);
      assert calls == old(calls) + steps[..made];
      CloseSocket(socketHandle);
    }

    /**
     * httpGetRequest on a fresh transport: resolve, open, exchange, close.
     * The open-failure test uses the reply as a signed value; see
     * ProtocolAsWritten and FailedOpenClosedAsWritten for the test as written.
     */
    method HttpGetRequest(host: string, path: string, net: Replies) returns (success: int)
      requires state == Unopened && closes == 0 && calls == []
      modifies this
      ensures success == Outcome(net)
      ensures calls == Protocol(host, path, net)
      ensures closes == (if Opened(net) then 1 else 0)
      ensures state == (if Opened(net) then Closed else Unopened)
    {
      var request := BuildRequest(host, path);
      success := Resolve(host, net.dns);
      if success < 0 {
        DnsFailureOpensNothing(host, path, net);
        return;
      }
      var peer := Address(Inet, HTTP_PORT, net.hostIp);
      var socketHandle := CreateSocket(net.socket);
      if socketHandle < 0 {
        OpenFailureClosesNothing(host, path, net);
        return socketHandle;
      }
      success := ExchangeAndClose(socketHandle, request, peer, net);
    }
  }
}
