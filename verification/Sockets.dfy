/** Stream sockets, and the send-all and receive-all loops of Util/libc/socket.c. */
module Sockets {
  import opened Options
  import opened Sequences

  /**
   * One end of a TCP connection. A byte is modelled by the character with its code. `output`
   * is everything the kernel has accepted from this end, in order; `input` is what the peer
   * has sent and this end has not read yet. A call to send or recv may move any number of
   * bytes up to what is asked, or fail. On a `reliable` connection it moves at least one
   * byte whenever there is one to move. The results of all calls are recorded.
   */
  class Socket {
    const reliable: bool
    var output: string
    var input: string
    ghost var sendResults: seq<int>
    ghost var recvResults: seq<int>

    constructor (reliable: bool, input: string)
      ensures this.reliable == reliable && this.output == "" && this.input == input
      ensures sendResults == [] && recvResults == []
    {
      this.reliable := reliable;
      this.output := "";
      this.input := input;
      this.sendResults, this.recvResults := [], [];
    }

    method Send(buf: array<char>, off: nat, n: nat) returns (res: int)
      requires off + n <= buf.Length
      modifies this`output, this`sendResults
      ensures res <= n && sendResults == old(sendResults) + [res]
      ensures output == old(output) + if res > 0 then buf[off..off + res] else ""
      ensures reliable && n > 0 ==> res > 0
    {
      res := *;
      if res > n || (reliable && n > 0 && res <= 0) {
        res := n;
      }
      if res > 0 {
        output := output + buf[off..off + res];
      }
      sendResults := sendResults + [res];
    }

    method Recv(buf: array<char>, off: nat, n: nat) returns (res: int)
      requires off + n <= buf.Length
      modifies this`input, this`recvResults, buf
      ensures res <= n && res <= |old(input)| && recvResults == old(recvResults) + [res]
      ensures res > 0 ==> Received(buf[..], old(buf[..]), off, input, old(input), res)
      ensures res <= 0 ==> input == old(input) && buf[..] == old(buf[..])
      ensures reliable && n > 0 && old(input) != "" ==> res > 0
    {
      var limit := if n <= |input| then n else |input|;
      res := *;
      if res > limit || (reliable && limit > 0 && res <= 0) {
        res := limit;
      }
      Store(buf, off, res);
      recvResults := recvResults + [res];
    }

    /** A single call that waits for all n bytes, as recv does under MSG_WAITALL. */
    method RecvWaitAll(buf: array<char>, off: nat, n: nat) returns (res: int)
      requires off + n <= buf.Length
      modifies this`input, this`recvResults, buf
      ensures res <= n && res <= |old(input)| && recvResults == old(recvResults) + [res]
      ensures res > 0 ==> Received(buf[..], old(buf[..]), off, input, old(input), res)
      ensures res <= 0 ==> input == old(input) && buf[..] == old(buf[..])
      ensures n == 0 ==> res <= 0
      ensures reliable && n <= |old(input)| ==> res == n
    {
      var limit := if n <= |input| then n else |input|;
      res := *;
      if res > limit || (reliable && n <= |input|) {
        res := limit;
      }
      Store(buf, off, res);
      recvResults := recvResults + [res];
    }

    /** Move res bytes from the input into the buffer. */
    method Store(buf: array<char>, off: nat, res: int)
      requires res <= |input| && off + res <= buf.Length
      modifies this`input, buf
      ensures res > 0 ==> Received(buf[..], old(buf[..]), off, input, old(input), res)
      ensures res <= 0 ==> input == old(input) && buf[..] == old(buf[..])
    {
      if res > 0 {
        ghost var before := buf[..];
        forall k | 0 <= k < res {
          buf[off + k] := input[k];
        }
        assert buf[..] == before[..off] + input[..res] + before[off + res..];
        input := input[res..];
      }
    }
  }

  /** The effect of receiving k bytes at offset off: they move from the input to the buffer. */
  ghost predicate Received(buf: string, buf0: string, off: nat, input: string, input0: string, k: nat) {
    && k <= |input0| && off + k <= |buf0|
    && input == input0[k..]
    && buf == buf0[..off] + input0[..k] + buf0[off + k..]
  }

  // ----- The counting that both loops share -----

  /** A loop that wants total bytes: how many it has moved, and its return value after a failure. */
  datatype Loop = Loop(total: nat, count: nat, stopped: Option<int>)

  function Start(total: nat): Loop {
    Loop(total, 0, None)
  }

  /** What the loop has returned, if it has. */
  function Returned(l: Loop): Option<int> {
    if l.stopped.Some? then l.stopped else if l.count >= l.total then Some(l.total) else None
  }

  /** A running loop asks for what is missing, so a call moves at most that. */
  predicate CanCall(l: Loop, res: int) {
    Returned(l) == None && res <= l.total - l.count
  }

  function Advance(l: Loop, res: int): Loop
    requires CanCall(l, res)
  {
    if res > 0 then l.(count := l.count + res)
    else l.(stopped := Some(if l.count != 0 then l.count else res))
  }

  predicate Calls(l: Loop, results: seq<int>)
    decreases results
  {
    results != [] ==> CanCall(l, results[0]) && Calls(Advance(l, results[0]), results[1..])
  }

  function AfterCalls(l: Loop, results: seq<int>): Loop
    requires Calls(l, results)
    decreases results
  {
    if results == [] then l else AfterCalls(Advance(l, results[0]), results[1..])
  }

  /** The loop over n bytes returns r when its calls yield these results. */
  predicate LoopReturns(n: nat, results: seq<int>, r: int) {
    Calls(Start(n), results) && Returned(AfterCalls(Start(n), results)) == Some(r)
  }

  lemma {:induction false} OneMoreCall(l: Loop, results: seq<int>, res: int)
    requires Calls(l, results) && CanCall(AfterCalls(l, results), res)
    ensures Calls(l, results + [res])
    ensures AfterCalls(l, results + [res]) == Advance(AfterCalls(l, results), res)
    decreases results
  {
    if results == [] {
      assert results + [res] == [res] && [res][1..] == [];
    } else {
      assert (results + [res])[1..] == results[1..] + [res];
      OneMoreCall(Advance(l, results[0]), results[1..], res);
    }
  }

  /**
   * Send n bytes. A positive result k means that exactly the first k bytes entered the
   * stream, in order; otherwise none did.
   */
  method TcpSendAll(sock: Socket, buf: array<char>, n: nat) returns (r: int)
    requires n <= buf.Length
    modifies sock`output, sock`sendResults
    ensures r <= n && (n == 0 ==> r == 0)
    ensures sock.output == old(sock.output) + if r > 0 then buf[..r] else ""
    ensures sock.reliable ==> r == n
    ensures old(sock.sendResults) <= sock.sendResults
    ensures LoopReturns(n, sock.sendResults[|old(sock.sendResults)|..], r)
  {
    var wn := 0;
    ghost var before, results := sock.sendResults, [];
    while wn < n
      invariant 0 <= wn <= n
      invariant sock.sendResults == before + results
      invariant Calls(Start(n), results) && AfterCalls(Start(n), results) == Loop(n, wn, None)
      invariant sock.output == old(sock.output) + buf[..wn]
    {
      var res := sock.Send(buf, wn, n - wn);
      OneMoreCall(Start(n), results, res);
      results := results + [res];
      if res > 0 {
        assert buf[..wn] + buf[wn..wn + res] == buf[..wn + res];
        wn := wn + res;
      } else {
        r := if wn != 0 then wn else res;
        assert sock.sendResults[|before|..] == results;
        return;
      }
    }
    assert sock.sendResults[|before|..] == results;
    return n;
  }

  /**
   * Receive n bytes, either by one waiting call (platforms with MSG_WAITALL) or by a loop.
   * A positive result k means that the next k bytes of the stream are in the buffer.
   */
  method TcpRecvAll(sock: Socket, buf: array<char>, n: nat, hasWaitAll: bool) returns (r: int)
    requires n <= buf.Length
    modifies sock`input, sock`recvResults, buf
    ensures r <= n && r <= |old(sock.input)|
    ensures r > 0 ==> Received(buf[..], old(buf[..]), 0, sock.input, old(sock.input), r)
    ensures r <= 0 ==> sock.input == old(sock.input) && buf[..] == old(buf[..])
    ensures sock.reliable && n <= |old(sock.input)| ==> r == n
    ensures old(sock.recvResults) <= sock.recvResults
    ensures var results := sock.recvResults[|old(sock.recvResults)|..];
            if hasWaitAll then results == [r] else LoopReturns(n, results, r)
  {
    if hasWaitAll {
      r := sock.RecvWaitAll(buf, 0, n);
      return;
    }
    var rn := 0;
    ghost var in0, buf0 := sock.input, buf[..];
    ghost var before, results := sock.recvResults, [];
    ReceivedNothing(buf0, in0);
    while rn < n
      invariant 0 <= rn <= n
      invariant sock.recvResults == before + results
      invariant Calls(Start(n), results) && AfterCalls(Start(n), results) == Loop(n, rn, None)
      invariant Received(buf[..], buf0, 0, sock.input, in0, rn)
    {
      ghost var in1, buf1 := sock.input, buf[..];
      var res := sock.Recv(buf, rn, n - rn);
      OneMoreCall(Start(n), results, res);
      results := results + [res];
      if res > 0 {
        ReceivedTwice(buf0, buf1, buf[..], in0, in1, sock.input, rn, res);
        rn := rn + res;
      } else {
        if rn == 0 {
          ReceivedNothing(buf0, in0);
        }
        r := if rn != 0 then rn else res;
        assert sock.recvResults[|before|..] == results;
        return;
      }
    }
    assert sock.recvResults[|before|..] == results;
    return n;
  }

  lemma ReceivedNothing(buf: string, input: string)
    ensures forall buf', input' :: Received(buf', buf, 0, input', input, 0) <==> buf' == buf && input' == input
  {
    assert "" + "" + buf == buf;
  }

  lemma ReceivedTwice(buf0: string, buf1: string, buf2: string, in0: string, in1: string, in2: string, a: nat, b: nat)
    requires Received(buf1, buf0, 0, in1, in0, a)
    requires Received(buf2, buf1, a, in2, in1, b)
    ensures Received(buf2, buf0, 0, in2, in0, a + b)
  {
    assert in0[..a] + in0[a..][..b] == in0[..a + b];
    assert in0[a..][b..] == in0[a + b..];
    assert buf1[..a] == in0[..a];
    assert buf1[a + b..] == buf0[a + b..];
  }

  // ----- Both loops at once -----

  /**
   * A send-all loop and a receive-all loop running concurrently over one connection: the
   * sender's bytes and its loop, what is on the way, and the receiver's buffer and its loop.
   */
  datatype Transfer = Transfer(data: string, sender: Loop, onTheWay: string, buffer: string, receiver: Loop)

  function Begin(data: string, buffer: string, m: nat): Transfer {
    Transfer(data, Start(|data|), "", buffer, Start(m))
  }

  /** One call of send or recv with its result; a result that is not positive is a failure. */
  datatype Round = SendCall(res: int) | RecvCall(res: int)

  ghost predicate Possible(t: Transfer, r: Round) {
    match r
    case SendCall(res) => CanCall(t.sender, res)
    case RecvCall(res) => CanCall(t.receiver, res) && res <= |t.onTheWay|
  }

  /**
   * What holds after any rounds: the bytes received and those on the way are the first
   * bytes of the data, and the buffer is otherwise as it was.
   */
  ghost predicate Consistent(t: Transfer, data: string, buffer: string, m: nat) {
    && t.data == data && t.sender.total == |data| && t.sender.count <= |data|
    && t.receiver.total == m && t.receiver.count <= m <= |t.buffer|
    && |t.buffer| == |buffer|
    && t.buffer[..t.receiver.count] + t.onTheWay == data[..t.sender.count]
    && t.buffer[t.receiver.count..] == buffer[t.receiver.count..]
    && CountReturned(t.sender) && CountReturned(t.receiver)
  }

  /** A loop that has returned a positive number has moved that many bytes, otherwise none. */
  predicate CountReturned(l: Loop) {
    Returned(l).Some? ==> l.count == if Returned(l).value > 0 then Returned(l).value else 0
  }

  ghost function Do(t: Transfer, r: Round): Transfer
    requires Possible(t, r)
    requires t.sender.total == |t.data| && t.receiver.total <= |t.buffer|
  {
    match r
    case SendCall(res) =>
      var wn := t.sender.count;
      t.(sender := Advance(t.sender, res),
         onTheWay := t.onTheWay + if res > 0 then t.data[wn..wn + res] else "")
    case RecvCall(res) =>
      var rn := t.receiver.count;
      if res > 0 then
        t.(receiver := Advance(t.receiver, res),
           onTheWay := t.onTheWay[res..],
           buffer := t.buffer[..rn] + t.onTheWay[..res] + t.buffer[rn + res..])
      else t.(receiver := Advance(t.receiver, res))
  }

  lemma RoundStaysConsistent(t: Transfer, r: Round, data: string, buffer: string, m: nat)
    requires Consistent(t, data, buffer, m) && Possible(t, r)
    ensures Consistent(Do(t, r), data, buffer, m)
  {
    match r
    case SendCall(res) => SendStaysConsistent(t, res, data, buffer, m);
    case RecvCall(res) => RecvStaysConsistent(t, res, data, buffer, m);
  }

  lemma SendStaysConsistent(t: Transfer, res: int, data: string, buffer: string, m: nat)
    requires Consistent(t, data, buffer, m) && Possible(t, SendCall(res))
    ensures Consistent(Do(t, SendCall(res)), data, buffer, m)
  {
    var wn := t.sender.count;
    if res > 0 {
      assert data[..wn] + data[wn..wn + res] == data[..wn + res];
      Associate(t.buffer[..t.receiver.count], t.onTheWay, data[wn..wn + res]);
    } else {
      assert t.onTheWay + "" == t.onTheWay;
    }
  }

  lemma RecvStaysConsistent(t: Transfer, res: int, data: string, buffer: string, m: nat)
    requires Consistent(t, data, buffer, m) && Possible(t, RecvCall(res))
    ensures Consistent(Do(t, RecvCall(res)), data, buffer, m)
  {
    if res > 0 {
      var rn := t.receiver.count;
      ReceivingKeepsBytes(t.buffer, rn, t.onTheWay, res);
      assert t.buffer[rn + res..] == t.buffer[rn..][res..] == buffer[rn..][res..] == buffer[rn + res..];
    }
  }

  lemma ReceivingKeepsBytes(buffer: string, rn: nat, way: string, res: nat)
    requires rn + res <= |buffer| && res <= |way|
    ensures var b := buffer[..rn] + way[..res] + buffer[rn + res..];
            && |b| == |buffer| && b[rn + res..] == buffer[rn + res..]
            && b[..rn + res] + way[res..] == buffer[..rn] + way
  {
    var b := buffer[..rn] + way[..res] + buffer[rn + res..];
    assert b[..rn + res] == buffer[..rn] + way[..res];
    assert way == way[..res] + way[res..];
  }

  ghost predicate PossibleRun(t: Transfer, rs: seq<Round>)
    requires t.sender.total == |t.data| && t.receiver.total <= |t.buffer|
    decreases rs
  {
    rs != [] ==> Possible(t, rs[0]) && PossibleRun(Do(t, rs[0]), rs[1..])
  }

  ghost function Run(t: Transfer, rs: seq<Round>): Transfer
    requires t.sender.total == |t.data| && t.receiver.total <= |t.buffer|
    requires PossibleRun(t, rs)
    decreases rs
  {
    if rs == [] then t else Run(Do(t, rs[0]), rs[1..])
  }

  function SendResults(rs: seq<Round>): seq<int> {
    if rs == [] then []
    else if rs[0].SendCall? then [rs[0].res] + SendResults(rs[1..])
    else SendResults(rs[1..])
  }

  function RecvResults(rs: seq<Round>): seq<int> {
    if rs == [] then []
    else if rs[0].RecvCall? then [rs[0].res] + RecvResults(rs[1..])
    else RecvResults(rs[1..])
  }

  /** Every interleaving of the two loops, failing calls included, keeps the transfer consistent. */
  lemma {:induction false} InterleavingsAreConsistent(t: Transfer, rs: seq<Round>, data: string, buffer: string, m: nat)
    requires Consistent(t, data, buffer, m) && PossibleRun(t, rs)
    ensures Consistent(Run(t, rs), data, buffer, m)
    decreases rs
  {
    if rs != [] {
      RoundStaysConsistent(t, rs[0], data, buffer, m);
      InterleavingsAreConsistent(Do(t, rs[0]), rs[1..], data, buffer, m);
    }
  }

  /** In every interleaving each loop goes through exactly what the results of its own calls prescribe. */
  lemma {:induction false} LoopsRunOnTheirOwn(t: Transfer, rs: seq<Round>)
    requires t.sender.total == |t.data| && t.receiver.total <= |t.buffer| && PossibleRun(t, rs)
    ensures Calls(t.sender, SendResults(rs)) && Run(t, rs).sender == AfterCalls(t.sender, SendResults(rs))
    ensures Calls(t.receiver, RecvResults(rs)) && Run(t, rs).receiver == AfterCalls(t.receiver, RecvResults(rs))
    decreases rs
  {
    if rs != [] {
      LoopsRunOnTheirOwn(Do(t, rs[0]), rs[1..]);
      if rs[0].SendCall? {
        assert SendResults(rs)[1..] == SendResults(rs[1..]);
      } else {
        assert RecvResults(rs)[1..] == RecvResults(rs[1..]);
      }
    }
  }

  /**
   * A return value in an interleaving is exactly what send-all and receive-all return, by
   * their contracts, when their own calls yield these results.
   */
  lemma ReturnsOfInterleaving(data: string, buffer: string, m: nat, rs: seq<Round>, r: int)
    requires m <= |buffer| && PossibleRun(Begin(data, buffer, m), rs)
    ensures var e := Run(Begin(data, buffer, m), rs);
            && (Returned(e.sender) == Some(r) <==> LoopReturns(|data|, SendResults(rs), r))
            && (Returned(e.receiver) == Some(r) <==> LoopReturns(m, RecvResults(rs), r))
  {
    LoopsRunOnTheirOwn(Begin(data, buffer, m), rs);
  }

  /**
   * Whatever the rounds are, what the receiver has is a prefix of what the sender has sent,
   * nothing else in its buffer has changed, and the return values are the counts.
   */
  lemma ReceivedIsPrefixOfSent(data: string, buffer: string, m: nat, rs: seq<Round>)
    requires m <= |buffer| && PossibleRun(Begin(data, buffer, m), rs)
    ensures var e := Run(Begin(data, buffer, m), rs);
            var wn, rn := e.sender.count, e.receiver.count;
            && rn <= wn <= |data| && rn <= m <= |e.buffer|
            && e.buffer[..rn] == data[..wn][..rn] && e.buffer[rn..] == buffer[rn..]
            && CountReturned(e.sender) && CountReturned(e.receiver)
  {
    var t := Begin(data, buffer, m);
    BeginIsConsistent(data, buffer, m);
    InterleavingsAreConsistent(t, rs, data, buffer, m);
    var e := Run(t, rs);
    assert (e.buffer[..e.receiver.count] + e.onTheWay)[..e.receiver.count] == e.buffer[..e.receiver.count];
  }

  lemma BeginIsConsistent(data: string, buffer: string, m: nat)
    requires m <= |buffer|
    ensures Consistent(Begin(data, buffer, m), data, buffer, m)
  {
    assert buffer[..0] + "" == data[..0];
  }

  function Left(l: Loop): nat {
    (if l.count < l.total then l.total - l.count else 0) + if l.stopped == None then 1 else 0
  }

  /** Both loops together make at most one call for each byte and one failing call each. */
  lemma {:induction false} RunsAreShort(t: Transfer, rs: seq<Round>)
    requires t.sender.total == |t.data| && t.receiver.total <= |t.buffer| && PossibleRun(t, rs)
    ensures |rs| <= Left(t.sender) + Left(t.receiver)
    decreases rs
  {
    if rs != [] {
      RunsAreShort(Do(t, rs[0]), rs[1..]);
    }
  }

  lemma {:induction false} NoFailureNoStop(t: Transfer, rs: seq<Round>)
    requires t.sender.total == |t.data| && t.receiver.total <= |t.buffer| && PossibleRun(t, rs)
    requires t.sender.stopped == None && t.receiver.stopped == None
    requires forall k :: 0 <= k < |rs| ==> rs[k].res > 0
    ensures Run(t, rs).sender.stopped == None && Run(t, rs).receiver.stopped == None
    decreases rs
  {
    if rs != [] {
      NoFailureNoStop(Do(t, rs[0]), rs[1..]);
    }
  }

  /**
   * Delivery under any segmentation: when no call has failed and neither loop can move
   * another byte, the sender has returned its n, the receiver has exactly the first min(m, n)
   * bytes, and it has returned m or waits for more than was sent. In the second case its next
   * call fails, and then it returns n, or that failure if there was nothing to send.
   */
  lemma Delivery(data: string, buffer: string, m: nat, rs: seq<Round>)
    requires m <= |buffer| && PossibleRun(Begin(data, buffer, m), rs)
    requires forall k :: 0 <= k < |rs| ==> rs[k].res > 0
    requires forall r :: Possible(Run(Begin(data, buffer, m), rs), r) ==> r.res <= 0
    ensures var e, n := Run(Begin(data, buffer, m), rs), |data|;
            var k := if m <= n then m else n;
            && Returned(e.sender) == Some(n)
            && e.receiver.count == k && k <= |e.buffer| && e.buffer[..k] == data[..k] && e.buffer[k..] == buffer[k..]
            && Returned(e.receiver) == (if m <= n then Some(m) else None)
            && Consistent(e, data, buffer, m)
            && (m > n ==> forall res :: Possible(e, RecvCall(res)) <==> res <= 0)
            && (m > n ==> forall res :: res <= 0 ==>
                  var t := Do(e, RecvCall(res));
                  t.buffer == e.buffer && Returned(t.receiver) == Some(if n != 0 then n else res))
  {
    var t := Begin(data, buffer, m);
    BeginIsConsistent(data, buffer, m);
    InterleavingsAreConsistent(t, rs, data, buffer, m);
    NoFailureNoStop(t, rs);
    ReceivedIsPrefixOfSent(data, buffer, m, rs);
    var e := Run(t, rs);
    assert Possible(e, SendCall(1)) ==> SendCall(1).res <= 0;
    assert Possible(e, RecvCall(1)) ==> RecvCall(1).res <= 0;
    StuckCounts(e, data, buffer, m);
    assert data[..|data|] == data;
  }

  lemma StuckCounts(e: Transfer, data: string, buffer: string, m: nat)
    requires Consistent(e, data, buffer, m) && e.sender.stopped == None && e.receiver.stopped == None
    requires !Possible(e, SendCall(1)) && !Possible(e, RecvCall(1))
    ensures e.sender.count == |data| && e.receiver.count == if m <= |data| then m else |data|
  {
    assert |e.buffer[..e.receiver.count] + e.onTheWay| == |data[..e.sender.count]|;
  }
}
