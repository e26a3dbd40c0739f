/** The HTTP head reader and the chunk readers of Util/libc/socket.c. */
module HttpResponses {
  import opened Options
  import opened Scanning
  import opened Sequences
  import opened Sockets
  import opened HttpRequests

  function Zeros(n: nat): (s: string)
    ensures |s| == n
  {
    seq(n, _ => '\0')
  }

  /** A buffer that holds the bytes read so far, followed by NULs up to its used size. */
  ghost predicate Holds(buf: string, size: nat, read: string, beyond: string) {
    |read| <= size <= |buf| && buf[..size] == read + Zeros(size - |read|) && buf[size..] == beyond
  }

  /** Fill the first n bytes of a buffer with NULs. */
  method ClearBuffer(buf: array<char>, n: nat)
    requires n <= buf.Length
    modifies buf
    ensures Holds(buf[..], n, "", old(buf[n..]))
  {
    forall i | 0 <= i < n {
      buf[i] := '\0';
    }
    assert buf[..][..n] == "" + Zeros(n);
    assert buf[..][n..] == old(buf[n..]);
  }

  /** Receive one byte behind those already read. */
  method RecvByte(sock: Socket, buf: array<char>, size: nat, rn: nat, ghost in0: string, ghost beyond: string)
    returns (ok: bool)
    requires rn < size && rn <= |in0|
    requires Holds(buf[..], size, in0[..rn], beyond) && sock.input == in0[rn..]
    modifies sock`input, sock`recvResults, buf
    ensures ok ==> rn < |in0| && Holds(buf[..], size, in0[..rn + 1], beyond) && sock.input == in0[rn + 1..]
    ensures !ok ==> buf[..] == old(buf[..]) && sock.input == old(sock.input)
    ensures !ok && sock.reliable ==> rn == |in0|
  {
    ghost var buf0 := buf[..];
    var res := sock.Recv(buf, rn, 1);
    ok := res > 0;
    if ok {
      assert in0[rn..][..1] == [in0[rn]];
      assert buf[..] == buf0[..rn] + [in0[rn]] + buf0[rn + 1..];
      HoldsOneMore(buf0, buf[..], size, in0, rn, beyond);
    }
  }

  lemma HoldsOneMore(buf0: string, buf1: string, size: nat, in0: string, rn: nat, beyond: string)
    requires rn < size && rn < |in0| && Holds(buf0, size, in0[..rn], beyond)
    requires buf1 == buf0[..rn] + [in0[rn]] + buf0[rn + 1..]
    ensures Holds(buf1, size, in0[..rn + 1], beyond)
  {
    var read := in0[..rn] + [in0[rn]];
    assert in0[..rn + 1] == read;
    assert buf0[..rn] == buf0[..size][..rn] == in0[..rn];
    assert buf0[rn + 1..size] == buf0[..size][rn + 1..] == Zeros(size - rn)[1..] == Zeros(size - rn - 1);
    assert buf1[..size] == read + buf0[rn + 1..size];
    assert buf1[size..] == buf0[size..];
  }

  // ----- The head reader -----

  /**
   * The status that the reader reports for a complete head: the number after the first
   * space. A head without a space before its first NUL, or with a number outside the range
   * of int, is undefined in C, and nothing is said about it.
   */
  ghost predicate IsStatusOf(status: int, head: string) {
    match AfterFirstSpace(CString(head))
    case None => true
    case Some(text) =>
      match ScanDecimal(text)
      case None => status == -1
      case Some(number) => -0x8000_0000 <= number < 0x8000_0000 ==> status == number
  }

  method StatusOf(buffer: array<char>, bufsize: nat, ghost head: string) returns (status: int)
    requires |head| < bufsize <= buffer.Length && buffer[..bufsize] == head + Zeros(bufsize - |head|)
    ensures IsStatusOf(status, head)
  {
    CStringOfPadded(head, bufsize - |head|);
    status := *;
    var p := AfterFirstSpace(CString(buffer[..bufsize]));
    if p.Some? {
      var number := ScanDecimal(p.value);
      if number == None {
        status := -1;
      } else if -0x8000_0000 <= number.value < 0x8000_0000 {
        status := number.value;
      }
    }
  }

  lemma {:induction false} CStringOfPadded(s: string, n: nat)
    requires n > 0
    ensures CString(s + Zeros(n)) == CString(s)
  {
    if s != "" {
      assert (s + Zeros(n))[1..] == s[1..] + Zeros(n);
      CStringOfPadded(s[1..], n);
    } else {
      assert s + Zeros(n) == Zeros(n);
    }
  }

  /**
   * Read a head byte by byte into a buffer of bufsize bytes. Reading stops at the first
   * blank line, when the connection yields nothing, or when only the room for a NUL is
   * left. Only the first case reports a status.
   */
  method HttpRecvResponse(sock: Socket, buffer: array<char>, bufsize: nat) returns (status: int, ghost read: nat)
    requires bufsize <= buffer.Length
    modifies sock`input, sock`recvResults, buffer
    ensures read <= |old(sock.input)| && (read == 0 || read < bufsize)
    ensures sock.input == old(sock.input)[read..]
    ensures Holds(buffer[..], bufsize, old(sock.input)[..read], old(buffer[bufsize..]))
    ensures forall m :: 0 <= m < read - 1 ==> !EndsBlank(old(sock.input), m)
    ensures if EndsBlank(old(sock.input), read - 1) then IsStatusOf(status, old(sock.input)[..read]) else status == -1
    ensures sock.reliable ==> forall k :: IsFirstBlank(old(sock.input), k) && k + 1 < bufsize ==> read == k + 1
  {
    status := -1;
    read := 0;
    ghost var in0, beyond := sock.input, buffer[bufsize..];
    var rn := 0;
    ClearBuffer(buffer, bufsize);
    while rn + 1 < bufsize
      invariant rn <= |in0| && (rn == 0 || rn < bufsize) && status == -1
      invariant sock.input == in0[rn..]
      invariant Holds(buffer[..], bufsize, in0[..rn], beyond)
      invariant forall m :: 0 <= m < rn ==> !EndsBlank(in0, m)
    {
      var ok := RecvByte(sock, buffer, bufsize, rn, in0, beyond);
      if !ok {
        read := rn;
        return;
      }
      BytesHeld(buffer[..], bufsize, in0, rn + 1, beyond);
      if rn >= 3 && buffer[rn - 3] == '\r' && buffer[rn - 2] == '\n' && buffer[rn - 1] == '\r' && buffer[rn] == '\n' {
        read := rn + 1;
        status := StatusOf(buffer, bufsize, in0[..rn + 1]);
        return;
      }
      rn := rn + 1;
    }
    read := rn;
  }

  /**
   * Reading a request that this library's writer sent: on a reliable connection the head,
   * and no byte of the body, is consumed.
   */
  method RecvRequestHead(sock: Socket, buffer: array<char>, ghost verb: string, ghost path: string,
                         ghost host: string, ghost added: seq<string>, ghost body: string)
    requires IsVerb(verb) && OnOneLine(path) && OnOneLine(host) && CleanLines(added)
    requires HeadLength(verb, path, host, added) < buffer.Length
    requires sock.reliable && sock.input == RequestText(verb, path, host, added, body)
    modifies sock`input, sock`recvResults, buffer
    ensures sock.input == body
    ensures buffer[..HeadLength(verb, path, host, added)] == OpenText(verb, path, host) + Block(added) + CRLF
  {
    ghost var head, in0 := OpenText(verb, path, host) + Block(added) + CRLF, sock.input;
    RequestFramingIff(verb, path, host, added, body);
    assert in0 == head + body;
    ghost var read;
    var status;
    status, read := HttpRecvResponse(sock, buffer, buffer.Length);
    assert read == |head|;
    assert in0[..read] == head && in0[read..] == body;
    BytesHeld(buffer[..], buffer.Length, in0, read, buffer[buffer.Length..]);
    assert buffer[..read] == head;
  }

  lemma BytesHeld(buf: string, size: nat, in0: string, n: nat, beyond: string)
    requires n <= |in0| && Holds(buf, size, in0[..n], beyond)
    ensures forall k :: 0 <= k < n ==> buf[k] == in0[k]
  {
    forall k | 0 <= k < n
      ensures buf[k] == in0[k]
    {
      assert buf[k] == buf[..size][k] == in0[..n][k];
    }
  }

  /**
   * A status line yields the signed number behind its first space and further white space,
   * whatever the version and the rest of the head are, and -1 if there is no number.
   */
  lemma StatusLine(version: string, spaces: string, sign: string, digits: string, rest: string)
    requires forall k :: 0 <= k < |version| ==> version[k] != ' ' && version[k] != '\0'
    requires forall k :: 0 <= k < |spaces| ==> IsSpace(spaces[k])
    requires sign == "" || sign == "+" || sign == "-"
    requires AllDigits(digits, 10) && (rest == "" || !IsDigitOf(rest[0], 10))
    requires sign + digits == "" && rest != "" ==> !IsSpace(rest[0]) && rest[0] != '+' && rest[0] != '-'
    requires NumberOf(digits, 10) < 0x8000_0000
    requires forall k :: 0 <= k < |rest| ==> rest[k] != '\0'
    ensures var n: int := NumberOf(digits, 10);
            var reported := if digits == "" then -1 else if sign == "-" then -n else n;
            forall status ::
              IsStatusOf(status, version + (" " + (spaces + (sign + (digits + rest))))) <==> status == reported
  {
    var after := spaces + (sign + (digits + rest));
    NoNulAppend(digits, rest);
    NoNulAppend(sign, digits + rest);
    NoNulAppend(spaces, sign + (digits + rest));
    NoNulAppend(" ", after);
    NoNulAppend(version, " " + after);
    CStringWhole(version + (" " + after));
    FirstSpaceAfter(version, after);
    ScanDecimalIs(spaces, sign, digits, rest);
  }

  lemma NoNulAppend(a: string, b: string)
    requires forall k :: 0 <= k < |a| ==> a[k] != '\0'
    requires forall k :: 0 <= k < |b| ==> b[k] != '\0'
    ensures forall k :: 0 <= k < |a + b| ==> (a + b)[k] != '\0'
  {
  }

  /** So a printed status code is reported. */
  lemma PrintedStatus(version: string, code: nat, rest: string)
    requires forall k :: 0 <= k < |version| ==> version[k] != ' ' && version[k] != '\0'
    requires rest == "" || !IsDigitOf(rest[0], 10)
    requires code < 0x8000_0000 && forall k :: 0 <= k < |rest| ==> rest[k] != '\0'
    ensures IsTable("0123456789", 10)
    ensures forall status ::
              IsStatusOf(status, version + (" " + (Print(code, 10, "0123456789") + rest))) <==> status == code
  {
    DigitTables();
    var digits := Print(code, 10, "0123456789");
    PrintedNumber(code, 10, "0123456789");
    assert "" + ("" + (digits + rest)) == digits + rest;
    StatusLine(version, "", "", digits, rest);
  }

  lemma {:induction false} CStringWhole(s: string)
    requires forall k :: 0 <= k < |s| ==> s[k] != '\0'
    ensures CString(s) == s
  {
    if s != "" {
      CStringWhole(s[1..]);
    }
  }

  lemma {:induction false} FirstSpaceAfter(before: string, after: string)
    requires forall k :: 0 <= k < |before| ==> before[k] != ' '
    ensures AfterFirstSpace(before + (" " + after)) == Some(after)
  {
    if before == "" {
      assert before + (" " + after) == " " + after;
    } else {
      assert (before + (" " + after))[1..] == before[1..] + (" " + after);
      FirstSpaceAfter(before[1..], after);
    }
  }

  // ----- The chunk-size reader -----

  const CHUNK_BUFFER := 12

  /** Whether index k ends the size line: a CRLF that is not at the very start. */
  predicate EndsSize(s: string, k: int) {
    2 <= k < |s| && s[k - 1] == '\r' && s[k] == '\n'
  }

  ghost predicate IsFirstSizeEnd(s: string, k: int) {
    EndsSize(s, k) && forall m :: 0 <= m < k ==> !EndsSize(s, m)
  }

  /**
   * Whether the buffer is a C string once a size line is in it. Where it is not, reading on is
   * undefined in C; scanStops says that sscanf stops at the CR inside the buffer nevertheless.
   */
  predicate CanScan(scanStops: bool, line: string)
    requires |line| <= CHUNK_BUFFER
  {
    scanStops || '\0' in line + Zeros(CHUNK_BUFFER - |line|)
  }

  /** The size that a complete size line denotes, where the pointer format is predictable. */
  ghost predicate IsSizeOf(size: nat, line: string) {
    PlainPointer(CString(line)) ==>
      size == match ScanPointer(CString(line)) case None => 0 case Some(v) => v
  }

  /**
   * Read a chunk-size line through a buffer of twelve bytes. A failed call leaves the
   * caller's size as it was. A line that leaves the buffer without a NUL reports any size.
   */
  method HttpRecvChunkSize(sock: Socket, chunksize: nat, scanStops: bool)
    returns (res: int, size: nat, ghost read: nat)
    modifies sock`input, sock`recvResults
    ensures res == EXEC_SUCCESS || (res == EXEC_ERROR && size == chunksize)
    ensures read <= |old(sock.input)| && read <= CHUNK_BUFFER
    ensures sock.input == old(sock.input)[read..]
    ensures res == EXEC_SUCCESS <==> IsFirstSizeEnd(old(sock.input), read - 1)
    ensures res == EXEC_SUCCESS && CanScan(scanStops, old(sock.input)[..read])
            ==> IsSizeOf(size, old(sock.input)[..read])
    ensures sock.reliable ==> forall k :: IsFirstSizeEnd(old(sock.input), k) && k < CHUNK_BUFFER ==> read == k + 1
  {
    size := chunksize;
    read := 0;
    var buffer := new char[CHUNK_BUFFER](_ => '\0');
    ghost var in0 := sock.input;
    assert buffer[..] == "" + Zeros(CHUNK_BUFFER);
    var rn := 0;
    while rn < CHUNK_BUFFER
      invariant rn <= |in0| && rn <= CHUNK_BUFFER && size == chunksize
      invariant sock.input == in0[rn..]
      invariant Holds(buffer[..], CHUNK_BUFFER, in0[..rn], "")
      invariant forall m :: 0 <= m < rn ==> !EndsSize(in0, m)
    {
      var ok := RecvByte(sock, buffer, CHUNK_BUFFER, rn, in0, "");
      if !ok {
        read := rn;
        res := EXEC_ERROR;
        return;
      }
      BytesHeld(buffer[..], CHUNK_BUFFER, in0, rn + 1, "");
      if rn >= 2 && buffer[rn - 1] == '\r' && buffer[rn] == '\n' {
        read := rn + 1;
        size := SizeOf(buffer, scanStops, in0[..rn + 1]);
        res := EXEC_SUCCESS;
        return;
      }
      rn := rn + 1;
    }
    read := rn;
    res := EXEC_ERROR;
  }

  method SizeOf(buffer: array<char>, scanStops: bool, ghost line: string) returns (size: nat)
    requires buffer.Length == CHUNK_BUFFER && Holds(buffer[..], CHUNK_BUFFER, line, "")
    ensures CanScan(scanStops, line) ==> IsSizeOf(size, line)
  {
    assert buffer[..] == buffer[..CHUNK_BUFFER] == line + Zeros(CHUNK_BUFFER - |line|);
    if |line| < CHUNK_BUFFER {
      CStringOfPadded(line, CHUNK_BUFFER - |line|);
    } else {
      assert line + Zeros(0) == line;
    }
    var text := CString(buffer[..]);
    size := 0;
    if (scanStops || '\0' in buffer[..]) && PlainPointer(text) {
      var v := ScanPointer(text);
      if v.Some? {
        size := v.value;
      }
    } else {
      size := *;
    }
  }

  // ----- Chunked bodies, section 4.1 of RFC 7230 -----

  /** A chunk as it is written: the text of its size, and its data. */
  datatype Chunk = Chunk(sizeText: string, data: string)

  predicate IsSizeText(t: string, n: nat) {
    1 <= |t| <= 8 && AllDigits(t, 16) && NumberOf(t, 16) == n
  }

  /** Every size below 2^31 has such a text, in lower or upper case. */
  lemma EverySizeHasText(n: nat, upper: bool)
    requires n < 0x8000_0000
    ensures var table := if upper then "0123456789ABCDEF" else "0123456789abcdef";
            IsTable(table, 16) && IsSizeText(Print(n, 16, table), n)
  {
    var table := if upper then "0123456789ABCDEF" else "0123456789abcdef";
    DigitTables();
    PrintedNumber(n, 16, table);
    assert PowerOf16(4) == 0x1_0000;
    assert PowerOf16(8) == 0x1_0000_0000;
    PrintedLength(n, 8, table);
  }

  function PowerOf16(k: nat): nat {
    if k == 0 then 1 else 16 * PowerOf16(k - 1)
  }

  lemma {:induction false} PrintedLength(n: nat, k: nat, table: string)
    requires k > 0 && n < PowerOf16(k) && IsTable(table, 16)
    ensures |Print(n, 16, table)| <= k
  {
    if n >= 16 {
      PrintedLength(n / 16, k - 1, table);
    }
  }

  predicate GoodChunk(c: Chunk) {
    c.data != "" && |c.data| < 0x8000_0000 && IsSizeText(c.sizeText, |c.data|)
  }

  /** The chunks, each followed by its CRLF, and the size line of the last chunk. */
  function ChunkedText(chunks: seq<Chunk>, last: string): string {
    if chunks == [] then last + CRLF
    else chunks[0].sizeText + CRLF + chunks[0].data + CRLF + ChunkedText(chunks[1..], last)
  }

  function Contents(chunks: seq<Chunk>): string {
    if chunks == [] then "" else chunks[0].data + Contents(chunks[1..])
  }

  /** The size line ends at its own CRLF, even with the CRLF of the previous chunk in front of it. */
  lemma SizeLineEnd(lead: string, t: string, rest: string)
    requires lead == "" || lead == CRLF
    requires t != "" && AllDigits(t, 16)
    ensures IsFirstSizeEnd(lead + t + CRLF + rest, |lead| + |t| + 1)
  {
    var s := lead + t + CRLF + rest;
    forall m | 0 <= m < |lead| + |t| + 1
      ensures !EndsSize(s, m)
    {
      if m >= |lead| && m < |lead| + |t| {
        assert s[m] == t[m - |lead|];
      }
    }
    assert s[|lead| + |t|] == '\r' && s[|lead| + |t| + 1] == '\n';
  }

  /**
   * A size line denotes the number that its leading digits denote, whatever follows them up
   * to the end of the line.
   */
  lemma SizeLineValue(lead: string, t: string, extension: string)
    requires lead == "" || lead == CRLF
    requires t != "" && AllDigits(t, 16)
    requires extension == "" || (!IsDigitOf(extension[0], 16) && extension[0] != 'x' && extension[0] != 'X')
    requires forall k :: 0 <= k < |extension| ==> extension[k] != '\0'
    ensures forall size :: IsSizeOf(size, lead + t + (extension + CRLF)) <==> size == NumberOf(t, 16)
  {
    var rest := extension + CRLF;
    var line, text := lead + t + rest, t + rest;
    assert line == lead + text;
    NoNulAppend(extension, CRLF);
    DigitsAreNoNul(t);
    NoNulAppend(lead, t);
    NoNulAppend(lead + t, rest);
    CStringWhole(line);
    PlainDigits(t, rest);
    SkipLead(lead, text);
    ScanNumberIs(t, rest, 16);
  }

  lemma DigitsAreNoNul(t: string)
    requires AllDigits(t, 16)
    ensures forall k :: 0 <= k < |t| ==> t[k] != '\0'
  {
    assert forall k :: 0 <= k < |t| && t[k] == '\0' ==> IsDigitOf(t[k], 16);
  }

  lemma PlainDigits(t: string, rest: string)
    requires t != "" && AllDigits(t, 16) && rest != "" && !IsDigitOf(rest[0], 16) && rest[0] != 'x' && rest[0] != 'X'
    ensures !IsSpace((t + rest)[0]) && PlainPointer(t + rest)
  {
    var text := t + rest;
    assert text[0] == t[0];
    assert text[1] == if |t| > 1 then t[1] else rest[0];
    assert SkipSpace(text) == text;
  }

  /** A line whose first character that is no white space is no digit denotes 0. */
  lemma LineWithoutSize(line: string)
    requires forall k :: 0 <= k < |line| ==> line[k] != '\0'
    requires PlainPointer(line) && (SkipSpace(line) == "" || !IsDigitOf(SkipSpace(line)[0], 16))
    ensures forall size :: IsSizeOf(size, line) <==> size == 0
  {
    CStringWhole(line);
  }

  lemma SizeLineHasNoNul(lead: string, t: string)
    requires lead == "" || lead == CRLF
    requires AllDigits(t, 16)
    ensures forall k :: 0 <= k < |lead + t + CRLF| ==> (lead + t + CRLF)[k] != '\0'
  {
    var line := lead + t + CRLF;
    forall k | 0 <= k < |line|
      ensures line[k] != '\0'
    {
      if |lead| <= k < |lead| + |t| {
        assert line[k] == t[k - |lead|];
      }
    }
  }

  lemma SkipLead(lead: string, s: string)
    requires lead == "" || lead == CRLF
    requires s != "" && !IsSpace(s[0])
    ensures SkipSpace(lead + s) == s
  {
    assert SkipSpace(s) == s;
    if lead == CRLF {
      var t := "\n" + s;
      assert t[1..] == s;
      assert SkipSpace(t) == s;
      assert (lead + s)[1..] == t;
    } else {
      assert lead + s == s;
    }
  }

  /** With at most twelve bytes up to its end, and only then, a size line can be read. */
  lemma SizeLineFitsIff(lead: string, t: string, rest: string)
    requires lead == "" || lead == CRLF
    requires t != "" && AllDigits(t, 16)
    ensures (exists k :: IsFirstSizeEnd(lead + t + CRLF + rest, k) && k < CHUNK_BUFFER)
            <==> |t| <= if lead == "" then 10 else 8
  {
    SizeLineEnd(lead, t, rest);
    assert IsFirstSizeEnd(lead + t + CRLF + rest, |lead| + |t| + 1);
  }

  /**
   * A size line that fits leaves the buffer a C string exactly when it has at most nine
   * digits, or seven behind the CRLF of a chunk.
   */
  lemma CanScanIff(scanStops: bool, lead: string, t: string)
    requires lead == "" || lead == CRLF
    requires AllDigits(t, 16) && |lead + t + CRLF| <= CHUNK_BUFFER
    ensures CanScan(scanStops, lead + t + CRLF) <==> scanStops || |t| <= if lead == "" then 9 else 7
  {
    var line := lead + t + CRLF;
    SizeLineHasNoNul(lead, t);
    var zeros := Zeros(CHUNK_BUFFER - |line|);
    if |line| < CHUNK_BUFFER {
      assert zeros[0] == '\0';
    } else {
      assert line + zeros == line;
    }
  }

  /** Whether every size line of a chunked body can be scanned. */
  predicate AllCanScan(scanStops: bool, lead: string, chunks: seq<Chunk>, last: string)
    decreases chunks
  {
    var t := if chunks == [] then last else chunks[0].sizeText;
    && (scanStops || |t| <= if lead == "" then 9 else 7)
    && (chunks != [] ==> AllCanScan(scanStops, CRLF, chunks[1..], last))
  }

  /**
   * Receive a chunked body by alternating the chunk-size reader and receive-all, until the
   * reported size is 0.
   */
  method RecvChunkedBody(sock: Socket, hasWaitAll: bool, scanStops: bool,
                         ghost chunks: seq<Chunk>, ghost last: string, ghost rest: string)
    returns (body: string, ok: bool)
    requires forall k :: 0 <= k < |chunks| ==> GoodChunk(chunks[k])
    requires IsSizeText(last, 0)
    requires AllCanScan(scanStops, "", chunks, last)
    requires sock.input == ChunkedText(chunks, last) + rest
    modifies sock`input, sock`recvResults
    ensures ok ==> body == Contents(chunks) && sock.input == rest
    ensures sock.reliable ==> ok
  {
    body := "";
    ok := false;
    ghost var lead, todo := "", chunks;
    assert sock.input == lead + (ChunkedText(todo, last) + rest);
    while true
      invariant lead == "" || lead == CRLF
      invariant forall k :: 0 <= k < |todo| ==> GoodChunk(todo[k])
      invariant AllCanScan(scanStops, lead, todo, last)
      invariant sock.input == lead + (ChunkedText(todo, last) + rest)
      invariant body + Contents(todo) == Contents(chunks)
      decreases |todo|
    {
      var res, size := RecvNextSize(sock, scanStops, lead, todo, last, rest);
      if res != EXEC_SUCCESS || size == 0 {
        ok := res == EXEC_SUCCESS;
        return;
      }
      var data, received := RecvData(sock, hasWaitAll, size, todo[0].data,
                                     CRLF + (ChunkedText(todo[1..], last) + rest));
      if !received {
        return;
      }
      Associate(body, data, Contents(todo[1..]));
      body := body + data;
      lead, todo := CRLF, todo[1..];
    }
  }

  /** Receive the data of one chunk into a buffer of its size. */
  method RecvData(sock: Socket, hasWaitAll: bool, size: nat, ghost data: string, ghost after: string)
    returns (read: string, ok: bool)
    requires sock.input == data + after && size == |data| > 0
    modifies sock`input, sock`recvResults
    ensures ok ==> read == data && sock.input == after
    ensures sock.reliable ==> ok
  {
    read := "";
    var buf := new char[size];
    var r := TcpRecvAll(sock, buf, size, hasWaitAll);
    ok := r == size;
    if ok {
      DataThenRest(data, after);
      read := buf[..];
      assert read == data;
    }
  }

  /** One call of the chunk-size reader on what is left of a chunked body. */
  method RecvNextSize(sock: Socket, scanStops: bool,
                      ghost lead: string, ghost todo: seq<Chunk>, ghost last: string, ghost rest: string)
    returns (res: int, size: nat)
    requires lead == "" || lead == CRLF
    requires forall k :: 0 <= k < |todo| ==> GoodChunk(todo[k])
    requires IsSizeText(last, 0)
    requires AllCanScan(scanStops, lead, todo, last)
    requires sock.input == lead + (ChunkedText(todo, last) + rest)
    modifies sock`input, sock`recvResults
    ensures res == EXEC_SUCCESS && todo == [] ==> size == 0 && sock.input == rest
    ensures res == EXEC_SUCCESS && todo != [] ==>
              && size == |todo[0].data| > 0
              && sock.input == todo[0].data + (CRLF + (ChunkedText(todo[1..], last) + rest))
    ensures sock.reliable ==> res == EXEC_SUCCESS
  {
    ghost var t := if todo == [] then last else todo[0].sizeText;
    ghost var after := if todo == [] then rest else todo[0].data + (CRLF + (ChunkedText(todo[1..], last) + rest));
    SplitSizeLine(lead, todo, last, rest);
    SizeLineEnd(lead, t, after);
    SizeLineValue(lead, t, "");
    assert "" + CRLF == CRLF;
    ghost var in0 := sock.input;
    ghost var read;
    res, size, read := HttpRecvChunkSize(sock, 0, scanStops);
    assert IsFirstSizeEnd(in0, |lead| + |t| + 1);
    if res == EXEC_SUCCESS {
      assert read == |lead| + |t| + 2;
      assert in0[..read] == lead + t + CRLF && in0[read..] == after;
      CanScanIff(scanStops, lead, t);
    }
  }

  lemma SplitSizeLine(lead: string, todo: seq<Chunk>, last: string, rest: string)
    ensures var t := if todo == [] then last else todo[0].sizeText;
            var after := if todo == [] then rest else todo[0].data + (CRLF + (ChunkedText(todo[1..], last) + rest));
            lead + (ChunkedText(todo, last) + rest) == lead + t + CRLF + after
  {
  }

  lemma DataThenRest(data: string, rest: string)
    ensures (data + rest)[..|data|] == data && (data + rest)[|data|..] == rest
  {
  }
}
