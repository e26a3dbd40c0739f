/** The HTTP request writer of Util/libc/socket.c and the framing of what it sends. */
module HttpRequests {
  import opened Options
  import opened Scanning
  import opened Sockets

  // EXEC_RETURN, and the -1 that opening a request returns for an unknown method.
  const EXEC_SUCCESS := 0
  const EXEC_ERROR := 1

  // ----- The blank line that ends a head -----

  /** Whether the bytes up to and including index k end with CRLF CRLF. */
  predicate EndsBlank(s: string, k: int) {
    3 <= k < |s| && s[k - 3] == '\r' && s[k - 2] == '\n' && s[k - 1] == '\r' && s[k] == '\n'
  }

  ghost predicate IsFirstBlank(s: string, k: int) {
    EndsBlank(s, k) && forall m :: 0 <= m < k ==> !EndsBlank(s, m)
  }

  // ----- Header lines -----

  /** No CR and no LF in the text. */
  predicate OnOneLine(s: string) {
    forall k :: 0 <= k < |s| ==> s[k] != '\r' && s[k] != '\n'
  }

  /** Lines written one after the other, each with its own CRLF. */
  function Block(lines: seq<string>): string {
    if lines == [] then "" else lines[0] + CRLF + Block(lines[1..])
  }

  lemma {:induction false} BlockAppend(a: seq<string>, b: seq<string>)
    ensures Block(a + b) == Block(a) + Block(b)
  {
    if a == [] {
      assert a + b == b;
    } else {
      assert (a + b)[1..] == a[1..] + b;
      BlockAppend(a[1..], b);
    }
  }

  ghost predicate CleanLines(lines: seq<string>) {
    forall k :: 0 <= k < |lines| ==> lines[k] != "" && OnOneLine(lines[k])
  }

  /** After non-empty lines, the first blank line is the one that the CRLF after them completes. */
  lemma {:induction false} FirstBlankAfterLines(lines: seq<string>, body: string)
    requires lines != [] && CleanLines(lines)
    ensures IsFirstBlank(Block(lines) + CRLF + body, |Block(lines)| + 1)
  {
    var l := lines[0];
    if |lines| == 1 {
      assert Block(lines) == l + CRLF;
      FirstBlankAfterLine(l, CRLF + body);
      assert l + CRLF + (CRLF + body) == Block(lines) + CRLF + body;
    } else {
      var rest := Block(lines[1..]) + CRLF + body;
      FirstBlankAfterLines(lines[1..], body);
      FirstBlankAfterLine(l, rest);
      assert rest[0] == lines[1][0];
      assert l + CRLF + rest == Block(lines) + CRLF + body;
    }
  }

  /** The blank lines of a text that starts with a line are those of the rest, shifted. */
  lemma FirstBlankAfterLine(l: string, rest: string)
    requires l != "" && OnOneLine(l)
    requires rest != "" && (rest[0] == '\r' ==> CRLF <= rest)
    ensures var s := l + CRLF + rest;
            && (CRLF <= rest ==> IsFirstBlank(s, |l| + 3))
            && (rest[0] != '\r' ==> forall k :: IsFirstBlank(rest, k) ==> IsFirstBlank(s, k + |l| + 2))
  {
    var s := l + CRLF + rest;
    assert forall m :: 0 <= m < |l| ==> s[m] == l[m] != '\r';
    assert s[|l|] == '\r' && s[|l| + 1] == '\n';
    assert forall m :: |l| + 2 <= m < |s| ==> s[m] == rest[m - |l| - 2];
    if rest[0] != '\r' {
      forall k | IsFirstBlank(rest, k)
        ensures IsFirstBlank(s, k + |l| + 2)
      {
        forall m | 0 <= m < k + |l| + 2
          ensures !EndsBlank(s, m)
        {
          if m - 3 >= |l| + 2 {
            assert !EndsBlank(rest, m - |l| - 2);
          }
        }
      }
    }
  }

  /** An empty line after the first one ends the head early. */
  lemma EmptyLineEndsHead(lines: seq<string>, i: nat, body: string)
    requires 0 < i < |lines| && CleanLines(lines[..i]) && lines[i] == ""
    ensures !IsFirstBlank(Block(lines) + CRLF + body, |Block(lines)| + 1)
  {
    var before, after := lines[..i], lines[i + 1..];
    assert lines == before + ([""] + after);
    BlockAppend(before, [""] + after);
    assert ([""] + after)[1..] == after;
    assert Block([""] + after) == CRLF + Block(after);
    var s := Block(lines) + CRLF + body;
    assert s == Block(before) + CRLF + (Block(after) + CRLF + body);
    FirstBlankAfterLines(before, Block(after) + CRLF + body);
    assert |Block(lines)| == |Block(before)| + 2 + |Block(after)|;
  }

  // ----- The text of a request -----

  function RequestLines(verb: string, path: string, host: string): seq<string> {
    [verb + " " + path + " HTTP/1.1", "Host: " + host, "Accept: */*", "Connection: Keep-Alive"]
  }

  /** What opening a request prints into its buffer. */
  function OpenText(verb: string, path: string, host: string): string {
    (verb + " " + path + " HTTP/1.1") + CRLF
    + ("Host: " + host) + CRLF
    + "Accept: */*" + CRLF
    + "Connection: Keep-Alive" + CRLF
  }

  lemma OpenTextIs(verb: string, path: string, host: string)
    ensures OpenText(verb, path, host)
            == verb + " " + path + " HTTP/1.1" + "\r\n" + "Host: " + host + "\r\n"
               + "Accept: */*" + "\r\n" + "Connection: Keep-Alive" + "\r\n"
  {
    var first := verb + " " + path + " HTTP/1.1" + "\r\n";
    assert first + ("Host: " + host) == first + "Host: " + host;
  }

  lemma OpenTextIsBlock(verb: string, path: string, host: string)
    ensures OpenText(verb, path, host) == Block(RequestLines(verb, path, host))
  {
    BlockOfFour(verb + " " + path + " HTTP/1.1", "Host: " + host, "Accept: */*", "Connection: Keep-Alive");
  }

  lemma BlockOfFour(a: string, b: string, c: string, d: string)
    ensures Block([a, b, c, d]) == a + CRLF + b + CRLF + c + CRLF + d + CRLF
  {
    assert [a, b, c, d][1..] == [b, c, d] && [b, c, d][1..] == [c, d] && [c, d][1..] == [d];
    assert Block([d]) == d + CRLF;
    assert Block([c, d]) == c + CRLF + d + CRLF;
    assert Block([b, c, d]) == b + CRLF + c + CRLF + d + CRLF;
  }

  predicate IsVerb(verb: string) { verb == "GET" || verb == "POST" }

  /** Everything that a complete request sends. */
  function RequestText(verb: string, path: string, host: string, added: seq<string>, body: string): string {
    OpenText(verb, path, host) + Block(added) + CRLF + body
  }

  function HeadLength(verb: string, path: string, host: string, added: seq<string>): nat {
    |OpenText(verb, path, host) + Block(added) + CRLF|
  }

  /**
   * Request framing: with no stray CR or LF in its fields, the head of a request ends
   * exactly where the body starts if and only if no added header line is empty.
   */
  lemma RequestFramingIff(verb: string, path: string, host: string, added: seq<string>, body: string)
    requires IsVerb(verb) && OnOneLine(path) && OnOneLine(host)
    requires forall k :: 0 <= k < |added| ==> OnOneLine(added[k])
    ensures IsFirstBlank(RequestText(verb, path, host, added, body), HeadLength(verb, path, host, added) - 1)
            <==> (forall k :: 0 <= k < |added| ==> added[k] != "")
  {
    var own := RequestLines(verb, path, host);
    var lines := own + added;
    OpenTextIsBlock(verb, path, host);
    BlockAppend(own, added);
    assert RequestText(verb, path, host, added, body) == Block(lines) + CRLF + body;
    OwnLinesAreClean(verb, path, host);
    if forall k :: 0 <= k < |added| ==> added[k] != "" {
      assert CleanLines(lines);
      FirstBlankAfterLines(lines, body);
    } else {
      var i := FirstEmpty(added);
      assert lines[..4 + i] == own + added[..i];
      assert CleanLines(lines[..4 + i]);
      EmptyLineEndsHead(lines, 4 + i, body);
    }
  }

  lemma OwnLinesAreClean(verb: string, path: string, host: string)
    requires IsVerb(verb) && OnOneLine(path) && OnOneLine(host)
    ensures CleanLines(RequestLines(verb, path, host))
  {
    assert OnOneLine(verb) && OnOneLine(" HTTP/1.1") && OnOneLine("Host: ");
    assert OnOneLine(verb + " ") && OnOneLine(verb + " " + path);
    assert OnOneLine(verb + " " + path + " HTTP/1.1") && OnOneLine("Host: " + host);
    assert OnOneLine("Accept: */*") && OnOneLine("Connection: Keep-Alive");
  }

  lemma {:induction false} FirstEmpty(lines: seq<string>) returns (i: nat)
    requires exists k :: 0 <= k < |lines| && lines[k] == ""
    ensures i < |lines| && lines[i] == ""
    ensures forall k :: 0 <= k < i ==> lines[k] != ""
  {
    i := 0;
    while lines[i] != ""
      invariant i < |lines|
      decreases |lines| - i
      invariant forall k :: 0 <= k < i ==> lines[k] != ""
    {
      i := i + 1;
    }
  }

  // ----- Reading a request -----

  /** A request as its receiver sees it: the words of its first line, the other lines, the body. */
  datatype Request = Request(verb: string, path: string, version: string, headers: seq<string>, body: string)

  /** A line and what follows its CRLF. */
  function ReadLine(s: string): Option<(string, string)> {
    if |s| < 2 then None
    else if s[0] == '\r' && s[1] == '\n' then Some(("", s[2..]))
    else
      var (line, rest) :- ReadLine(s[1..]);
      Some(([s[0]] + line, rest))
  }

  lemma {:induction false} ReadLineShrinks(s: string)
    ensures ReadLine(s).Some? ==> |ReadLine(s).value.1| < |s|
  {
    if |s| >= 2 {
      ReadLineShrinks(s[1..]);
    }
  }

  /** The lines up to the first empty one, and what follows that. */
  function ReadLines(s: string): Option<(seq<string>, string)>
    decreases |s|
  {
    var (line, rest) :- ReadLine(s);
    ReadLineShrinks(s);
    if line == "" then Some(([], rest))
    else
      var (lines, after) :- ReadLines(rest);
      Some(([line] + lines, after))
  }

  /** What is before and after the first space. */
  function SplitAtSpace(s: string): Option<(string, string)> {
    if s == "" then None
    else if s[0] == ' ' then Some(("", s[1..]))
    else
      var (word, rest) :- SplitAtSpace(s[1..]);
      Some(([s[0]] + word, rest))
  }

  function ReadRequest(s: string): Option<Request> {
    var (lines, body) :- ReadLines(s);
    if lines == [] then None
    else
      var (verb, rest) :- SplitAtSpace(lines[0]);
      var (path, version) :- SplitAtSpace(rest);
      Some(Request(verb, path, version, lines[1..], body))
  }

  /** The value of the first header of a name. */
  function HeaderValue(headers: seq<string>, name: string): Option<string> {
    if headers == [] then None
    else if name + ": " <= headers[0] then Some(headers[0][|name| + 2..])
    else HeaderValue(headers[1..], name)
  }

  lemma {:induction false} LineRead(line: string, rest: string)
    requires OnOneLine(line)
    ensures ReadLine(line + (CRLF + rest)) == Some((line, rest))
  {
    if line == "" {
      assert line + (CRLF + rest) == CRLF + rest;
    } else {
      assert (line + (CRLF + rest))[1..] == line[1..] + (CRLF + rest);
      LineRead(line[1..], rest);
      assert line == [line[0]] + line[1..];
    }
  }

  lemma {:induction false} LinesRead(lines: seq<string>, body: string)
    requires CleanLines(lines)
    ensures ReadLines(Block(lines) + (CRLF + body)) == Some((lines, body))
    decreases lines
  {
    if lines == [] {
      assert Block(lines) + (CRLF + body) == "" + (CRLF + body);
      LineRead("", body);
    } else {
      var rest := Block(lines[1..]) + (CRLF + body);
      assert Block(lines) + (CRLF + body) == lines[0] + (CRLF + rest);
      LinesRead(lines[1..], body);
      OneMoreLine(lines[0], rest, lines[1..], body);
      assert lines == [lines[0]] + lines[1..];
    }
  }

  lemma OneMoreLine(line: string, rest: string, lines: seq<string>, body: string)
    requires line != "" && OnOneLine(line) && ReadLines(rest) == Some((lines, body))
    ensures ReadLines(line + (CRLF + rest)) == Some(([line] + lines, body))
  {
    LineRead(line, rest);
  }

  lemma {:induction false} SpaceSplit(word: string, rest: string)
    requires ' ' !in word
    ensures SplitAtSpace(word + (" " + rest)) == Some((word, rest))
  {
    if word == "" {
      assert word + (" " + rest) == " " + rest;
    } else {
      assert (word + (" " + rest))[1..] == word[1..] + (" " + rest);
      SpaceSplit(word[1..], rest);
      assert word == [word[0]] + word[1..];
    }
  }

  /** What the receiver of a request should read. */
  function RequestOf(verb: string, path: string, host: string, added: seq<string>, body: string): Request {
    Request(verb, path, "HTTP/1.1", ["Host: " + host, "Accept: */*", "Connection: Keep-Alive"] + added, body)
  }

  /**
   * A request is read back as its method, its path, the version, its own three headers, the
   * added lines in order, and the body.
   */
  lemma RequestRead(verb: string, path: string, host: string, added: seq<string>, body: string)
    requires IsVerb(verb) && OnOneLine(path) && OnOneLine(host) && CleanLines(added) && ' ' !in path
    ensures ReadRequest(RequestText(verb, path, host, added, body)) == Some(RequestOf(verb, path, host, added, body))
  {
    var own := RequestLines(verb, path, host);
    var lines := own + added;
    OpenTextIsBlock(verb, path, host);
    BlockAppend(own, added);
    OwnLinesAreClean(verb, path, host);
    assert RequestText(verb, path, host, added, body) == Block(lines) + (CRLF + body);
    LinesRead(lines, body);
    assert lines[1..] == own[1..] + added;
    assert lines[0] == verb + (" " + (path + (" " + "HTTP/1.1")));
    SpaceSplit(verb, path + (" " + "HTTP/1.1"));
    SpaceSplit(path, "HTTP/1.1");
  }

  /** Looking its headers up gives the host, that everything is accepted, and a kept connection. */
  lemma OwnHeaders(verb: string, path: string, host: string, added: seq<string>, body: string)
    ensures var headers := RequestOf(verb, path, host, added, body).headers;
            && HeaderValue(headers, "Host") == Some(host)
            && HeaderValue(headers, "Accept") == Some("*/*")
            && HeaderValue(headers, "Connection") == Some("Keep-Alive")
            && headers[3..] == added
  {
    var h, a, c := "Host: " + host, "Accept: */*", "Connection: Keep-Alive";
    var headers := [h, a, c] + added;
    assert headers[1..] == [a, c] + added && headers[1..][1..] == [c] + added;
    assert h[6..] == host && a[8..] == "*/*" && c[12..] == "Keep-Alive";
    assert "Host" + ": " == "Host: " && "Accept" + ": " == "Accept: " && "Connection" + ": " == "Connection: ";
    assert "Accept: "[0] != h[0] && "Connection: "[0] != h[0] && "Connection: "[0] != a[0];
    assert HeaderValue([c] + added, "Connection") == Some("Keep-Alive");
    assert HeaderValue([a, c] + added, "Connection") == HeaderValue([c] + added, "Connection");
  }

  // ----- The three calls -----

  /** Only a proper prefix of the text was sent. */
  ghost predicate SentPart(output: string, output0: string, text: string) {
    exists k :: 0 <= k < |text| && output == output0 + text[..k]
  }

  /** A buffer holding a text. */
  method BufferOf(s: string) returns (a: array<char>)
    ensures fresh(a) && a[..] == s
  {
    a := new char[|s|](i requires 0 <= i < |s| => s[i]);
  }

  lemma SentPartOfMore(output: string, output0: string, text: string, more: string)
    requires SentPart(output, output0, text)
    ensures SentPart(output, output0, text + more)
  {
    var k :| 0 <= k < |text| && output == output0 + text[..k];
    assert (text + more)[..k] == text[..k];
  }

  /** Send a whole text and report whether all of it was sent. */
  method SendText(sock: Socket, text: string) returns (res: int)
    modifies sock`output, sock`sendResults
    ensures res == EXEC_SUCCESS || res == EXEC_ERROR
    ensures res == EXEC_SUCCESS ==> sock.output == old(sock.output) + text
    ensures res == EXEC_ERROR ==> SentPart(sock.output, old(sock.output), text)
    ensures sock.reliable ==> res == EXEC_SUCCESS
  {
    var buffer := BufferOf(text);
    var r := TcpSendAll(sock, buffer, buffer.Length);
    assert buffer[..] == text;
    if r == buffer.Length {
      assert buffer[..r] == text;
      res := EXEC_SUCCESS;
    } else {
      ghost var k := if r > 0 then r else 0;
      assert buffer[..k] == text[..k] && sock.output == old(sock.output) + text[..k];
      res := EXEC_ERROR;
    }
  }

  /**
   * Start a request. The text must fit the function's own buffer of 2048 bytes.
   */
  method HttpOpenRequest(sock: Socket, verb: string, path: string, host: string) returns (res: int)
    requires IsVerb(verb) ==> |OpenText(verb, path, host)| < 2048
    modifies sock`output, sock`sendResults
    ensures res == -1 <==> verb != "GET" && verb != "POST"
    ensures res == -1 ==> sock.output == old(sock.output)
    ensures res == EXEC_SUCCESS ==>
              sock.output == old(sock.output)
                             + (verb + " " + path + " HTTP/1.1" + "\r\n" + "Host: " + host + "\r\n"
                                + "Accept: */*" + "\r\n" + "Connection: Keep-Alive" + "\r\n")
    ensures res == EXEC_SUCCESS ==> sock.output == old(sock.output) + OpenText(verb, path, host)
    ensures res == EXEC_ERROR ==> SentPart(sock.output, old(sock.output), OpenText(verb, path, host))
    ensures sock.reliable && IsVerb(verb) ==> res == EXEC_SUCCESS
  {
    if verb != "GET" && verb != "POST" {
      return -1;
    }
    res := SendText(sock, OpenText(verb, path, host));
    OpenTextIs(verb, path, host);
  }

  /** Add a header text, which may be absent (a null pointer). */
  method HttpSetRequestHeader(sock: Socket, header: Option<string>) returns (res: int)
    modifies sock`output, sock`sendResults
    ensures res == EXEC_SUCCESS || res == EXEC_ERROR
    ensures res == EXEC_SUCCESS ==> sock.output == old(sock.output) + if header.Some? then header.value else ""
    ensures res == EXEC_ERROR ==> header.Some? && SentPart(sock.output, old(sock.output), header.value)
    ensures sock.reliable ==> res == EXEC_SUCCESS
  {
    var text := if header.Some? then header.value else "";
    res := SendText(sock, text);
  }

  /** End the head and send the first n bytes of data. */
  method HttpSendRequest(sock: Socket, data: array<char>, n: nat) returns (res: int)
    requires n <= data.Length
    modifies sock`output, sock`sendResults
    ensures res == EXEC_SUCCESS || res == EXEC_ERROR
    ensures res == EXEC_SUCCESS ==> sock.output == old(sock.output) + (CRLF + data[..n])
    ensures res == EXEC_ERROR ==> SentPart(sock.output, old(sock.output), CRLF + data[..n])
    ensures sock.reliable ==> res == EXEC_SUCCESS
  {
    ghost var text := CRLF + data[..n];
    res := SendText(sock, CRLF);
    if res != EXEC_SUCCESS {
      SentPartOfMore(sock.output, old(sock.output), CRLF, data[..n]);
      return EXEC_ERROR;
    }
    var r := TcpSendAll(sock, data, n);
    if r != n {
      ghost var k := if r > 0 then r else 0;
      assert text[..k + 2] == CRLF + data[..k];
      assert sock.output == old(sock.output) + text[..k + 2];
      assert SentPart(sock.output, old(sock.output), text);
      return EXEC_ERROR;
    }
    return EXEC_SUCCESS;
  }

  /**
   * A complete request by these calls: open, any number of header calls that each add any
   * number of lines, and send. If every call succeeds, exactly the request text is sent,
   * its head ends where the body starts, and what was sent is read back as the request.
   */
  method SendWholeRequest(sock: Socket, verb: string, path: string, host: string,
                          calls: seq<seq<string>>, body: array<char>)
    returns (ok: bool)
    requires IsVerb(verb) ==> |OpenText(verb, path, host)| < 2048
    requires OnOneLine(path) && OnOneLine(host)
    requires forall c :: 0 <= c < |calls| ==> CleanLines(calls[c])
    modifies sock`output, sock`sendResults
    ensures ok ==> IsVerb(verb)
    ensures ok ==> sock.output == old(sock.output) + RequestText(verb, path, host, Flatten(calls), body[..])
    ensures ok ==> IsFirstBlank(RequestText(verb, path, host, Flatten(calls), body[..]),
                                HeadLength(verb, path, host, Flatten(calls)) - 1)
    ensures ok && ' ' !in path ==>
              ReadRequest(sock.output[|old(sock.output)|..])
              == Some(RequestOf(verb, path, host, Flatten(calls), body[..]))
    ensures sock.reliable && IsVerb(verb) ==> ok
  {
    ghost var out0 := sock.output;
    ok := false;
    var res := HttpOpenRequest(sock, verb, path, host);
    if res == EXEC_SUCCESS {
      var sent := SendHeaders(sock, calls);
      if sent {
        res := HttpSendRequest(sock, body, body.Length);
        ok := res == EXEC_SUCCESS;
      }
    }
    if ok {
      assert body[..body.Length] == body[..];
      FlattenClean(calls);
      RequestFramingIff(verb, path, host, Flatten(calls), body[..]);
      Regroup(out0, OpenText(verb, path, host), Block(Flatten(calls)), CRLF, body[..]);
      assert sock.output[|out0|..] == RequestText(verb, path, host, Flatten(calls), body[..]);
      if ' ' !in path {
        RequestRead(verb, path, host, Flatten(calls), body[..]);
      }
    }
  }

  lemma Regroup(a: string, b: string, c: string, d: string, e: string)
    ensures a + b + c + (d + e) == a + (b + c + d + e)
  {
  }

  /** All header calls of a request, stopping at the first that fails. */
  method SendHeaders(sock: Socket, calls: seq<seq<string>>) returns (ok: bool)
    modifies sock`output, sock`sendResults
    ensures ok ==> sock.output == old(sock.output) + Block(Flatten(calls))
    ensures sock.reliable ==> ok
  {
    var i := 0;
    while i < |calls|
      invariant i <= |calls|
      invariant sock.output == old(sock.output) + Block(Flatten(calls[..i]))
    {
      FlattenSnoc(calls, i);
      BlockAppend(Flatten(calls[..i]), calls[i]);
      var res := HttpSetRequestHeader(sock, Some(Block(calls[i])));
      if res != EXEC_SUCCESS {
        return false;
      }
      i := i + 1;
    }
    assert calls[..|calls|] == calls;
    return true;
  }

  function Flatten(calls: seq<seq<string>>): seq<string> {
    if calls == [] then [] else calls[0] + Flatten(calls[1..])
  }

  lemma {:induction false} FlattenSnoc(calls: seq<seq<string>>, i: nat)
    requires i < |calls|
    ensures Flatten(calls[..i + 1]) == Flatten(calls[..i]) + calls[i]
  {
    if i == 0 {
      assert calls[..1][1..] == [];
    } else {
      FlattenSnoc(calls[1..], i - 1);
      assert calls[..i + 1][1..] == calls[1..][..i];
      assert calls[..i][1..] == calls[1..][..i - 1];
    }
  }

  lemma {:induction false} FlattenClean(calls: seq<seq<string>>)
    requires forall c :: 0 <= c < |calls| ==> CleanLines(calls[c])
    ensures CleanLines(Flatten(calls))
  {
    if calls != [] {
      FlattenClean(calls[1..]);
    }
  }
}
