/** The request text built by https_create_context_for_request in main/https_client.c. */
module Request {
  import opened Platform
  import opened CStrings

  const FORMAT := "GET %s HTTP/1.1\r\nHost: %s\r\n\r\n"

  /** sprintf, restricted to "%s" conversions. */
  function Sprintf(format: string, args: seq<string>): string
    decreases |format|
  {
    if format == [] then []
    else if |format| >= 2 && format[0] == '%' && format[1] == 's' && args != [] then
      args[0] + Sprintf(format[2..], args[1..])
    else [format[0]] + Sprintf(format[1..], args)
  }

  /** tls_request_buffer_size */
  function BufferSize(host: string, path: string): nat {
    |FORMAT| + |host| + |path|
  }

  const SURPLUS: nat := 4

  /** The request line and the Host header field of RFC 7230, sections 3.1.1 and 5.4. */
  function RequestHead(host: string, path: string): string {
    "GET " + path + " HTTP/1.1\r\n" + "Host: " + host + "\r\n" + "\r\n"
  }

  /** The bytes submitted: the whole buffer, with the NUL of sprintf and what malloc left behind it. */
  function Submitted(host: string, path: string, surplus: string): string {
    Sprintf(FORMAT, [path, host]) + [NUL] + surplus
  }

  lemma {:induction false} SprintfLiteral(literal: string, rest: string, args: seq<string>)
    requires '%' !in literal
    ensures Sprintf(literal + rest, args) == literal + Sprintf(rest, args)
    decreases |literal|
  {
    if literal == [] {
      assert literal + rest == rest;
    } else {
      var format := literal + rest;
      assert format[0] == literal[0] && literal[0] in literal;
      assert format[1..] == literal[1..] + rest;
      SprintfLiteral(literal[1..], rest, args);
      assert literal + Sprintf(rest, args) == [literal[0]] + (literal[1..] + Sprintf(rest, args));
    }
  }

  lemma SprintfArgument(arg: string, rest: string, args: seq<string>)
    ensures Sprintf("%s" + rest, [arg] + args) == arg + Sprintf(rest, args)
  {
    assert ("%s" + rest)[2..] == rest && ([arg] + args)[1..] == args;
  }

  const GET := "GET "
  const MIDDLE := " HTTP/1.1\r\nHost: "
  const END := "\r\n\r\n"

  lemma Printed(host: string, path: string)
    ensures Sprintf(FORMAT, [path, host]) == GET + (path + (MIDDLE + (host + END)))
  {
    assert FORMAT == GET + ("%s" + (MIDDLE + ("%s" + END)));
    assert [path, host] == [path] + [host];
    SprintfLiteral(GET, "%s" + (MIDDLE + ("%s" + END)), [path] + [host]);
    SprintfArgument(path, MIDDLE + ("%s" + END), [host]);
    PrintedTail(host);
  }

  lemma PrintedTail(host: string)
    ensures Sprintf(MIDDLE + ("%s" + END), [host]) == MIDDLE + (host + END)
  {
    SprintfLiteral(MIDDLE, "%s" + END, [host]);
    assert [host] == [host] + [];
    SprintfArgument(host, END, []);
    assert END == END + [];
    SprintfLiteral(END, [], []);
  }

  lemma HeadLayout(host: string, path: string)
    ensures RequestHead(host, path) == GET + (path + (MIDDLE + (host + END)))
  {
    assert MIDDLE == " HTTP/1.1\r\n" + "Host: " && END == "\r\n" + "\r\n";
  }

  /** For all hosts and paths: what is printed is exactly the request line and the Host header, the buffer
      holds it with its NUL, and the bytes submitted are it and four surplus bytes. */
  lemma RequestIsWellFormed(host: string, path: string, surplus: string)
    requires |surplus| == SURPLUS - 1
    ensures Sprintf(FORMAT, [path, host]) == RequestHead(host, path)
    ensures |Sprintf(FORMAT, [path, host])| + 1 <= BufferSize(host, path)
    ensures |Submitted(host, path, surplus)| == BufferSize(host, path) == |RequestHead(host, path)| + SURPLUS
    ensures RequestHead(host, path) <= Submitted(host, path, surplus)
  {
    Printed(host, path);
    HeadLayout(host, path);
    assert |FORMAT| == 29 && |GET| == 4 && |MIDDLE| == 17 && |END| == 4;
  }

  // ---------- Reading the host back ----------

  const KEY := "Host: "

  lemma RequestLayout(host: string, path: string)
    ensures var head := RequestHead(host, path);
      && |head| == 25 + |path| + |host|
      && head[..4] == "GET " && head[4..4 + |path|] == path
      && head[4 + |path|..15 + |path|] == " HTTP/1.1\r\n" && head[15 + |path|..21 + |path|] == KEY
      && head[21 + |path|..] == host + "\r\n\r\n"
  {
  }

  const VERSION := " HTTP/1.1\r\n"

  lemma Letters()
    ensures forall k :: 0 <= k < 4 ==> GET[k] != 'H'
    ensures forall k :: 0 <= k < 11 && VERSION[k] == 'H' ==> k == 1
    ensures VERSION[0] == ' ' && VERSION[2] == 'T' && KEY[0] == 'H' && KEY[1] == 'o'
    ensures forall k :: 0 <= k < 6 && KEY[k] == ' ' ==> k == 5
  {
  }

  /** Around the path there is no "Ho" before the Host header. */
  lemma HeadLetters(host: string, path: string)
    ensures var head, p := RequestHead(host, path), 4 + |path|;
      && |head| > p + 11 && head[p] == ' ' && head[4..p + 1] == path + " "
      && (forall k :: 0 <= k < 4 ==> head[k] != 'H')
      && (forall k :: p <= k < p + 11 && head[k] == 'H' ==> head[k + 1] != 'o')
  {
    var head, p := RequestHead(host, path), 4 + |path|;
    RequestLayout(host, path);
    Letters();
    assert forall k :: 0 <= k < 4 ==> head[k] == head[..4][k];
    assert forall k :: p <= k < p + 11 ==> head[k] == head[p..p + 11][k - p];
    forall k | p <= k < p + 11 && head[k] == 'H' ensures head[k + 1] != 'o' {
      assert head[k] == VERSION[k - p];
    }
  }

  /** An occurrence of the key before the Host header lies in the path and the space after it. */
  lemma KeyBeforeHost(host: string, path: string, j: nat)
    requires j < 15 + |path| && OccursAt(RequestHead(host, path), KEY, j)
    ensures j >= 4 && OccursAt(path + " ", KEY, j - 4)
  {
    var head, p := RequestHead(host, path), 4 + |path|;
    HeadLetters(host, path);
    Letters();
    assert head[j] == head[j..j + 6][0] && head[j + 1] == head[j..j + 6][1];
    assert 0 <= p - j < 6 ==> head[j..j + 6][p - j] == ' ';
    assert head[4..p + 1][j - 4..j + 2] == head[j..j + 6];
  }

  lemma KeyInPath(host: string, path: string, i: nat)
    requires OccursAt(path + " ", KEY, i)
    ensures OccursAt(RequestHead(host, path), KEY, i + 4)
  {
    var head, p := RequestHead(host, path), 4 + |path|;
    RequestLayout(host, path);
    HeadLetters(host, path);
    assert head[4..p + 1][i..i + 6] == head[i + 4..i + 10];
  }

  /** http_parse_key_value_string with the key "Host: " recovers every host, into any output that has room for it and
      its NUL, if the key does not occur in the path together with the space behind it. */
  lemma HostRecovered(host: string, path: string, strLen: int)
    requires OneLine(host) && strLen >= |host| + 1 && !Contains(path + " ", KEY)
    ensures KeyValueString(RequestHead(host, path), KEY, strLen) == Some(host)
  {
    var head, at := RequestHead(host, path), 15 + |path|;
    RequestLayout(host, path);
    assert OccursAt(head, KEY, at);
    FirstIs(head, KEY, at, host, path);
    LineIs(host, "\r\n\r\n");
  }

  /** With more room than the host needs, a host without a slash is recovered from the request if and only if the key
      does not occur in the path, or at its end together with the space that follows it. */
  lemma HostRecoveredIff(host: string, path: string, strLen: int)
    requires OneLine(path) && OneLine(host) && '/' !in host && strLen >= |host| + 2
    ensures KeyValueString(RequestHead(host, path), KEY, strLen) == Some(host) <==> !Contains(path + " ", KEY)
  {
    if !Contains(path + " ", KEY) {
      HostRecovered(host, path, strLen);
    } else {
      HostMisread(host, path, strLen);
      var line := (path + PROTOCOL)[Find(path + " ", KEY).value + 6..];
      assert line[|line| - 4] == PROTOCOL[5] == '/';
    }
  }

  lemma FirstIs(head: string, key: string, at: nat, host: string, path: string)
    requires head == RequestHead(host, path) && key == KEY && OccursAt(head, KEY, at) && at <= 15 + |path|
    requires forall j: nat :: j + 4 < at ==> !OccursAt(path + " ", KEY, j)
    ensures Find(head, KEY) == Some(at)
  {
    forall j: nat | j < at ensures !OccursAt(head, KEY, j) {
      if OccursAt(head, KEY, j) { KeyBeforeHost(host, path, j); }
    }
    FindIs(head, KEY, at);
  }

  const PROTOCOL := " HTTP/1.1"

  /** The line behind a key that occurs in the path. */
  lemma LineBehindKey(host: string, path: string, i: nat)
    requires OneLine(path) && i + 6 <= |path| + 1
    ensures Line(RequestHead(host, path)[i + 10..]) == (path + PROTOCOL)[i + 6..]
  {
    var rest := "\r\nHost: " + (host + END);
    HeadLayout(host, path);
    assert MIDDLE == PROTOCOL + "\r\nHost: ";
    var line := path + PROTOCOL;
    assert RequestHead(host, path) == GET + (line + rest);
    assert RequestHead(host, path)[i + 10..] == line[i + 6..] + rest;
    forall c | c in line[i + 6..] ensures !EndsLine(c) {
      assert c in line;
    }
    LineIs(line[i + 6..], rest);
  }

  /** Conversely, if the key does occur there, the rest of the path and the protocol are taken for the host. */
  lemma HostMisread(host: string, path: string, strLen: int)
    requires OneLine(path) && Contains(path + " ", KEY)
    ensures var i := Find(path + " ", KEY).value;
      i + 6 <= |path| + 1 &&
      KeyValueString(RequestHead(host, path), KEY, strLen) == Some(Truncate((path + PROTOCOL)[i + 6..], strLen - 1))
  {
    hide Line;
    var i := Find(path + " ", KEY).value;
    KeyInPath(host, path, i);
    RequestLayout(host, path);
    FirstIs(RequestHead(host, path), KEY, i + 4, host, path);
    LineBehindKey(host, path, i);
  }
}
