/** What the opening handshake promises: the same request however it is cut, and a well-formed answer. */
module HandshakeLaws {
  import opened Bytes
  import opened Http
  import opened HttpLaws
  import opened Handshake
  import Base64
  import Fips180

  // ----- the read loop and the cutting of its input

  /** Chunks as a stream socket may deliver them to the loop: never empty, never above the buffer size. */
  ghost predicate Cut(chunks: seq<seq<byte>>)
  {
    forall c :: c in chunks ==> 1 <= |c| <= 2048
  }

  /** How much is in the buffer when it first holds `target` characters, starting from `n`. */
  function SizeOnReaching(n: nat, chunks: seq<seq<byte>>, target: nat): nat
    decreases |chunks|
  {
    if n >= target || chunks == [] then n else SizeOnReaching(n + |chunks[0]|, chunks[1..], target)
  }

  lemma CharsConcat(a: seq<byte>, b: seq<byte>)
    ensures Chars(a + b) == Chars(a) + Chars(b)
  {
  }

  lemma PrefixBlank(s: string, k: nat)
    requires k <= |s| && FindBlank(s).Some?
    ensures FindBlank(s[..k]) == if FindBlank(s).value + 4 <= k then FindBlank(s) else None
  {
    var p := FindBlank(s).value;
    if FindBlank(s[..k]).Some? {
      var q := FindBlank(s[..k]).value;
      assert BlankAt(s, q);
    }
    if p + 4 <= k { assert BlankAt(s[..k], p); }
  }

  /**
   The loop hands on a request exactly when the buffer is within the limit at the moment the first
   blank line is complete; what it hands on then parses like the whole stream.
   */
  lemma {:induction false} ReadHeadExactly(buf: string, chunks: seq<seq<byte>>, p: nat)
    requires Cut(chunks) && |buf| <= HEAD_LIMIT
    requires FindBlank(buf + Chars(Flat(chunks))) == Some(p)
    ensures ReadHead(buf, chunks).Some? <==> SizeOnReaching(|buf|, chunks, p + 4) <= 32768
    ensures ReadHead(buf, chunks).Some?
        ==> ParseRequest(ReadHead(buf, chunks).value) == ParseRequest(buf + Chars(Flat(chunks)))
    decreases |chunks|
  {
    hide FindBlank, ParseRequest, Recv, Chars;
    var stream := buf + Chars(Flat(chunks));
    assert stream[..|buf|] == buf;
    PrefixBlank(stream, |buf|);
    if |buf| >= p + 4 {
      OnlyTheHeadMatters(buf, Chars(Flat(chunks)));
    } else {
      var c := chunks[0];
      assert c in chunks;
      var buf' := buf + Chars(Recv(c, CHUNK));
      CharsConcat(c, Flat(chunks[1..]));
      assert stream == buf' + Chars(Flat(chunks[1..]));
      if |buf'| <= HEAD_LIMIT {
        ReadHeadExactly(buf', chunks[1..], p);
      } else {
        SizeGrows(|buf'|, chunks[1..], p + 4);
      }
    }
  }

  lemma {:induction false} SizeGrows(n: nat, chunks: seq<seq<byte>>, target: nat)
    requires Cut(chunks)
    ensures n <= SizeOnReaching(n, chunks, target)
    ensures n < target ==> SizeOnReaching(n, chunks, target) < target + CHUNK
    ensures SizeOnReaching(n, chunks, target) <= n + |Flat(chunks)|
    decreases |chunks|
  {
    if n < target && chunks != [] {
      assert chunks[0] in chunks;
      SizeGrows(n + |chunks[0]|, chunks[1..], target);
    }
  }

  lemma BlankSurvives(s: string, t: string)
    requires FindBlank(s).Some?
    ensures FindBlank(s + t).Some?
  {
    assert BlankAt(s + t, FindBlank(s).value);
  }

  /** A stream without a blank line is never handed on. */
  lemma {:induction false} NoBlankNoRequest(buf: string, chunks: seq<seq<byte>>)
    requires Cut(chunks) && FindBlank(buf + Chars(Flat(chunks))).None?
    ensures ReadHead(buf, chunks).None?
    decreases |chunks|
  {
    hide FindBlank, Recv, Chars;
    var stream := buf + Chars(Flat(chunks));
    if FindBlank(buf).Some? {
      BlankSurvives(buf, Chars(Flat(chunks)));
    } else if chunks != [] {
      assert chunks[0] in chunks;
      var buf' := buf + Chars(Recv(chunks[0], CHUNK));
      CharsConcat(chunks[0], Flat(chunks[1..]));
      assert stream == buf' + Chars(Flat(chunks[1..]));
      NoBlankNoRequest(buf', chunks[1..]);
    }
  }

  /** The same for a connection's whole stream: the loop starts with an empty buffer. */
  lemma ReadHeadOfStream(chunks: seq<seq<byte>>, p: nat)
    requires Cut(chunks) && FindBlank(Chars(Flat(chunks))) == Some(p)
    ensures ReadHead("", chunks).Some? <==> SizeOnReaching(0, chunks, p + 4) <= 32768
    ensures ReadHead("", chunks).Some?
        ==> ParseRequest(ReadHead("", chunks).value) == ParseRequest(Chars(Flat(chunks)))
  {
    hide FindBlank, Chars, Flat, ParseRequest, ReadHead;
    assert "" + Chars(Flat(chunks)) == Chars(Flat(chunks));
    ReadHeadExactly("", chunks, p);
  }

  /** Heads that end within 30721 bytes are read alike from every cutting of the stream. */
  lemma CuttingIsIrrelevant(chunks: seq<seq<byte>>, chunks': seq<seq<byte>>)
    requires Cut(chunks) && Cut(chunks') && Flat(chunks) == Flat(chunks')
    requires var p := FindBlank(Chars(Flat(chunks))); p.Some? && p.value + 4 <= 30721
    ensures var r, r' := ReadHead("", chunks), ReadHead("", chunks');
      r.Some? && r'.Some? && ParseRequest(r.value) == ParseRequest(r'.value) == ParseRequest(Chars(Flat(chunks)))
  {
    hide FindBlank, Chars, Flat, ParseRequest, ReadHead;
    var p := FindBlank(Chars(Flat(chunks))).value;
    ReadHeadOfStream(chunks, p);
    ReadHeadOfStream(chunks', p);
    SizeGrows(0, chunks, p + 4);
    SizeGrows(0, chunks', p + 4);
  }

  /** `s` in pieces as large as the buffer allows, then the chunks `more`. */
  function Pieces(s: seq<byte>, more: seq<seq<byte>>): seq<seq<byte>>
  {
    if s == [] then more
    else
      var k := if |s| <= CHUNK then |s| else CHUNK;
      [s[..k]] + Pieces(s[k..], more)
  }

  lemma {:induction false} PiecesAreACut(s: seq<byte>, more: seq<seq<byte>>)
    requires Cut(more)
    ensures Cut(Pieces(s, more)) && Flat(Pieces(s, more)) == s + Flat(more)
    decreases |s|
  {
    var chunks := Pieces(s, more);
    if s != [] {
      var k := if |s| <= CHUNK then |s| else CHUNK;
      assert chunks[1..] == Pieces(s[k..], more);
      PiecesAreACut(s[k..], more);
    }
  }

  lemma {:induction false} SizeAfterPieces(s: seq<byte>, more: seq<seq<byte>>, n: nat, target: nat)
    requires n + |s| < target
    ensures SizeOnReaching(n, Pieces(s, more), target) == SizeOnReaching(n + |s|, more, target)
    decreases |s|
  {
    var chunks := Pieces(s, more);
    if s != [] {
      var k := if |s| <= CHUNK then |s| else CHUNK;
      assert chunks[1..] == Pieces(s[k..], more);
      SizeAfterPieces(s[k..], more, n + k, target);
    }
  }

  /** The next piece is as large as the buffer allows. */
  lemma SizeAfterOnePiece(s: seq<byte>, n: nat, target: nat)
    requires s != [] && n == target - 1
    ensures SizeOnReaching(n, Pieces(s, []), target) == n + if |s| <= CHUNK then |s| else CHUNK
  {
    var chunks, k := Pieces(s, []), if |s| <= CHUNK then |s| else CHUNK;
    assert chunks == [s[..k]] + Pieces(s[k..], []);
    assert chunks[1..] == Pieces(s[k..], []);
    assert SizeOnReaching(n, chunks, target) == SizeOnReaching(n + k, chunks[1..], target);
  }

  /** A cutting that is refused: all but the last byte of the head, then as much as one receive may bring. */
  lemma RefusedCutting(stream: seq<byte>, p: nat) returns (chunks: seq<seq<byte>>)
    requires FindBlank(Chars(stream)) == Some(p) && 30721 < p + 4 && 32768 < |stream|
    ensures Cut(chunks) && Flat(chunks) == stream && ReadHead("", chunks).None?
  {
    hide FindBlank, Chars, Pieces, Flat, SizeOnReaching, Cut, ReadHead, ParseRequest;
    var head, rest := stream[..p + 3], stream[p + 3..];
    chunks := Pieces(head, Pieces(rest, []));
    NothingLeft();
    PiecesAreACut(rest, []);
    PiecesAreACut(head, Pieces(rest, []));
    assert head + (rest + []) == stream;
    SizeAfterPieces(head, Pieces(rest, []), 0, p + 4);
    SizeAfterOnePiece(rest, p + 3, p + 4);
    ReadHeadOfStream(chunks, p);
  }

  lemma NothingLeft()
    ensures Cut([]) && Flat([]) == []
  {
  }

  /**
   The bound is exact: a stream with a blank line can be cut so that its request is refused if and
   only if the head ends after 30721 bytes and the stream itself is above the limit.
   */
  lemma SomeCuttingIsRefused(stream: seq<byte>)
    requires FindBlank(Chars(stream)).Some?
    ensures (exists chunks :: Cut(chunks) && Flat(chunks) == stream && ReadHead("", chunks).None?)
       <==> 30721 < FindBlank(Chars(stream)).value + 4 && 32768 < |stream|
  {
    hide FindBlank, Chars, Flat, SizeOnReaching, Cut, ReadHead, ParseRequest;
    var p := FindBlank(Chars(stream)).value;
    if 30721 < p + 4 && 32768 < |stream| {
      var chunks := RefusedCutting(stream, p);
    }
    if chunks :| Cut(chunks) && Flat(chunks) == stream && ReadHead("", chunks).None? {
      ReadHeadOfStream(chunks, p);
      SizeGrows(0, chunks, p + 4);
    }
  }

  /** The largest the buffer gets. */
  function Peak(buf: string, chunks: seq<seq<byte>>): nat
    decreases |chunks|
  {
    if FindBlank(buf).Some? || chunks == [] then |buf|
    else
      var buf' := buf + Chars(Recv(chunks[0], CHUNK));
      if |buf'| > HEAD_LIMIT then |buf'| else Peak(buf', chunks[1..])
  }

  lemma {:induction false} BufferIsBounded(buf: string, chunks: seq<seq<byte>>)
    requires |buf| <= HEAD_LIMIT
    ensures Peak(buf, chunks) <= 34816
    decreases |chunks|
  {
    if FindBlank(buf).None? && chunks != [] {
      var buf' := buf + Chars(Recv(chunks[0], CHUNK));
      if |buf'| <= HEAD_LIMIT { BufferIsBounded(buf', chunks[1..]); }
    }
  }

  // ----- the answer

  lemma EncodingCharacters(p: seq<byte>)
    ensures OneLine(Base64.Encode(p)) && forall c :: c in Base64.Encode(p) ==> !IsSpace(c)
  {
    Base64.EncodedShape(p);
    forall i | 0 <= i < |Base64.Encode(p)| ensures !IsSpace(Base64.Encode(p)[i]) {
    }
  }

  /** The accept value: 28 characters, none of them white space, that decode to the digest of key and GUID. */
  lemma AcceptShape(key: string)
    ensures var accept := AcceptValue(key);
      && |accept| == 28 && OneLine(accept) && (forall c :: c in accept ==> !IsSpace(c))
      && Base64.Decode(accept) == Some(Fips180.Digest(Octets(key) + Octets("258EAFA5-E914-47DA-95CA-C5AB0DC85B11")))
  {
    hide Fips180.Digest, Base64.Encode, Base64.Decode, OneLine, IsSpace;
    var d := Fips180.Digest(Octets(key + GUID));
    assert Octets(key + GUID) == Octets(key) + Octets(GUID);
    Base64.EncodedShape(d);
    Base64.DecodeEncoded(d);
    EncodingCharacters(d);
  }

  lemma StatusLine()
    ensures OneLine("HTTP/1.1 101 Switching Protocols")
  {
  }

  /** The three headers of the answer. */
  function AnswerHeaders(accept: string): seq<Header>
  {
    [Header("Upgrade", " " + "websocket"), Header("Connection", " " + "Upgrade"),
     Header("Sec-WebSocket-" + "Accept", " " + accept)]
  }

  lemma AnswerHeadersWellFormed(accept: string)
    requires OneLine(accept)
    ensures WellFormed(AnswerHeaders(accept))
  {
    hide OneLine;
    PlainNames();
    PlainParts();
    PlainValues();
    OneLineConcat("Sec-WebSocket-", "Accept");
    OneLineConcat(" ", "websocket");
    OneLineConcat(" ", "Upgrade");
    OneLineConcat(" ", accept);
  }

  lemma AnswerHeaderMap(accept: string)
    requires forall c :: c in accept ==> !IsSpace(c)
    ensures HeaderMap(AnswerHeaders(accept))
         == map["upgrade" := "websocket", "connection" := "Upgrade", ACCEPT_HEADER := accept]
  {
    hide Lower, Trim, HeaderMap;
    var hs := AnswerHeaders(accept);
    LowerUpgradeName();
    LowerConnectionName();
    LowerAcceptName();
    TrimOneSpace("websocket");
    TrimOneSpace("Upgrade");
    TrimOneSpace(accept);
    NoHeadersNoMap();
    AppendHeader([], hs[0]);
    AppendHeader([hs[0]], hs[1]);
    AppendHeader([hs[0], hs[1]], hs[2]);
    assert [] + [hs[0]] == [hs[0]] && [hs[0]] + [hs[1]] == [hs[0], hs[1]] && [hs[0], hs[1]] + [hs[2]] == hs;
    assert |"upgrade"| == 7 && |"connection"| == 10 && |ACCEPT_HEADER| == 20;
  }

  lemma NoHeadersNoMap()
    ensures HeaderMap([]) == map[]
  {
  }

  lemma SwitchingLines(accept: string)
    ensures Switching(accept)
         == JoinLines(["HTTP/1.1 101 Switching Protocols"] + HeaderLines(AnswerHeaders(accept))) + "\r\n\r\n"
  {
    hide HeaderLine, JoinLines, Field;
    FieldLine("Upgrade", "websocket");
    FieldLine("Connection", "Upgrade");
    FieldLine("Sec-WebSocket-" + "Accept", accept);
    JoinFour(["HTTP/1.1 101 Switching Protocols"] + HeaderLines(AnswerHeaders(accept)));
  }

  /** The only blank line of a 101 answer is at its end, and its headers read back as the three that were meant. */
  lemma SwitchingShape(key: string)
    ensures var s := Switching(AcceptValue(key));
      && FindBlank(s) == Some(|s| - 4)
      && Lines(s[..|s| - 4]) != [] && Chomp(Lines(s[..|s| - 4])[0]) == "HTTP/1.1 101 Switching Protocols"
      && AddHeaders(map[], Lines(s[..|s| - 4])[1..])
         == map["upgrade" := "websocket", "connection" := "Upgrade", ACCEPT_HEADER := AcceptValue(key)]
  {
    hide AcceptValue, AddHeaders, Switching, HeaderMap, HeaderLines, AnswerHeaders;
    hide JoinLines, Lines, FindBlank, OneLine;
    var accept, first := AcceptValue(key), "HTTP/1.1 101 Switching Protocols";
    AcceptShape(key);
    StatusLine();
    AnswerHeadersWellFormed(accept);
    AnswerHeaderMap(accept);
    SwitchingLines(accept);
    HeadReadsBack(first, AnswerHeaders(accept), "");
    var s, head := Switching(accept), JoinLines([first] + HeaderLines(AnswerHeaders(accept)));
    assert s + "" == s && s[..|head|] == head;
  }

  lemma OneLineConcat(a: string, b: string)
    requires OneLine(a) && OneLine(b)
    ensures OneLine(a + b)
  {
  }

  lemma JoinFour(ls: seq<string>)
    requires |ls| == 4
    ensures JoinLines(ls) == ls[0] + "\r\n" + ls[1] + "\r\n" + ls[2] + "\r\n" + ls[3]
  {
    assert ls[1..][1..] == ls[2..] && ls[2..][1..] == ls[3..];
    assert JoinLines(ls[3..]) == ls[3];
    assert JoinLines(ls[2..]) == ls[2] + "\r\n" + ls[3];
  }

  /** A request the library's own check accepts gets the same 101 answer from the server, byte for byte. */
  lemma AcceptedByBoth(raw: string)
    requires ParseRequest(raw).Some? && ValidUpgrade(ParseRequest(raw).value)
    ensures var key := ParseRequest(raw).value.headers[KEY_HEADER];
      ServerReply(raw) == Some(Reply(raw)) && Reply(raw) == Switching(AcceptValue(key)) && |AcceptValue(key)| == 28
  {
    AcceptShape(ParseRequest(raw).value.headers[KEY_HEADER]);
  }

  /** The server answers as the library's check would have it exactly when that check accepts. */
  lemma SameAnswerExactly(raw: string)
    ensures ServerReply(raw) == Some(Reply(raw)) <==> ParseRequest(raw).Some? && ValidUpgrade(ParseRequest(raw).value)
  {
    hide Switching, AcceptValue, ParseRequest, ValidUpgrade;
    if ParseRequest(raw).Some? && ValidUpgrade(ParseRequest(raw).value) {
      AcceptedByBoth(raw);
    } else if ServerReply(raw).Some? {
      SwitchingIsNotBad(AcceptValue(ParseRequest(raw).value.headers[KEY_HEADER]));
    }
  }

  // ----- the client's request

  lemma {:induction false} DigitsAreOneLine(n: nat)
    ensures OneLine(Digits(n))
  {
    if n >= 10 { DigitsAreOneLine(n / 10); }
  }

  /** The number a string of digits denotes. */
  function Number(s: string): int
  {
    if s == "" then 0 else 10 * Number(s[..|s| - 1]) + (s[|s| - 1] as int - '0' as int)
  }

  lemma {:induction false} DigitsReadBack(n: nat)
    ensures Number(Digits(n)) == n && Digits(n) != "" && forall c :: c in Digits(n) ==> '0' <= c <= '9'
  {
    var d := ['0' + (n % 10) as char];
    if n < 10 {
      assert d[..0] == "";
    } else {
      DigitsReadBack(n / 10);
      assert (Digits(n / 10) + d)[..|Digits(n / 10)|] == Digits(n / 10);
    }
  }

  /** A port reads back, its sign before it. */
  lemma DecimalReadsBack(n: int)
    ensures if n < 0 then Decimal(n)[0] == '-' && Number(Decimal(n)[1..]) == -n else Number(Decimal(n)) == n
  {
    hide Digits, Number;
    if n < 0 {
      DigitsReadBack(-n);
      assert Decimal(n)[1..] == Digits(-n);
    } else {
      DigitsReadBack(n);
    }
  }

  lemma DecimalIsOneLine(n: int)
    ensures OneLine(Decimal(n))
  {
    if n < 0 { DigitsAreOneLine(-n); } else { DigitsAreOneLine(n); }
  }

  /** The five headers of the client. */
  function ClientHeaders(host: string, port: int): seq<Header>
  {
    [Header("Host", " " + (host + ":" + Decimal(port))), Header("Upgrade", " " + "websocket"),
     Header("Connection", " " + "Upgrade"), Header("Sec-WebSocket-" + "Key", " " + "dGhlIHNhbXBsZSBub25jZQ=="),
     Header("Sec-WebSocket-" + "Version", " " + "13")]
  }

  lemma FieldLine(name: string, value: string)
    ensures HeaderLine(Header(name, " " + value)) == Field(name, value)
  {
  }

  lemma TrimOneSpace(value: string)
    requires Trimmed(value)
    ensures Trim(" " + value) == value
  {
    TrimOfTrimmed(value);
    assert (" " + value)[1..] == value;
    assert TrimLeft(" " + value) == TrimLeft(value);
  }

  lemma TrimAfterSpace(value: string)
    ensures Trim(" " + value) == Trim(value)
  {
    assert (" " + value)[1..] == value;
  }

  // What the names the server looks up are once trimmed and in lower case.

  lemma LowerUpgradeName()
    ensures Lower(Trim("Upgrade")) == "upgrade"
  {
  }

  lemma LowerHostName()
    ensures Lower(Trim("Host")) == "host"
  {
  }

  lemma LowerConnectionName()
    ensures Lower(Trim("Connection")) == "connection"
  {
  }

  lemma LowerConcat(a: string, b: string)
    ensures Lower(a + b) == Lower(a) + Lower(b)
  {
  }

  lemma LowerParts()
    ensures Lower("Sec-WebSocket-") == "sec-websocket-" && Lower("Key") == "key" && Lower("Version") == "version"
    ensures Lower("Accept") == "accept"
  {
  }

  lemma TrimmedParts()
    ensures !IsSpace("Sec-WebSocket-"[0]) && !IsSpace("Key"[2]) && !IsSpace("Version"[6]) && !IsSpace("Accept"[5])
  {
  }

  lemma LowerKeyName()
    ensures Lower(Trim("Sec-WebSocket-" + "Key")) == KEY_HEADER
  {
    hide Lower, IsSpace, Trim;
    TrimmedParts();
    TrimOfTrimmed("Sec-WebSocket-" + "Key");
    LowerConcat("Sec-WebSocket-", "Key");
    LowerParts();
  }

  lemma LowerAcceptName()
    ensures Lower(Trim("Sec-WebSocket-" + "Accept")) == ACCEPT_HEADER
  {
    hide Lower, IsSpace, Trim;
    TrimmedParts();
    TrimOfTrimmed("Sec-WebSocket-" + "Accept");
    LowerConcat("Sec-WebSocket-", "Accept");
    LowerParts();
  }

  lemma LowerVersionName()
    ensures Lower(Trim("Sec-WebSocket-" + "Version")) == VERSION_HEADER
  {
    hide Lower, IsSpace, Trim;
    TrimmedParts();
    TrimOfTrimmed("Sec-WebSocket-" + "Version");
    LowerConcat("Sec-WebSocket-", "Version");
    LowerParts();
  }

  lemma PlainNames()
    ensures OneLine("Host") && OneLine("Upgrade") && OneLine("Connection")
    ensures ':' !in "Host" && ':' !in "Upgrade" && ':' !in "Connection"
  {
  }

  lemma PlainParts()
    ensures OneLine("Sec-WebSocket-") && OneLine("Key") && OneLine("Version") && OneLine("Accept")
    ensures ':' !in "Sec-WebSocket-" && ':' !in "Key" && ':' !in "Version" && ':' !in "Accept"
  {
  }

  lemma PlainValues()
    ensures OneLine("websocket") && OneLine("Upgrade") && OneLine("13") && OneLine(" ") && OneLine(":")
  {
  }

  lemma PlainKey()
    ensures OneLine("dGhlIHNhbXBsZSBub25jZQ==")
  {
  }

  lemma SampleKeyIsTrimmed()
    ensures Trimmed("dGhlIHNhbXBsZSBub25jZQ==")
  {
  }

  lemma ClientHeadersWellFormed(host: string, port: int)
    requires OneLine(host)
    ensures WellFormed(ClientHeaders(host, port))
  {
    hide OneLine, Decimal;
    PlainNames();
    PlainParts();
    OneLineConcat("Sec-WebSocket-", "Key");
    OneLineConcat("Sec-WebSocket-", "Version");
    PlainValues();
    PlainKey();
    DecimalIsOneLine(port);
    OneLineConcat(host, ":");
    OneLineConcat(host + ":", Decimal(port));
    OneLineConcat(" ", host + ":" + Decimal(port));
    OneLineConcat(" ", "websocket");
    OneLineConcat(" ", "Upgrade");
    OneLineConcat(" ", "dGhlIHNhbXBsZSBub25jZQ==");
    OneLineConcat(" ", "13");
  }

  lemma AppendHeader(hs: seq<Header>, h: Header)
    ensures HeaderMap(hs + [h]) == Put(HeaderMap(hs), h)
  {
    assert (hs + [h])[..|hs|] == hs;
  }

  /** The headers the server will look up. */
  lemma ClientHeaderMap(host: string, port: int)
    ensures var m := HeaderMap(ClientHeaders(host, port));
      && "host" in m && m["host"] == Trim(host + ":" + Decimal(port))
      && "upgrade" in m && m["upgrade"] == "websocket"
      && "connection" in m && m["connection"] == "Upgrade"
      && KEY_HEADER in m && m[KEY_HEADER] == "dGhlIHNhbXBsZSBub25jZQ=="
      && VERSION_HEADER in m && m[VERSION_HEADER] == "13"
  {
    hide Lower, Trim, HeaderMap, HeaderLine, Decimal;
    var hs := ClientHeaders(host, port);
    LowerUpgradeName();
    LowerConnectionName();
    LowerKeyName();
    LowerVersionName();
    TrimOneSpace("websocket");
    TrimOneSpace("Upgrade");
    TrimOneSpace("13");
    SampleKeyIsTrimmed();
    TrimOneSpace("dGhlIHNhbXBsZSBub25jZQ==");
    LowerHostName();
    TrimAfterSpace(host + ":" + Decimal(port));
    NoHeadersNoMap();
    AppendHeader([], hs[0]);
    assert [] + [hs[0]] == [hs[0]];
    AppendHeader([hs[0]], hs[1]);
    AppendHeader([hs[0], hs[1]], hs[2]);
    AppendHeader([hs[0], hs[1], hs[2]], hs[3]);
    AppendHeader([hs[0], hs[1], hs[2], hs[3]], hs[4]);
    assert [hs[0]] + [hs[1]] == [hs[0], hs[1]];
    assert [hs[0], hs[1]] + [hs[2]] == [hs[0], hs[1], hs[2]];
    assert [hs[0], hs[1], hs[2]] + [hs[3]] == [hs[0], hs[1], hs[2], hs[3]];
    assert [hs[0], hs[1], hs[2], hs[3]] + [hs[4]] == hs;
    assert |"host"| == 4 && |"upgrade"| == 7 && |"connection"| == 10 && |KEY_HEADER| == 17 && |VERSION_HEADER| == 21;
  }

  lemma JoinSix(ls: seq<string>)
    requires |ls| == 6
    ensures JoinLines(ls)
         == ls[0] + "\r\n" + ls[1] + "\r\n" + ls[2] + "\r\n" + ls[3] + "\r\n" + ls[4] + "\r\n" + ls[5]
  {
    assert ls[1..][1..] == ls[2..];
    JoinFour(ls[2..]);
  }

  lemma ClientRequestIsRendered(host: string, port: int, path: string)
    ensures ClientRequest(host, port, path) == Render("GET", path, "HTTP/1.1", ClientHeaders(host, port))
  {
    hide HeaderLine, JoinLines, Decimal, Field;
    var hs := ClientHeaders(host, port);
    var line := RequestLine("GET", path, "HTTP/1.1");
    FieldLine("Host", host + ":" + Decimal(port));
    FieldLine("Upgrade", "websocket");
    FieldLine("Connection", "Upgrade");
    FieldLine("Sec-WebSocket-" + "Key", "dGhlIHNhbXBsZSBub25jZQ==");
    FieldLine("Sec-WebSocket-" + "Version", "13");
    assert line == "GET " + path + " HTTP/1.1";
    JoinSix([line] + HeaderLines(hs));
  }

  lemma TokenAlone(v: string, token: string)
    requires Lower(v) == token && Trimmed(token) && ',' !in token && token != ""
    ensures HasToken(v, token)
  {
    TrimOfTrimmed(token);
    assert token[0..|token|] == token;
    assert PieceIs(token, 0, |token|, token);
  }

  /** The library's client passes the library's own check with its key, whatever follows its request. */
  lemma ClientIsAccepted(host: string, port: int, path: string, rest: string)
    requires OneLine(host) && IsWord(path)
    ensures var r := ParseRequest(ClientRequest(host, port, path) + rest);
      && r.Some? && ValidUpgrade(r.value) && r.value.path == path
      && r.value.headers[KEY_HEADER] == "dGhlIHNhbXBsZSBub25jZQ=="
      && "host" in r.value.headers && r.value.headers["host"] == Trim(host + ":" + Decimal(port))
  {
    hide HeaderMap, ClientHeaders, HasToken, Trim, ClientRequest, Render, FindBlank, ParseRequest;
    ClientRequestIsRendered(host, port, path);
    ClientHeadersWellFormed(host, port);
    RenderRoundTrip("GET", path, "HTTP/1.1", ClientHeaders(host, port), rest);
    ClientHeaderMap(host, port);
    assert Trim("13") == "13" by { TrimOfTrimmed("13"); }
    assert Lower("websocket") == "websocket";
    TokenAlone("websocket", "websocket");
    assert Lower("Upgrade") == "upgrade";
    TokenAlone("Upgrade", "upgrade");
  }

  /** A request with no header but the key. */
  function KeyOnlyRequest(key: string): string
  {
    Render("GET", "/", "HTTP/1.1", [Header("Sec-WebSocket-" + "Key", key)])
  }

  lemma KeyOnlyParses(key: string)
    requires OneLine(key)
    ensures ParseRequest(KeyOnlyRequest(key))
         == Some(HttpRequest("GET", "/", "HTTP/1.1", map[KEY_HEADER := Trim(key)]))
  {
    hide Lower, Trim, HeaderMap, Render, ParseRequest, OneLine;
    var h := Header("Sec-WebSocket-" + "Key", key);
    PlainParts();
    OneLineConcat("Sec-WebSocket-", "Key");
    RenderRoundTrip("GET", "/", "HTTP/1.1", [h], "");
    assert KeyOnlyRequest(key) + "" == KeyOnlyRequest(key);
    LowerKeyName();
    NoHeadersNoMap();
    AppendHeader([], h);
    assert [] + [h] == [h];
  }

  /** The server upgrades a request that is no WebSocket upgrade, and that the library's check refuses. */
  lemma KeyAloneIsEnough(key: string)
    requires OneLine(key)
    ensures ServerReply(KeyOnlyRequest(key)) == Some(Switching(AcceptValue(Trim(key))))
    ensures Reply(KeyOnlyRequest(key)) == "HTTP/1.1 400 Bad Request\r\nContent-Length: 0\r\n\r\n"
  {
    hide Trim, AcceptValue, Switching, ParseRequest, KeyOnlyRequest;
    KeyOnlyParses(key);
    assert |"upgrade"| == 7 && |KEY_HEADER| == 17;
    assert Lower("GET") == "get" && Lower("HTTP/1.1") == "http/1.1";
  }
}
