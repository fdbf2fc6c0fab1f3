/** When the opening handshake opens a connection, and when it does not. */
module UpgradeLaws {
  import opened Bytes
  import opened Http
  import opened HttpLaws
  import opened Handshake
  import opened HandshakeLaws
  import opened Connection

  /** An end or an error before the blank line is the end of the handshake, whatever would have come. */
  lemma {:induction false} EndBeforeBlankLine(buf: string, chunks: seq<seq<byte>>, more: seq<seq<byte>>)
    requires Cut(chunks) && FindBlank(buf + Chars(Flat(chunks))).None?
    ensures ReadHead(buf, chunks + [[]] + more) == None
    decreases |chunks|
  {
    hide FindBlank, Recv, Chars;
    var all := chunks + [[]] + more;
    if FindBlank(buf).Some? {
      BlankSurvives(buf, Chars(Flat(chunks)));
    } else if chunks == [] {
      assert all[0] == [];
    } else {
      assert chunks[0] in chunks && all[0] == chunks[0] && all[1..] == chunks[1..] + [[]] + more;
      var buf' := buf + Chars(Recv(chunks[0], CHUNK));
      CharsConcat(chunks[0], Flat(chunks[1..]));
      assert buf + Chars(Flat(chunks)) == buf' + Chars(Flat(chunks[1..]));
      EndBeforeBlankLine(buf', chunks[1..], more);
    }
  }

  /** The library answers a rendered request with 101 exactly when all it asks for is there. */
  lemma LibraryAnswers(verb: string, path: string, version: string, hs: seq<Header>, rest: string)
    requires IsWord(verb) && IsWord(path) && IsWord(version) && WellFormed(hs)
    ensures var m := HeaderMap(hs);
      Reply(Render(verb, path, version, hs) + rest)
      == if && Lower(verb) == "get" && Lower(version) == "http/1.1"
            && "upgrade" in m && HasToken(m["upgrade"], "websocket")
            && "connection" in m && HasToken(m["connection"], "upgrade")
            && "sec-websocket-" + "version" in m && Trim(m["sec-websocket-" + "version"]) == "13"
            && "sec-websocket-" + "key" in m
         then Switching(AcceptValue(m["sec-websocket-" + "key"]))
         else "HTTP/1.1 400 Bad Request\r\nContent-Length: 0\r\n\r\n"
  {
    hide HeaderMap, HasToken, Trim, Lower, Render, ParseRequest, AcceptValue, Switching;
    RenderRoundTrip(verb, path, version, hs, rest);
  }

  /** The server answers exactly those with GET, HTTP/1.1 and a key. */
  lemma ServerAnswers(verb: string, path: string, version: string, hs: seq<Header>, rest: string)
    requires IsWord(verb) && IsWord(path) && IsWord(version) && WellFormed(hs)
    ensures var m := HeaderMap(hs);
      ServerReply(Render(verb, path, version, hs) + rest)
      == if Lower(verb) == "get" && Lower(version) == "http/1.1" && "sec-websocket-" + "key" in m
         then Some(Switching(AcceptValue(m["sec-websocket-" + "key"])))
         else None
  {
    hide HeaderMap, HasToken, Trim, Lower, Render, ParseRequest, AcceptValue, Switching;
    RenderRoundTrip(verb, path, version, hs, rest);
  }

  /** The request the server acts on, with what it asks of one. */
  ghost predicate Acceptable(req: Option<HttpRequest>)
  {
    && req.Some? && Lower(req.value.verb) == "get" && Lower(req.value.version) == "http/1.1"
    && "sec-websocket-" + "key" in req.value.headers
  }

  /**
   A handshake, from what was received: it opens if and only if a blank line is complete within the
   limit, the request has GET, HTTP/1.1 and a key, and the answer could be sent. The answer goes out
   whenever the first two hold; nothing does otherwise.
   */
  lemma HandshakeExactly(chunks: seq<seq<byte>>, candidate: int, sendOk: bool)
    requires Cut(chunks)
    ensures var stream := Chars(Flat(chunks));
      var blank, req, r := FindBlank(stream), ParseRequest(stream), Shake(Io(candidate, chunks, sendOk));
      if blank.Some? && SizeOnReaching(0, chunks, blank.value + 4) <= 32768 && Acceptable(req) then
        var answer := Send(Octets(Switching(AcceptValue(req.value.headers["sec-websocket-" + "key"]))));
        r == if sendOk then Reaction(Open(None), [answer, OnOpen]) else Reaction(Closed, [answer, OnClose])
      else r == Reaction(Closed, [OnClose])
  {
    hide FindBlank, Chars, Flat, ParseRequest, ReadHead, Switching, AcceptValue, Octets, Lower, SizeOnReaching, Cut;
    var stream := Chars(Flat(chunks));
    assert "" + stream == stream;
    if FindBlank(stream).Some? {
      ReadHeadOfStream(chunks, FindBlank(stream).value);
    } else {
      NoBlankNoRequest("", chunks);
    }
  }

  /** The library's client opens a connection, however its request is cut, if the answer can be sent. */
  lemma ClientOpens(host: string, port: int, path: string, rest: string, chunks: seq<seq<byte>>, candidate: int)
    requires OneLine(host) && IsWord(path) && |ClientRequest(host, port, path)| <= 30721
    requires Cut(chunks) && Chars(Flat(chunks)) == ClientRequest(host, port, path) + rest
    ensures Shake(Io(candidate, chunks, true))
         == Reaction(Open(None), [Send(Octets(Switching(AcceptValue("dGhlIHNhbXBsZSBub25jZQ==")))), OnOpen])
    ensures Shake(Io(candidate, chunks, false)).conn == Closed
  {
    hide FindBlank, Chars, Flat, ParseRequest, Switching, AcceptValue, Octets, ClientRequest, SizeOnReaching, Cut;
    hide HasToken, Trim, Shake;
    HandshakeExactly(chunks, candidate, true);
    HandshakeExactly(chunks, candidate, false);
    ClientIsAccepted(host, port, path, rest);
    BlankOfClient(host, port, path, rest);
    SizeGrows(0, chunks, |ClientRequest(host, port, path)|);
  }

  lemma BlankOfClient(host: string, port: int, path: string, rest: string)
    requires OneLine(host) && IsWord(path)
    ensures var s := ClientRequest(host, port, path);
      |s| >= 4 && FindBlank(s + rest) == Some(|s| - 4)
  {
    hide FindBlank, ClientRequest, ClientHeaders, HeaderLines, OneLine, JoinLines;
    var line, hs := RequestLine("GET", path, "HTTP/1.1"), ClientHeaders(host, port);
    ClientRequestIsRendered(host, port, path);
    ClientHeadersWellFormed(host, port);
    RequestLineIsPlain("GET", path, "HTTP/1.1");
    HeadReadsBack(line, hs, rest);
  }
}
