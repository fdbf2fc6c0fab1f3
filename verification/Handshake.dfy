/** The opening handshake of src/handshake.cpp, and the part of it src/server_impl.cpp repeats. */
module Handshake {
  import opened Bytes
  import opened Http
  import Base64
  import Fips180
  import Sha1

  const GUID := "258EAFA5-E914-47DA-95CA-C5AB0DC85B11"

  /** Size of the receive buffer, and the most the request head may grow to. */
  const CHUNK := 2048
  const HEAD_LIMIT := 32768

  // Header names in lower case, in two parts so that the verifier compares short literals.
  const KEY_HEADER := "sec-websocket-" + "key"
  const VERSION_HEADER := "sec-websocket-" + "version"
  const ACCEPT_HEADER := "sec-websocket-" + "accept"

  /** What `recv` returns when `arrived` is waiting: at most `cap` octets. Nothing waiting means end or error. */
  function Recv(arrived: seq<byte>, cap: nat): (r: seq<byte>)
    ensures |r| <= cap && (|arrived| <= cap ==> r == arrived)
  {
    if |arrived| <= cap then arrived else arrived[..cap]
  }

  /** The read loop: what is in the buffer when it sees a blank line, if it gets that far. */
  function ReadHead(buf: string, chunks: seq<seq<byte>>): Option<string>
    decreases |chunks|
  {
    if FindBlank(buf).Some? then Some(buf)
    else if chunks == [] || chunks[0] == [] then None
    else
      var buf' := buf + Chars(Recv(chunks[0], CHUNK));
      if |buf'| > HEAD_LIMIT then None else ReadHead(buf', chunks[1..])
  }

  /** The key with the GUID, hashed and encoded (section 4.2.2 of RFC 6455). */
  function AcceptValue(key: string): string
  {
    Base64.Encode(Fips180.Digest(Octets(key + GUID)))
  }

  function Field(name: string, value: string): string
  {
    name + ": " + value
  }

  function Switching(accept: string): string
  {
    "HTTP/1.1 101 Switching Protocols" + "\r\n"
    + Field("Upgrade", "websocket") + "\r\n"
    + Field("Connection", "Upgrade") + "\r\n"
    + Field("Sec-WebSocket-" + "Accept", accept) + "\r\n\r\n"
  }

  const BAD_REQUEST := "HTTP/1.1 400 Bad Request\r\nContent-Length: 0\r\n\r\n"

  /** The check of src/handshake.cpp. */
  predicate ValidUpgrade(r: HttpRequest)
  {
    && Lower(r.verb) == "get"
    && Lower(r.version) == "http/1.1"
    && "upgrade" in r.headers && HasToken(r.headers["upgrade"], "websocket")
    && "connection" in r.headers && HasToken(r.headers["connection"], "upgrade")
    && VERSION_HEADER in r.headers && Trim(r.headers[VERSION_HEADER]) == "13"
    && KEY_HEADER in r.headers
  }

  /** What src/handshake.cpp answers to a request head. */
  function Reply(raw: string): string
  {
    match ParseRequest(raw)
    case Some(r) => if ValidUpgrade(r) then Switching(AcceptValue(r.headers[KEY_HEADER])) else BAD_REQUEST
    case None => BAD_REQUEST
  }

  /** What the server of src/server_impl.cpp answers: it looks only at verb, version and key. */
  function ServerReply(raw: string): Option<string>
  {
    match ParseRequest(raw)
    case None => None
    case Some(r) =>
      if Lower(r.verb) != "get" || Lower(r.version) != "http/1.1" || KEY_HEADER !in r.headers then None
      else Some(Switching(AcceptValue(r.headers[KEY_HEADER])))
  }

  lemma SwitchingIsNotBad(accept: string)
    ensures Switching(accept) != BAD_REQUEST
  {
    assert Switching(accept)[9] == '1' && BAD_REQUEST[9] == '4';
  }

  // ----- the source's own code

  method ReadRequest(chunks: seq<seq<byte>>) returns (r: Option<string>)
    ensures r == ReadHead("", chunks)
  {
    var rbuf := "";
    var i := 0;
    while FindBlank(rbuf).None?
      invariant 0 <= i <= |chunks| && |rbuf| <= HEAD_LIMIT
      invariant ReadHead(rbuf, chunks[i..]) == ReadHead("", chunks)
      decreases |chunks| - i
    {
      var tmp := if i < |chunks| then Recv(chunks[i], CHUNK) else [];
      if |tmp| <= 0 { return None; }
      rbuf := rbuf + Chars(tmp);
      assert |rbuf| <= HEAD_LIMIT + CHUNK;
      if |rbuf| > HEAD_LIMIT { return None; }
      i := i + 1;
    }
    return Some(rbuf);
  }

  method IsValidUpgrade(r: HttpRequest) returns (ok: bool)
    ensures ok <==> ValidUpgrade(r)
  {
    hide Lower, Trim, HasToken;
    var verb := Lc(r.verb);
    if verb != "get" { return false; }
    var version := Lc(r.version);
    if version != "http/1.1" { return false; }
    if "upgrade" !in r.headers { return false; }
    var up := TokenHas(r.headers["upgrade"], "websocket");
    if !up { return false; }
    if "connection" !in r.headers { return false; }
    var co := TokenHas(r.headers["connection"], "upgrade");
    if !co { return false; }
    if VERSION_HEADER !in r.headers { return false; }
    var ve := TrimSpaces(r.headers[VERSION_HEADER]);
    if ve != "13" { return false; }
    return KEY_HEADER in r.headers;
  }

  method Accept(key: string) returns (accept: string)
    ensures accept == AcceptValue(key)
  {
    var digest := Sha1.Sha1Bytes(Octets(key + GUID));
    accept := Base64.Base64Encode(digest);
  }

  /** The free function `perform_handshake`; `sent` is what it handed to `send`. */
  method PerformHandshake(chunks: seq<seq<byte>>, sendOk: bool) returns (ok: bool, sent: Option<string>)
    ensures var head := ReadHead("", chunks);
      if head.None? then !ok && sent == None
      else sent == Some(Reply(head.value)) && (ok <==> sendOk && Reply(head.value) != BAD_REQUEST)
  {
    hide Switching, HasToken, Lower, Trim, AcceptValue, ReadHead;
    var raw := ReadRequest(chunks);
    if raw.None? { return false, None; }
    var req := ParseHttpRequest(raw.value);
    var valid := false;
    if req.Some? { valid := IsValidUpgrade(req.value); }
    if !valid { return false, Some(BAD_REQUEST); }
    var accept := Accept(req.value.headers[KEY_HEADER]);
    SwitchingIsNotBad(accept);
    return sendOk, Some(Switching(accept));
  }

  // ----- the other end: the request of src/webclient.cpp

  function Digits(n: nat): string
  {
    (if n < 10 then "" else Digits(n / 10)) + ['0' + (n % 10) as char]
  }

  /** `std::to_string` of an integer. */
  function Decimal(n: int): string
  {
    if n < 0 then "-" + Digits(-n) else Digits(n)
  }

  function ClientRequest(host: string, port: int, path: string): string
  {
    "GET " + path + " HTTP/1.1" + "\r\n"
    + Field("Host", host + ":" + Decimal(port)) + "\r\n"
    + Field("Upgrade", "websocket") + "\r\n"
    + Field("Connection", "Upgrade") + "\r\n"
    + Field("Sec-WebSocket-" + "Key", "dGhlIHNhbXBsZSBub25jZQ==") + "\r\n"
    + Field("Sec-WebSocket-" + "Version", "13") + "\r\n\r\n"
  }
}
