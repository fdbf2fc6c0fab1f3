/** The request-head parser of include/webserver/http.hpp, in the C locale. */
module Http {
  import opened Bytes

  datatype HttpRequest = HttpRequest(verb: string, path: string, version: string, headers: map<string, string>)

  // ----- characters and substrings

  predicate IsSpace(c: char)
  {
    c == ' ' || '\t' <= c <= '\r'
  }

  function LowerChar(c: char): char
  {
    if 'A' <= c <= 'Z' then (c as int + 32) as char else c
  }

  function Lower(s: string): (r: string)
    ensures |r| == |s|
  {
    seq(|s|, i requires 0 <= i < |s| => LowerChar(s[i]))
  }

  function TrimLeft(s: string): string
  {
    if s != "" && IsSpace(s[0]) then TrimLeft(s[1..]) else s
  }

  function TrimRight(s: string): string
  {
    if s != "" && IsSpace(s[|s| - 1]) then TrimRight(s[..|s| - 1]) else s
  }

  function Trim(s: string): string
  {
    TrimRight(TrimLeft(s))
  }

  /** Where `c` first occurs in `s`, or the length of `s`. */
  function Find(s: string, c: char): (i: nat)
    ensures i <= |s| && c !in s[..i] && (i < |s| ==> s[i] == c)
  {
    if s == "" || s[0] == c then 0
    else
      var i := 1 + Find(s[1..], c);
      assert s[..i] == [s[0]] + s[1..][..i - 1];
      i
  }

  predicate BlankAt(s: string, p: nat)
  {
    p + 4 <= |s| && s[p] == '\r' && s[p + 1] == '\n' && s[p + 2] == '\r' && s[p + 3] == '\n'
  }

  /** The first blank line at or after `from`. */
  function FindBlankFrom(s: string, from: nat): (r: Option<nat>)
    requires from <= |s|
    ensures r.Some? ==> from <= r.value && BlankAt(s, r.value) && forall q :: from <= q < r.value ==> !BlankAt(s, q)
    ensures r.None? ==> forall q :: from <= q ==> !BlankAt(s, q)
    decreases |s| - from
  {
    if BlankAt(s, from) then Some(from)
    else if from == |s| then None
    else FindBlankFrom(s, from + 1)
  }

  function FindBlank(s: string): (r: Option<nat>)
    ensures r.Some? ==> BlankAt(s, r.value) && forall q: nat :: q < r.value ==> !BlankAt(s, q)
    ensures r.None? ==> forall q: nat :: !BlankAt(s, q)
  {
    FindBlankFrom(s, 0)
  }

  // ----- lines and words

  /** What repeated `getline` calls deliver. */
  function Lines(s: string): seq<string>
    decreases |s|
  {
    if s == "" then []
    else
      var e := Find(s, '\n');
      if e == |s| then [s] else [s[..e]] + Lines(s[e + 1..])
  }

  /** A line without its final carriage return. */
  function Chomp(line: string): string
  {
    if line != "" && line[|line| - 1] == '\r' then line[..|line| - 1] else line
  }

  /** How many characters come before the first white space. */
  function WordLength(s: string): (n: nat)
    ensures n <= |s|
  {
    if s == "" || IsSpace(s[0]) then 0 else 1 + WordLength(s[1..])
  }

  /** What `count` extractions with `>>` deliver, if there are that many words. */
  function Words(s: string, count: nat): (r: Option<seq<string>>)
    ensures r.Some? ==> |r.value| == count
    decreases count
  {
    if count == 0 then Some([])
    else
      var t := TrimLeft(s);
      var n := WordLength(t);
      if n == 0 then None
      else
        match Words(t[n..], count - 1)
        case None => None
        case Some(ws) => Some([t[..n]] + ws)
  }

  function AddHeader(headers: map<string, string>, line: string): map<string, string>
  {
    var c := Find(line, ':');
    if c == |line| then headers
    else headers[Lower(Trim(line[..c])) := Trim(line[c + 1..])]
  }

  /** Header lines up to the first empty one; later lines overwrite earlier ones. */
  function AddHeaders(headers: map<string, string>, lines: seq<string>): map<string, string>
    decreases |lines|
  {
    if lines == [] || Chomp(lines[0]) == "" then headers
    else AddHeaders(AddHeader(headers, Chomp(lines[0])), lines[1..])
  }

  function ParseHead(head: string): Option<HttpRequest>
  {
    var lines := Lines(head);
    if lines == [] then None
    else
      match Words(Chomp(lines[0]), 3)
      case None => None
      case Some(ws) => Some(HttpRequest(ws[0], ws[1], ws[2], AddHeaders(map[], lines[1..])))
  }

  function ParseRequest(raw: string): Option<HttpRequest>
  {
    match FindBlank(raw)
    case None => None
    case Some(pos) => ParseHead(raw[..pos])
  }

  /**
   Some piece of `v` between commas, trimmed and in lower case, is `token`; an empty piece at the
   end is not looked at.
   */
  predicate HasToken(v: string, token: string)
  {
    var x := Lower(v);
    exists i, j | 0 <= i <= j <= |x| :: PieceIs(x, i, j, token)
  }

  predicate PieceIs(x: string, i: nat, j: nat, token: string)
    requires i <= j <= |x|
  {
    && i < |x|
    && (i == 0 || x[i - 1] == ',')
    && (j == |x| || x[j] == ',')
    && ',' !in x[i..j]
    && Trim(x[i..j]) == token
  }

  // ----- the source's own loops

  method Lc(s: string) returns (r: string)
    ensures r == Lower(s)
  {
    r := s;
    for i := 0 to |s|
      invariant |r| == |s|
      invariant forall j :: 0 <= j < |s| ==> r[j] == if j < i then LowerChar(s[j]) else s[j]
    {
      r := r[i := LowerChar(r[i])];
    }
  }

  method TrimSpaces(s: string) returns (r: string)
    ensures r == Trim(s)
  {
    var a, b := 0, |s|;
    while a < b && IsSpace(s[a])
      invariant 0 <= a <= b == |s|
      invariant TrimLeft(s[a..]) == TrimLeft(s)
    {
      assert s[a..][1..] == s[a + 1..];
      a := a + 1;
    }
    assert TrimLeft(s) == s[a..b];
    while b > a && IsSpace(s[b - 1])
      invariant a <= b <= |s|
      invariant TrimRight(s[a..b]) == Trim(s)
    {
      assert s[a..b][..b - a - 1] == s[a..b - 1];
      b := b - 1;
    }
    r := s[a..b];
  }

  /** One `getline` on what is left of a stream. */
  method GetLine(ss: string) returns (line: string, rest: string)
    requires ss != ""
    ensures Lines(ss) == [line] + Lines(rest) && |rest| < |ss|
  {
    hide Find;
    var e := Find(ss, '\n');
    line := ss[..e];
    rest := if e < |ss| then ss[e + 1..] else "";
    if e == |ss| { assert ss[..e] == ss; }
  }

  /** The header loop of the parser, on what is left of the stream after the request line. */
  method ReadHeaders(stream: string) returns (headers: map<string, string>)
    ensures headers == AddHeaders(map[], Lines(stream))
  {
    hide Lower, Trim, Find, Chomp;
    var ss := stream;
    headers := map[];
    while ss != ""
      invariant AddHeaders(headers, Lines(ss)) == AddHeaders(map[], Lines(stream))
      decreases |ss|
    {
      ghost var before := Lines(ss);
      var line;
      line, ss := GetLine(ss);
      assert before[0] == line && before[1..] == Lines(ss);
      line := Chomp(line);
      if line == "" { return; }
      var c := Find(line, ':');
      if c == |line| { continue; }
      var k := TrimSpaces(line[..c]);
      k := Lc(k);
      var v := TrimSpaces(line[c + 1..]);
      headers := headers[k := v];
    }
  }

  method ParseHttpRequest(raw: string) returns (r: Option<HttpRequest>)
    ensures r == ParseRequest(raw)
  {
    hide AddHeaders, Words, Find, Chomp;
    var pos := FindBlank(raw);
    if pos.None? { return None; }
    var ss := raw[..pos.value];
    if ss == "" { return None; }
    ghost var lines := Lines(ss);
    var line;
    line, ss := GetLine(ss);
    assert lines[0] == line && lines[1..] == Lines(ss);
    line := Chomp(line);
    var ws := Words(line, 3);
    if ws.None? { return None; }
    var headers := ReadHeaders(ss);
    return Some(HttpRequest(ws.value[0], ws.value[1], ws.value[2], headers));
  }

  method TokenHas(v: string, token: string) returns (found: bool)
    ensures found <==> HasToken(v, token)
  {
    hide Trim, Lower;
    var s := 0;
    var x := Lc(v);
    while s < |x|
      invariant 0 <= s <= |x|
      invariant s == 0 || s == |x| || x[s - 1] == ','
      invariant forall i, j :: 0 <= i < s && i <= j <= |x| ==> !PieceIs(x, i, j, token)
    {
      var e := s + Find(x[s..], ',');
      assert x[s..][..e - s] == x[s..e];
      var piece := TrimSpaces(x[s..e]);
      if piece == token {
        assert PieceIs(x, s, e, token);
        return true;
      }
      s := if e == |x| then e else e + 1;
    }
    return false;
  }
}
