/** What the request-head parser of include/webserver/http.hpp promises about rendered requests. */
module HttpLaws {
  import opened Bytes
  import opened Http

  // ----- trimming

  predicate AllSpace(s: string)
  {
    forall c :: c in s ==> IsSpace(c)
  }

  /** Neither end is white space. */
  predicate Trimmed(s: string)
  {
    s != "" ==> !IsSpace(s[0]) && !IsSpace(s[|s| - 1])
  }

  lemma {:induction false} TrimLeftParts(s: string) returns (pre: string)
    ensures AllSpace(pre) && s == pre + TrimLeft(s)
    ensures TrimLeft(s) != "" ==> !IsSpace(TrimLeft(s)[0])
  {
    pre := "";
    if s != "" && IsSpace(s[0]) {
      pre := TrimLeftParts(s[1..]);
      pre := [s[0]] + pre;
    }
  }

  lemma {:induction false} TrimRightParts(s: string) returns (post: string)
    ensures AllSpace(post) && s == TrimRight(s) + post
    ensures TrimRight(s) != "" ==> !IsSpace(TrimRight(s)[|TrimRight(s)| - 1])
  {
    post := "";
    if s != "" && IsSpace(s[|s| - 1]) {
      post := TrimRightParts(s[..|s| - 1]);
      post := post + [s[|s| - 1]];
    }
  }

  /** Trimming drops white space at the ends, all of it, and nothing else. */
  lemma TrimDropsOuterSpace(s: string) returns (pre: string, post: string)
    ensures s == pre + Trim(s) + post && AllSpace(pre) && AllSpace(post) && Trimmed(Trim(s))
  {
    pre := TrimLeftParts(s);
    post := TrimRightParts(TrimLeft(s));
    var t := TrimLeft(s);
    if Trim(s) != "" { assert t[0] == Trim(s)[0]; }
  }

  lemma TrimOfTrimmed(s: string)
    requires Trimmed(s)
    ensures Trim(s) == s
  {
  }

  /** What counts as white space: space, and the five controls from tab to carriage return. */
  lemma SpaceCharacters(c: char)
    ensures Trim([c]) == "" <==> c as int == 32 || 9 <= c as int <= 13
  {
    assert [c][1..] == "" && [c][..0] == "";
    assert IsSpace(c) <==> c as int == 32 || 9 <= c as int <= 13;
    if IsSpace(c) {
      assert TrimLeft([c]) == TrimLeft("");
    } else {
      assert TrimLeft([c]) == [c];
    }
  }

  /** Lower case in the C locale: the twenty-six letters, and nothing else. */
  lemma LowerLetters(c: char, i: nat)
    requires i < 26
    ensures Lower(["ABCDEFGHIJKLMNOPQRSTUVWXYZ"[i]]) == ["abcdefghijklmnopqrstuvwxyz"[i]]
    ensures c as int < 65 || 90 < c as int ==> Lower([c]) == [c]
  {
  }

  // ----- rendering

  /**
   A line of a request head as a sender writes it: a name, a colon and a value, spaces around either
   being part of them; or a line without a colon, which the parser passes over.
   */
  datatype Header = Header(name: string, value: string) | Noise(text: string)

  predicate OneLine(s: string)
  {
    '\r' !in s && '\n' !in s
  }

  predicate IsWord(s: string)
  {
    s != "" && forall c :: c in s ==> !IsSpace(c)
  }

  predicate WellFormedHeader(h: Header)
  {
    match h
    case Header(name, value) => OneLine(name) && OneLine(value) && ':' !in name
    case Noise(text) => text != "" && OneLine(text) && ':' !in text
  }

  predicate WellFormed(hs: seq<Header>)
  {
    forall h :: h in hs ==> WellFormedHeader(h)
  }

  function HeaderLine(h: Header): string
  {
    match h
    case Header(name, value) => name + ":" + value
    case Noise(text) => text
  }

  function RequestLine(verb: string, path: string, version: string): string
  {
    verb + " " + path + " " + version
  }

  /** Lines with a line end between each two. */
  function JoinLines(ls: seq<string>): string
  {
    if ls == [] then "" else if |ls| == 1 then ls[0] else ls[0] + "\r\n" + JoinLines(ls[1..])
  }

  function HeaderLines(hs: seq<Header>): (ls: seq<string>)
    ensures |ls| == |hs|
  {
    seq(|hs|, i requires 0 <= i < |hs| => HeaderLine(hs[i]))
  }

  /** A request head with its blank line. */
  function Render(verb: string, path: string, version: string, hs: seq<Header>): string
  {
    JoinLines([RequestLine(verb, path, version)] + HeaderLines(hs)) + "\r\n\r\n"
  }

  /** Lower-cased trimmed names to trimmed values; what a line puts there replaces what was there. */
  function Put(m: map<string, string>, h: Header): map<string, string>
  {
    match h
    case Header(name, value) => m[Lower(Trim(name)) := Trim(value)]
    case Noise(_) => m
  }

  /** Of headers with the same name the last one counts. */
  function HeaderMap(hs: seq<Header>): map<string, string>
  {
    if hs == [] then map[] else Put(HeaderMap(hs[..|hs| - 1]), hs[|hs| - 1])
  }

  /** A header is found under its lower-cased trimmed name, its value trimmed; of two the later one counts. */
  lemma LaterHeaderCounts(hs: seq<Header>, name: string, value: string, other: string)
    ensures var m, m' := HeaderMap(hs), HeaderMap(hs + [Header(name, value)]);
      && Lower(Trim(name)) in m' && m'[Lower(Trim(name))] == Trim(value)
      && (other != Lower(Trim(name)) ==>
            (other in m' <==> other in m) && (other in m ==> m'[other] == m[other]))
  {
    hide Lower, Trim;
    assert (hs + [Header(name, value)])[..|hs|] == hs;
  }

  // ----- the blank line of joined lines

  ghost predicate Plain(ls: seq<string>)
  {
    ls != [] && forall l :: l in ls ==> l != "" && OneLine(l)
  }

  lemma {:induction false} NoBlankInside(ls: seq<string>, rest: string, q: nat)
    requires Plain(ls) && q < |JoinLines(ls)|
    ensures !BlankAt(JoinLines(ls) + "\r\n\r\n" + rest, q)
    decreases |ls|
  {
    var l := ls[0];
    var raw := JoinLines(ls) + "\r\n\r\n" + rest;
    if q < |l| {
      assert l in ls && raw[q] == l[q] && l[q] in l;
    } else {
      var tail, k := ls[1..], |l| + 2;
      var raw' := JoinLines(tail) + "\r\n\r\n" + rest;
      assert raw == l + "\r\n" + raw';
      assert forall i :: 0 <= i < |raw'| ==> raw[k + i] == raw'[i];
      assert tail[0] in ls && tail[0][0] in tail[0];
      assert raw[k] == tail[0][0] && raw[|l| + 1] == '\n';
      if q >= k {
        assert forall l :: l in tail ==> l in ls;
        NoBlankInside(tail, rest, q - k);
      }
    }
  }

  lemma BlankOfJoined(ls: seq<string>, rest: string)
    requires Plain(ls)
    ensures FindBlank(JoinLines(ls) + "\r\n\r\n" + rest) == Some(|JoinLines(ls)|)
  {
    var raw := JoinLines(ls) + "\r\n\r\n" + rest;
    assert BlankAt(raw, |JoinLines(ls)|);
    forall q: nat | q < |JoinLines(ls)| ensures !BlankAt(raw, q) {
      NoBlankInside(ls, rest, q);
    }
  }

  // ----- reading the lines back

  /** What `getline` makes of joined lines: all but the last keep a carriage return. */
  function WithReturns(ls: seq<string>): seq<string>
  {
    if |ls| <= 1 then ls else [ls[0] + "\r"] + WithReturns(ls[1..])
  }

  lemma FindAfter(l: string, c: char, t: string)
    requires c !in l
    ensures Find(l + [c] + t, c) == |l|
  {
    var s := l + [c] + t;
    assert s[|l|] == c;
    assert forall j :: 0 <= j < |l| ==> s[j] == l[j] && l[j] in l;
  }

  lemma FindAbsent(l: string, c: char)
    requires c !in l
    ensures Find(l, c) == |l|
  {
  }

  lemma FirstLine(l: string, t: string)
    requires '\n' !in l
    ensures Lines(l + "\r\n" + t) == [l + "\r"] + Lines(t)
  {
    hide Find;
    var s := l + "\r\n" + t;
    assert s == (l + "\r") + ['\n'] + t;
    FindAfter(l + "\r", '\n', t);
    assert s[..|l| + 1] == l + "\r" && s[|l| + 2..] == t;
  }

  lemma {:induction false} LinesOfJoined(ls: seq<string>)
    requires Plain(ls)
    ensures Lines(JoinLines(ls)) == WithReturns(ls)
    decreases |ls|
  {
    hide Find;
    var l := ls[0];
    assert l in ls;
    if |ls| == 1 {
      FindAbsent(l, '\n');
    } else {
      FirstLine(l, JoinLines(ls[1..]));
      LinesOfJoined(ls[1..]);
    }
  }

  lemma ChompLine(l: string)
    requires OneLine(l)
    ensures Chomp(l) == l && Chomp(l + "\r") == l
  {
    if l != "" { assert l[|l| - 1] in l; }
  }

  lemma HeaderOfLine(m: map<string, string>, h: Header)
    requires WellFormedHeader(h)
    ensures AddHeader(m, HeaderLine(h)) == Put(m, h)
  {
    match h
    case Header(name, value) =>
      FindAfter(name, ':', value);
      assert HeaderLine(h)[..|name|] == name;
      assert HeaderLine(h)[|name| + 1..] == value;
    case Noise(text) =>
      FindAbsent(text, ':');
  }

  lemma NoHeaders()
    ensures WithReturns(HeaderLines([])) == [] && HeaderMap([]) == map[]
  {
  }

  lemma HeaderLineIsPlain(h: Header)
    requires WellFormedHeader(h)
    ensures HeaderLine(h) != "" && OneLine(HeaderLine(h))
  {
    if h.Header? { assert HeaderLine(h)[|h.name|] == ':'; }
  }

  lemma FrontLine(hs: seq<Header>)
    requires hs != []
    ensures var ls := WithReturns(HeaderLines(hs));
      && |ls| > 0 && (ls[0] == HeaderLine(hs[0]) || ls[0] == HeaderLine(hs[0]) + "\r")
      && ls[1..] == WithReturns(HeaderLines(hs[1..]))
  {
    assert HeaderLines(hs)[1..] == HeaderLines(hs[1..]);
  }

  /** Reading headers onto `m` overrides it with their map. */
  lemma {:induction false} HeadersReadBack(m: map<string, string>, hs: seq<Header>)
    requires WellFormed(hs)
    ensures AddHeaders(m, WithReturns(HeaderLines(hs))) == m + HeaderMap(hs)
    decreases |hs|
  {
    hide Put, Chomp, AddHeader, HeaderMap, HeaderLine, HeaderLines, WithReturns;
    if hs == [] {
      NoHeaders();
    } else {
      var h := hs[0];
      var m' := Put(m, h);
      assert h in hs;
      HeaderLineIsPlain(h);
      ChompLine(HeaderLine(h));
      HeaderOfLine(m, h);
      FrontLine(hs);
      HeadersReadBack(m', hs[1..]);
      HeaderMapFront(hs);
      PutThenAll(m, h, HeaderMap(hs[1..]));
    }
  }

  lemma PutThenAll(m: map<string, string>, h: Header, rest: map<string, string>)
    ensures Put(m, h) + rest == m + (Put(map[], h) + rest)
  {
    hide Lower, Trim;
  }

  lemma {:induction false} HeaderMapFront(hs: seq<Header>)
    requires hs != []
    ensures HeaderMap(hs) == Put(map[], hs[0]) + HeaderMap(hs[1..])
    decreases |hs|
  {
    hide Lower, Trim;
    if |hs| > 1 {
      HeaderMapFront(hs[..|hs| - 1]);
      assert hs[..|hs| - 1][1..] == hs[1..][..|hs| - 2];
    }
  }

  // ----- words of the request line

  lemma {:induction false} WordAtFront(w: string, t: string)
    requires IsWord(w) && (t == "" || IsSpace(t[0]))
    ensures WordLength(w + t) == |w| && TrimLeft(w + t) == w + t
    decreases |w|
  {
    assert w[0] in w;
    assert (w + t)[1..] == w[1..] + t;
    if |w| > 1 { WordAtFront(w[1..], t); } else { assert w[1..] + t == t; }
  }

  lemma NoWords(s: string)
    ensures Words(s, 0) == Some([])
  {
  }

  /** Words with a space before each. */
  function Spaced(ws: seq<string>): string
  {
    if ws == [] then "" else " " + ws[0] + Spaced(ws[1..])
  }

  ghost predicate AllWords(ws: seq<string>)
  {
    forall w :: w in ws ==> IsWord(w)
  }

  lemma SpacedFront(ws: seq<string>)
    requires ws != []
    ensures var t := Spaced(ws[1..]);
      && Spaced(ws) == " " + (ws[0] + t) && Spaced(ws)[1..] == ws[0] + t && (t == "" || IsSpace(t[0]))
  {
  }

  /** The first extraction takes the first word, with or without a space before it. */
  lemma FirstOfSpaced(ws: seq<string>, count: nat)
    requires ws != [] && AllWords(ws)
    ensures var rest := Words(Spaced(ws[1..]), count);
      && Words(Spaced(ws), count + 1) == Words(Spaced(ws)[1..], count + 1)
      && Words(Spaced(ws), count + 1) == if rest.None? then None else Some([ws[0]] + rest.value)
  {
    hide IsWord, Spaced;
    var w, t := ws[0], Spaced(ws[1..]);
    assert w in ws;
    SpacedFront(ws);
    WordAtFront(w, t);
    assert (w + t)[|w|..] == t && (w + t)[..|w|] == w;
    assert (" " + (w + t))[1..] == w + t;
    WordIsNotEmpty(w);
    assert TrimLeft(" " + (w + t)) == w + t;
  }

  lemma WordIsNotEmpty(w: string)
    requires IsWord(w)
    ensures |w| > 0
  {
  }

  /** Extraction delivers the first words, if there are enough; a space before the first does not matter. */
  lemma {:induction false} WordsOfSpaced(ws: seq<string>, count: nat)
    requires AllWords(ws)
    ensures Words(Spaced(ws), count) == if count <= |ws| then Some(ws[..count]) else None
    ensures ws != [] ==> Words(Spaced(ws)[1..], count) == Words(Spaced(ws), count)
    decreases |ws|
  {
    hide IsWord, Spaced, Words;
    if count == 0 {
      NoWords(Spaced(ws));
      if ws != [] { SpacedFront(ws); NoWords(Spaced(ws)[1..]); }
    } else if ws == [] {
      NoWordsInNothing(count);
    } else {
      assert AllWords(ws[1..]);
      WordsOfSpaced(ws[1..], count - 1);
      FirstOfSpaced(ws, count - 1);
      if count <= |ws| { assert ws[..count] == [ws[0]] + ws[1..][..count - 1]; }
    }
  }

  lemma NoWordsInNothing(count: nat)
    requires count > 0
    ensures Words(Spaced([]), count) == None
  {
  }

  lemma RequestLineWords(verb: string, path: string, version: string)
    requires IsWord(verb) && IsWord(path) && IsWord(version)
    ensures Words(RequestLine(verb, path, version), 3) == Some([verb, path, version])
  {
    hide Words, IsWord, Spaced;
    var ws := [verb, path, version];
    WordsOfSpaced(ws, 3);
    SpacedFront(ws);
    SpacedFront([path, version]);
    SpacedFront([version]);
    assert ws[1..] == [path, version] && [path, version][1..] == [version] && [version][1..] == [];
    assert Spaced([]) == "" by { NothingSpaced(); }
    assert version + "" == version;
    assert Spaced(ws)[1..] == RequestLine(verb, path, version);
    assert ws[..3] == ws;
  }

  lemma NothingSpaced()
    ensures Spaced([]) == ""
  {
  }

  // ----- the round trip

  lemma WordIsOneLine(w: string)
    requires IsWord(w)
    ensures OneLine(w)
  {
  }

  lemma PlainHead(first: string, hs: seq<Header>)
    requires first != "" && OneLine(first) && WellFormed(hs)
    ensures Plain([first] + HeaderLines(hs))
  {
    forall i | 0 <= i < |hs| ensures HeaderLines(hs)[i] != "" && OneLine(HeaderLines(hs)[i]) {
      assert hs[i] in hs;
      HeaderLineIsPlain(hs[i]);
    }
  }

  /** Any head of a first line and header lines reads back as that line and the map of the headers. */
  lemma HeadReadsBack(first: string, hs: seq<Header>, rest: string)
    requires first != "" && OneLine(first) && WellFormed(hs)
    ensures var head := JoinLines([first] + HeaderLines(hs));
      && FindBlank(head + "\r\n\r\n" + rest) == Some(|head|)
      && Lines(head) != [] && Chomp(Lines(head)[0]) == first
      && AddHeaders(map[], Lines(head)[1..]) == HeaderMap(hs)
  {
    hide FindBlank, Lines, Chomp, AddHeaders, HeaderMap, OneLine;
    var ls := [first] + HeaderLines(hs);
    PlainHead(first, hs);
    BlankOfJoined(ls, rest);
    LinesOfJoined(ls);
    ChompLine(first);
    assert ls[1..] == HeaderLines(hs);
    HeadersReadBack(map[], hs);
    assert map[] + HeaderMap(hs) == HeaderMap(hs);
  }

  /** A rendered request parses back, whatever bytes follow its blank line. */
  lemma RenderRoundTrip(verb: string, path: string, version: string, hs: seq<Header>, rest: string)
    requires IsWord(verb) && IsWord(path) && IsWord(version) && WellFormed(hs)
    ensures ParseRequest(Render(verb, path, version, hs) + rest)
         == Some(HttpRequest(verb, path, version, HeaderMap(hs)))
  {
    hide FindBlank, Lines, Chomp, AddHeaders, HeaderMap, HeaderLines, Words, IsWord, OneLine;
    var line := RequestLine(verb, path, version);
    var head := JoinLines([line] + HeaderLines(hs));
    RequestLineIsPlain(verb, path, version);
    HeadReadsBack(line, hs, rest);
    assert (Render(verb, path, version, hs) + rest)[..|head|] == head;
    RequestLineWords(verb, path, version);
  }

  lemma RequestLineIsPlain(verb: string, path: string, version: string)
    requires IsWord(verb) && IsWord(path) && IsWord(version)
    ensures RequestLine(verb, path, version) != "" && OneLine(RequestLine(verb, path, version))
  {
    WordIsOneLine(verb);
    WordIsOneLine(path);
    WordIsOneLine(version);
  }

  /** A request line needs three words; what comes behind the third is passed over. */
  lemma ThreeWordsNeeded(ws: seq<string>, hs: seq<Header>, rest: string)
    requires ws != [] && AllWords(ws) && WellFormed(hs)
    ensures ParseRequest(JoinLines([Spaced(ws)[1..]] + HeaderLines(hs)) + "\r\n\r\n" + rest)
         == if |ws| < 3 then None else Some(HttpRequest(ws[0], ws[1], ws[2], HeaderMap(hs)))
  {
    hide FindBlank, Lines, Chomp, AddHeaders, HeaderMap, HeaderLines, Words, IsWord, OneLine;
    var line := Spaced(ws)[1..];
    var head := JoinLines([line] + HeaderLines(hs));
    SpacedIsPlain(ws);
    HeadReadsBack(line, hs, rest);
    assert (head + "\r\n\r\n" + rest)[..|head|] == head;
    WordsOfSpaced(ws, 3);
  }

  lemma {:induction false} SpacedIsPlain(ws: seq<string>)
    requires AllWords(ws)
    ensures OneLine(Spaced(ws)) && (ws != [] ==> Spaced(ws)[1..] != "" && OneLine(Spaced(ws)[1..]))
  {
    hide IsWord;
    if ws != [] {
      assert ws[0] in ws;
      WordIsOneLine(ws[0]);
      WordIsNotEmpty(ws[0]);
      assert AllWords(ws[1..]);
      SpacedIsPlain(ws[1..]);
      SpacedFront(ws);
    }
  }

  /** Headers end at the first empty line, whatever follows it. */
  lemma {:induction false} EmptyLineEndsHeaders(m: map<string, string>, ls: seq<string>, more: seq<string>, cr: bool)
    ensures AddHeaders(m, ls + [if cr then "\r" else ""] + more) == AddHeaders(m, ls)
    decreases |ls|
  {
    hide AddHeader;
    var all := ls + [if cr then "\r" else ""] + more;
    if ls == [] {
      assert all[0] == if cr then "\r" else "";
    } else {
      assert all[0] == ls[0] && all[1..] == ls[1..] + [if cr then "\r" else ""] + more;
      if Chomp(ls[0]) != "" { EmptyLineEndsHeaders(AddHeader(m, Chomp(ls[0])), ls[1..], more, cr); }
    }
  }

  /** Bytes after the first blank line never matter. */
  lemma OnlyTheHeadMatters(raw: string, rest: string)
    requires FindBlank(raw).Some?
    ensures FindBlank(raw + rest) == FindBlank(raw) && ParseRequest(raw + rest) == ParseRequest(raw)
  {
    var p := FindBlank(raw).value;
    assert BlankAt(raw + rest, p);
    forall q: nat | q < p ensures !BlankAt(raw + rest, q) {
      assert !BlankAt(raw, q);
    }
    assert (raw + rest)[..p] == raw[..p];
  }

  // ----- token lists

  /** Pieces with a comma between each two. */
  function JoinCommas(ps: seq<string>): string
  {
    if ps == [] then "" else if |ps| == 1 then ps[0] else ps[0] + "," + JoinCommas(ps[1..])
  }

  ghost predicate HasPiece(x: string, token: string)
  {
    exists i, j | 0 <= i <= j <= |x| :: PieceIs(x, i, j, token)
  }

  lemma OnePiece(p: string, token: string)
    requires ',' !in p
    ensures HasPiece(p, token) <==> p != "" && Trim(p) == token
  {
    hide Trim;
    assert p[0..|p|] == p;
    if p != "" && Trim(p) == token { assert PieceIs(p, 0, |p|, token); }
    if i, j :| 0 <= i <= j <= |p| && PieceIs(p, i, j, token) {
      assert i == 0 && j == |p|;
    }
  }

  lemma ShiftedPiece(p: string, t: string, token: string, i: nat, j: nat)
    requires i <= j <= |t|
    ensures PieceIs(t, i, j, token) <==> PieceIs(p + "," + t, |p| + 1 + i, |p| + 1 + j, token)
  {
    hide Trim;
    var x, k := p + "," + t, |p| + 1;
    assert x[k + i..k + j] == t[i..j] && x[|p|] == ',';
  }

  lemma FirstPiece(p: string, t: string, token: string, i: nat, j: nat)
    requires ',' !in p && i <= j <= |p + "," + t| && i <= |p|
    ensures PieceIs(p + "," + t, i, j, token) <==> i == 0 && j == |p| && Trim(p) == token
  {
    hide Trim;
    var x := p + "," + t;
    assert x[..|p|] == p && x[|p|] == ',';
    if i == 0 && j == |p| { assert x[0..j] == p; }
  }

  lemma NextPiece(p: string, t: string, token: string)
    requires ',' !in p
    ensures HasPiece(p + "," + t, token) <==> Trim(p) == token || HasPiece(t, token)
  {
    hide Trim, PieceIs;
    var x, k := p + "," + t, |p| + 1;
    FirstPiece(p, t, token, 0, |p|);
    if i, j :| 0 <= i <= j <= |t| && PieceIs(t, i, j, token) { ShiftedPiece(p, t, token, i, j); }
    if i, j :| 0 <= i <= j <= |x| && PieceIs(x, i, j, token) {
      if i < k { FirstPiece(p, t, token, i, j); } else { ShiftedPiece(p, t, token, i - k, j - k); }
    }
  }

  lemma {:induction false} LowerTrimLeft(s: string)
    ensures TrimLeft(Lower(s)) == Lower(TrimLeft(s))
  {
    if s != "" && IsSpace(s[0]) {
      assert Lower(s)[1..] == Lower(s[1..]);
      LowerTrimLeft(s[1..]);
    }
  }

  lemma {:induction false} LowerTrimRight(s: string)
    ensures TrimRight(Lower(s)) == Lower(TrimRight(s))
  {
    if s != "" && IsSpace(s[|s| - 1]) {
      assert Lower(s)[..|s| - 1] == Lower(s[..|s| - 1]);
      LowerTrimRight(s[..|s| - 1]);
    }
  }

  lemma LowerPiece(p: string)
    requires ',' !in p
    ensures ',' !in Lower(p) && Trim(Lower(p)) == Lower(Trim(p)) && (Lower(p) == "" <==> p == "")
  {
    LowerTrimLeft(p);
    LowerTrimRight(TrimLeft(p));
  }

  /** A list holds a token exactly when one of its pieces, trimmed and in lower case, is the token. */
  lemma {:induction false} TokenInList(ps: seq<string>, token: string)
    requires forall p :: p in ps ==> ',' !in p
    ensures HasToken(JoinCommas(ps), token)
       <==> exists k :: 0 <= k < |ps| && Lower(Trim(ps[k])) == token && (k < |ps| - 1 || ps[k] != "")
    decreases |ps|
  {
    hide Trim, Lower, HasPiece, PieceIs;
    assert HasToken(JoinCommas(ps), token) == HasPiece(Lower(JoinCommas(ps)), token) by {
      TokenIsPiece(JoinCommas(ps), token);
    }
    if ps == [] {
      NoPiece(token);
    } else {
      var p := ps[0];
      assert p in ps;
      LowerPiece(p);
      if |ps| == 1 {
        OnePiece(Lower(p), token);
      } else {
        var tail := ps[1..];
        LowerJoin(p, JoinCommas(tail));
        NextPiece(Lower(p), Lower(JoinCommas(tail)), token);
        TokenInList(tail, token);
        TokenIsPiece(JoinCommas(tail), token);
        if k :| 0 <= k < |tail| && Lower(Trim(tail[k])) == token && (k < |tail| - 1 || tail[k] != "") {
          assert ps[k + 1] == tail[k];
        }
        if k :| 0 <= k < |ps| && Lower(Trim(ps[k])) == token && (k < |ps| - 1 || ps[k] != "") {
          if k > 0 { assert tail[k - 1] == ps[k]; }
        }
      }
    }
  }

  lemma TokenIsPiece(v: string, token: string)
    ensures HasToken(v, token) <==> HasPiece(Lower(v), token)
  {
  }

  lemma NoPiece(token: string)
    ensures !HasPiece(Lower(""), token)
  {
  }

  lemma LowerJoin(p: string, t: string)
    ensures Lower(p + "," + t) == Lower(p) + "," + Lower(t)
  {
  }
}
