/**
 The request parser (http/impl/request.hpp), a streaming one: what a request comes to does not depend on how it is cut.
 */
module HttpRequest {
  import opened Bytes
  import opened Wrappers
  import opened HttpParser

  datatype Request = Request(
    buf: Text,               // the start of a line not yet ended
    method_: Text,
    uri: Text,
    version: Text,
    headers: seq<Header>,
    body: Text,
    bodyNeeded: nat,         // m_body_bytes_needed
    ready: bool)

  const FRESH := Request([], [], [], [], [], [], 0, false)

  datatype Line = Good(r: Request) | Bad(error: Error)

  /** A call: the new state and the bytes it took, or an exception. */
  datatype Outcome = Took(r: Request, n: nat) | Thrown(error: Error)

  /** The request line. */
  function ProcessLine(r: Request, line: Text): Line {
    var i := IndexOf(line, SP);
    if i == |line| then Bad(InvalidRequestLine)
    else if !Token(line[..i]) then Bad(InvalidMethod)
    else
      var rest := line[i + 1..];
      var j := IndexOf(rest, SP);
      if j == |rest| then Bad(InvalidRequestLine)
      else Good(r.(method_ := line[..i], uri := rest[..j], version := rest[j + 1..]))
  }

  function ProcessHeader(r: Request, line: Text): Line {
    var i := IndexOf(line, COLON);
    if i == |line| then Bad(InvalidHeaderLine)
    else match (Strip(line[..i]), Strip(line[i + 1..]))
      case (Some(name), Some(value)) =>
        if Token(name) then Good(r.(headers := Append(r.headers, name, value))) else Bad(InvalidHeaderName)
      case _ => Bad(LengthError)
  }

  function NextLine(r: Request, line: Text): Line {
    if r.method_ == [] then ProcessLine(r, line) else ProcessHeader(r, line)
  }

  /** After the blank line. */
  function PrepareBody(r: Request): Line {
    var length := Get(r.headers, CONTENT_LENGTH);
    if length == [] then Good(r.(bodyNeeded := 0))
    else
      var needed := Strtoul(length);
      if needed > MAX_BODY_SIZE then Bad(BodyTooLarge) else Good(r.(bodyNeeded := needed))
  }

  /** Takes body bytes, as many as are needed and there. */
  function TakeBody(r: Request, bytes: Text): Outcome {
    var n := if r.bodyNeeded < |bytes| then r.bodyNeeded else |bytes|;
    Took(r.(body := r.body + bytes[..n], bodyNeeded := r.bodyNeeded - n, ready := r.bodyNeeded == n), n)
  }

  /** Takes all lines of a text. */
  function TakeLines(r: Request, text: Text): Outcome
    decreases |text|
  {
    var k := LineEnd(text);
    if k == |text| then Took(r.(buf := text), |text|)
    else if k == 0 then
      if r.method_ == [] || Get(r.headers, HOST) == [] then Thrown(IncompleteRequest)
      else match PrepareBody(r)
        case Bad(e) => Thrown(e)
        case Good(p) => Plus(2, TakeBody(p, text[2..]))
    else
      match NextLine(r, text[..k])
      case Bad(e) => Thrown(e)
      case Good(p) => Plus(k + 2, TakeLines(p, text[k + 2..]))
  }

  function Plus(n: nat, o: Outcome): Outcome {
    match o
    case Thrown(_) => o
    case Took(r, m) => Took(r, n + m)
  }

  /** `consume`, but for the limit on the header size. */
  function Read(r: Request, bytes: Text): Outcome {
    if r.ready then Took(r, 0)
    else if r.bodyNeeded > 0 then TakeBody(r, bytes)
    else Without(TakeLines(r.(buf := []), r.buf + bytes), |r.buf|)
  }

  /** Does not count the bytes that were in the buffer already. */
  function Without(o: Outcome, m: nat): Outcome {
    match o
    case Thrown(_) => o
    case Took(r, n) => Took(r, if m <= n then n - m else 0)
  }

  predicate TooLarge(r: Request, n: nat) {
    !r.ready && r.bodyNeeded == 0 && |r.buf| + n > MAX_HEADER_SIZE
  }

  function Consume(r: Request, bytes: Text): Outcome {
    if TooLarge(r, |bytes|) then Thrown(HeaderTooLarge) else Read(r, bytes)
  }

  //
  // Writing
  //

  const CRLF: Text := [CR, LF]

  function HeaderLine(h: Header): Text {
    h.name + [COLON, SP] + h.value
  }

  function RawHeaders(hs: seq<Header>): Text {
    if hs == [] then [] else HeaderLine(hs[0]) + CRLF + RawHeaders(hs[1..])
  }

  function RequestLine(r: Request): Text {
    r.method_ + [SP] + r.uri + [SP] + r.version
  }

  function Raw(r: Request): Text {
    RequestLine(r) + CRLF + (RawHeaders(r.headers) + (CRLF + r.body))
  }

  function SetBody(r: Request, body: Text): Request {
    if body == [] then r.(headers := Remove(r.headers, CONTENT_LENGTH), body := [])
    else r.(headers := Put(r.headers, CONTENT_LENGTH, Decimal(|body|)), body := body)
  }

  //
  // What is refused, and why
  //

  /** `s` is `a`, `b` and between them the first `c` of it. */
  predicate CutAt(s: Text, c: byte, a: Text, b: Text) {
    s == a + [c] + b && c !in a
  }

  lemma CutIndex(s: Text, c: byte, a: Text, b: Text)
    requires CutAt(s, c, a, b)
    ensures IndexOf(s, c) == |a| < |s| && s[..|a|] == a && s[|a| + 1..] == b
  {
    hide IndexOf;
    assert s[|a|] == c && s[..|a|] == a;
  }

  lemma IndexCuts(s: Text, c: byte)
    ensures IndexOf(s, c) < |s| ==> CutAt(s, c, s[..IndexOf(s, c)], s[IndexOf(s, c) + 1..])
    ensures c in s <==> IndexOf(s, c) < |s|
  {
    hide IndexOf;
    var k := IndexOf(s, c);
    assert k == |s| ==> s[..k] == s;
    assert k < |s| ==> s == s[..k] + [s[k]] + s[k + 1..];
  }

  /** A request line is a method, a space, a target, a space and the rest; the method must be a token. */
  lemma RequestLineVerdict(r: Request, line: Text)
    ensures ProcessLine(r, line) == Bad(InvalidMethod) <==> exists m, rest :: CutAt(line, 32, m, rest) && !Token(m)
    ensures ProcessLine(r, line) == Bad(InvalidRequestLine) <==>
      32 !in line || exists m, rest :: CutAt(line, 32, m, rest) && Token(m) && 32 !in rest
    ensures forall m, u, v, rest :: CutAt(line, 32, m, rest) && Token(m) && CutAt(rest, 32, u, v) ==>
      ProcessLine(r, line) == Good(r.(method_ := m, uri := u, version := v))
    ensures ProcessLine(r, line).Bad? ==> ProcessLine(r, line).error in {InvalidMethod, InvalidRequestLine}
  {
    IndexCuts(line, 32);
    forall m, rest | CutAt(line, 32, m, rest)
      ensures m == line[..IndexOf(line, 32)] && rest == line[IndexOf(line, 32) + 1..] && IndexOf(line, 32) < |line|
    {
      CutIndex(line, 32, m, rest);
    }
    hide Token, IndexOf;
    if IndexOf(line, 32) < |line| {
      var rest := line[IndexOf(line, 32) + 1..];
      IndexCuts(rest, 32);
      forall u, v | CutAt(rest, 32, u, v)
        ensures u == rest[..IndexOf(rest, 32)] && v == rest[IndexOf(rest, 32) + 1..]
      {
        CutIndex(rest, 32, u, v);
      }
      hide CutAt;
    }
  }

  /** A header line is a name, a colon and a value, both stripped of white space; the name must be a token. */
  lemma HeaderLineVerdict(r: Request, line: Text)
    ensures ProcessHeader(r, line) == Bad(InvalidHeaderLine) <==> 58 !in line
    ensures forall a, b :: CutAt(line, 58, a, b) && Strip(a).Some? && Strip(b).Some? ==>
      ProcessHeader(r, line) ==
        if Token(Strip(a).value) then Good(r.(headers := Append(r.headers, Strip(a).value, Strip(b).value)))
        else Bad(InvalidHeaderName)
  {
    IndexCuts(line, 58);
    forall a, b | CutAt(line, 58, a, b)
      ensures a == line[..IndexOf(line, 58)] && b == line[IndexOf(line, 58) + 1..]
    {
      CutIndex(line, 58, a, b);
    }
    hide Token, IndexOf, Strip, Append, CutAt;
  }

  /** The blank line is refused without a request line or a Host header, or with too long a body. */
  lemma BlankLineVerdict(r: Request, rest: Text)
    ensures TakeLines(r, [13, 10] + rest) == Thrown(IncompleteRequest) <==>
      r.method_ == [] || Get(r.headers, [72, 111, 115, 116]) == []
    ensures TakeLines(r, [13, 10] + rest) == Thrown(BodyTooLarge) <==>
      && r.method_ != [] && Get(r.headers, [72, 111, 115, 116]) != []
      && var n := Get(r.headers, [67, 111, 110, 116, 101, 110, 116, 45, 76, 101, 110, 103, 116, 104]);
        n != [] && Strtoul(n) > 32000000
  {
    var text := [13, 10] + rest;
    assert LineEnd(text) == 0 && text[2..] == rest;
    hide Get, Strtoul;
  }

  //
  // Streaming
  //

  /** What a request being read satisfies: an unended line contains no line end. */
  predicate Valid(r: Request) {
    (r.ready || r.bodyNeeded > 0 ==> r.buf == []) && LineEnd(r.buf) == |r.buf|
  }

  /** One call after another. */
  function Then(o: Outcome, bytes: Text): Outcome {
    match o
    case Thrown(_) => o
    case Took(r, n) => Plus(n, Read(r, bytes))
  }

  function ReadAll(r: Request, chunks: seq<Text>): Outcome
    decreases chunks
  {
    if chunks == [] then Took(r, 0)
    else match Read(r, chunks[0])
      case Thrown(e) => Thrown(e)
      case Took(p, n) => Plus(n, ReadAll(p, chunks[1..]))
  }

  lemma {:induction false} LineEndMore(s: Text, more: Text)
    ensures LineEnd(s) < |s| ==> LineEnd(s + more) == LineEnd(s)
    ensures LineEnd(s) == |s| && LineEnd(s + more) < |s + more| ==> LineEnd(s + more) + 2 > |s|
  {
    if |s| >= 2 && !(s[0] == CR && s[1] == LF) {
      assert (s + more)[1..] == s[1..] + more;
      LineEndMore(s[1..], more);
    }
  }

  lemma TakeBodyMore(r: Request, a: Text, b: Text)
    requires r.bodyNeeded > 0 && !r.ready && r.buf == []
    ensures TakeBody(r, a + b) == Then(TakeBody(r, a), b)
  {
  }

  lemma TakeBodyThen(r: Request, a: Text, b: Text)
    requires !r.ready && r.buf == []
    ensures TakeBody(r, a + b) == Then(TakeBody(r, a), b)
  {
  }

  /** What a line leaves alone. */
  lemma LineKeeps(r: Request, line: Text)
    requires !r.ready && r.bodyNeeded == 0 && r.buf == []
    ensures var n := NextLine(r, line); n.Good? ==> !n.r.ready && n.r.bodyNeeded == 0 && n.r.buf == []
  {
  }

  /** Where a text cut in two leaves off: in the middle of a line, or past the headers. */
  predicate MidLine(p: Request) {
    !p.ready && p.bodyNeeded == 0
  }

  function TakeMore(a: Text, o: Outcome, b: Text): Outcome {
    match o
    case Thrown(_) => o
    case Took(p, n) =>
      if !MidLine(p) then Plus(n, Read(p, b))
      else Plus(if |p.buf| <= |a| then |a| - |p.buf| else 0, TakeLines(p.(buf := []), p.buf + b))
  }

  lemma PlusPlus(m: nat, n: nat, o: Outcome)
    ensures Plus(m, Plus(n, o)) == Plus(m + n, o)
  {
  }

  lemma BlankLineMore(r: Request, a: Text, b: Text)
    requires !r.ready && r.bodyNeeded == 0 && r.buf == [] && LineEnd(a) == 0 < |a|
    ensures TakeLines(r, a + b) == TakeMore(a, TakeLines(r, a), b)
    ensures var o := TakeLines(r, a); o.Took? ==> !MidLine(o.r)
  {
    LineEndMore(a, b);
    assert (a + b)[2..] == a[2..] + b;
    hide LineEnd, Get;
    match PrepareBody(r)
    case Bad(_) =>
    case Good(q) =>
      hide PrepareBody;
      TakeBodyThen(q, a[2..], b);
  }

  /** A text taken in two pieces. */
  lemma {:induction false} TakeLinesMore(r: Request, a: Text, b: Text)
    requires !r.ready && r.bodyNeeded == 0 && r.buf == []
    ensures TakeLines(r, a + b) == TakeMore(a, TakeLines(r, a), b)
    ensures var o := TakeLines(r, a); o.Took? && MidLine(o.r) ==>
      o.n == |a| && |o.r.buf| <= |a| && LineEnd(o.r.buf) == |o.r.buf|
    decreases |a|
  {
    var k := LineEnd(a);
    LineEndMore(a, b);
    if k == |a| {
      hide LineEnd;
    } else if k == 0 {
      BlankLineMore(r, a, b);
    } else {
      LineKeeps(r, a[..k]);
      assert (a + b)[..k] == a[..k] && (a + b)[k + 2..] == a[k + 2..] + b;
      hide LineEnd, NextLine, TakeMore;
      match NextLine(r, a[..k])
      case Bad(_) => TakeMoreThrown(a, b);
      case Good(p) =>
        TakeLinesMore(p, a[k + 2..], b);
        TakeMorePlus(a, a[k + 2..], k + 2, TakeLines(p, a[k + 2..]), b);
    }
  }

  lemma TakeMoreThrown(a: Text, b: Text)
    ensures forall e :: TakeMore(a, Thrown(e), b) == Thrown(e)
  {
  }

  lemma TakeMorePlus(a: Text, rest: Text, m: nat, o: Outcome, b: Text)
    requires |a| == m + |rest|
    requires o.Took? && MidLine(o.r) ==> |o.r.buf| <= |rest|
    ensures TakeMore(a, Plus(m, o), b) == Plus(m, TakeMore(rest, o, b))
  {
  }

  /** How a text ends: everything is taken unless the request is complete, and what is kept is an unended line. */
  predicate Ended(text: Text, o: Outcome) {
    o.Took? ==>
      && o.n <= |text| && (!o.r.ready ==> o.n == |text|)
      && (LineEnd(text) < |text| ==> o.n >= LineEnd(text) + 2)
      && Valid(o.r) && (LineEnd(text) == |text| ==> o.n == |text|)
  }

  lemma TakeBodyEnds(r: Request, bytes: Text)
    requires !r.ready && r.buf == []
    ensures var o := TakeBody(r, bytes); o.n <= |bytes| && (!o.r.ready ==> o.n == |bytes|) && Valid(o.r)
  {
  }

  lemma BlankLineEnds(r: Request, text: Text)
    requires !r.ready && r.bodyNeeded == 0 && r.buf == [] && LineEnd(text) == 0 < |text|
    ensures Ended(text, TakeLines(r, text))
  {
  }

  lemma EndedPlus(text: Text, k: nat, o: Outcome)
    requires LineEnd(text) == k && k + 2 <= |text| && Ended(text[k + 2..], o)
    ensures Ended(text, Plus(k + 2, o))
  {
  }

  lemma {:induction false} TakeLinesEnds(r: Request, text: Text)
    requires !r.ready && r.bodyNeeded == 0 && r.buf == []
    ensures Ended(text, TakeLines(r, text))
    decreases |text|
  {
    var k := LineEnd(text);
    if k == |text| {
      UnendedLine(r, text);
      hide LineEnd, Ended;
    } else if k == 0 {
      BlankLineEnds(r, text);
      hide TakeLines, LineEnd, Ended;
    } else {
      LineKeeps(r, text[..k]);
      hide LineEnd, NextLine, Ended;
      match NextLine(r, text[..k])
      case Bad(e) => EndedThrown(text, e);
      case Good(p) =>
        TakeLinesEnds(p, text[k + 2..]);
        EndedPlus(text, k, TakeLines(p, text[k + 2..]));
    }
  }

  lemma UnendedLine(r: Request, text: Text)
    requires !r.ready && r.bodyNeeded == 0 && LineEnd(text) == |text|
    ensures Ended(text, Took(r.(buf := text), |text|))
  {
  }

  lemma EndedThrown(text: Text, e: Error)
    ensures Ended(text, Thrown(e))
  {
  }

  /** Whatever was in the buffer has been taken when a text ends. */
  lemma BufferTaken(r: Request, bytes: Text)
    requires Valid(r) && MidLine(r)
    ensures var o := TakeLines(r.(buf := []), r.buf + bytes);
      Ended(r.buf + bytes, o) && (o.Took? ==> o.n >= |r.buf|)
  {
    LineEndMore(r.buf, bytes);
    hide TakeLines, LineEnd;
    TakeLinesEnds(r.(buf := []), r.buf + bytes);
  }

  lemma ReadValid(r: Request, bytes: Text)
    requires Valid(r)
    ensures var o := Read(r, bytes); o.Took? ==> Valid(o.r) && o.n <= |bytes| && (!o.r.ready ==> o.n == |bytes|)
  {
    if r.ready {
    } else if r.bodyNeeded > 0 {
      TakeBodyEnds(r, bytes);
    } else {
      BufferTaken(r, bytes);
      hide TakeLines, LineEnd;
    }
  }

  lemma WithoutPlus(n: nat, o: Outcome, m: nat)
    requires m <= n
    ensures Without(Plus(n, o), m) == Plus(n - m, o)
  {
  }

  lemma PlusWithout(n: nat, o: Outcome, k: nat, m: nat)
    requires k <= n && m <= n && (o.Took? ==> k <= o.n)
    ensures Without(Plus(n - k, o), m) == Plus(n - m, Without(o, k))
  {
  }

  lemma ReadLines(r: Request, bytes: Text)
    requires MidLine(r)
    ensures Read(r, bytes) == Without(TakeLines(r.(buf := []), r.buf + bytes), |r.buf|)
  {
  }

  lemma ReadMoreLines(r: Request, a: Text, b: Text)
    requires Valid(r) && MidLine(r)
    ensures Read(r, a + b) == Then(Read(r, a), b)
  {
    hide Read, Valid, MidLine, TakeLines, LineEnd, Plus;
    var r0, text, m := r.(buf := []), r.buf + a, |r.buf|;
    assert text + b == r.buf + (a + b);
    ReadLines(r, a);
    ReadLines(r, a + b);
    BufferTaken(r, a);
    MidLineFresh(r);
    TakeLinesMore(r0, text, b);
    var o := TakeLines(r0, text);
    if o.Took? {
      var p := o.r;
      if MidLine(p) {
        ReadLines(p, b);
        BufferTaken(p, b);
        PlusWithout(|text|, TakeLines(p.(buf := []), p.buf + b), |p.buf|, m);
        assert Then(Read(r, a), b) == Plus(o.n - m, Read(p, b));
      } else {
        WithoutPlus(o.n, Read(p, b), m);
      }
    }
  }

  lemma MidLineFresh(r: Request)
    requires MidLine(r)
    ensures !r.ready && r.bodyNeeded == 0
  {
  }

  /** Two calls do what one call on both reads does. */
  lemma ReadMore(r: Request, a: Text, b: Text)
    requires Valid(r)
    ensures Read(r, a + b) == Then(Read(r, a), b)
  {
    if r.ready {
    } else if r.bodyNeeded > 0 {
      TakeBodyMore(r, a, b);
    } else {
      ReadMoreLines(r, a, b);
    }
  }

  /** For every request and every way of cutting it, the calls come to what one call comes to, exceptions included. */
  lemma {:induction false} Streaming(r: Request, chunks: seq<Text>)
    requires Valid(r)
    ensures ReadAll(r, chunks) == Read(r, Flatten(chunks))
    decreases chunks
  {
    if chunks == [] {
      ReadNothing(r);
    } else {
      ReadMore(r, chunks[0], Flatten(chunks[1..]));
      ReadValid(r, chunks[0]);
      hide Read, Valid;
      var o := Read(r, chunks[0]);
      if o.Took? {
        Streaming(o.r, chunks[1..]);
      }
    }
  }

  lemma ReadNothing(r: Request)
    requires Valid(r)
    ensures Read(r, []) == Took(r, 0)
  {
    if r.ready {
    } else if r.bodyNeeded > 0 {
      assert r.body + [] == r.body;
    } else {
      assert r.buf + [] == r.buf;
    }
  }

  /** The calls of a connection: `consume` with its limit, until one throws. */
  function ConsumeAll(r: Request, chunks: seq<Text>): Outcome
    decreases chunks
  {
    if chunks == [] then Took(r, 0)
    else match Consume(r, chunks[0])
      case Thrown(e) => Thrown(e)
      case Took(p, n) => Plus(n, ConsumeAll(p, chunks[1..]))
  }

  lemma {:induction false} ConsumeReads(r: Request, chunks: seq<Text>)
    requires ConsumeAll(r, chunks).Took?
    ensures ReadAll(r, chunks) == ConsumeAll(r, chunks)
    decreases chunks
  {
    hide Read;
    if chunks != [] {
      ConsumeReads(Consume(r, chunks[0]).r, chunks[1..]);
    }
  }

  /**
   If no call on the pieces throws, one call on the whole does the same exactly if the whole is within the header
   limit.
   */
  lemma CutOrWhole(r: Request, chunks: seq<Text>)
    requires Valid(r) && ConsumeAll(r, chunks).Took?
    ensures Consume(r, Flatten(chunks)) == ConsumeAll(r, chunks) <==> !TooLarge(r, |Flatten(chunks)|)
  {
    ConsumeReads(r, chunks);
    Streaming(r, chunks);
    hide Read, ReadAll, ConsumeAll;
  }

  lemma ReadBuffer(r: Request, bytes: Text)
    requires Valid(r)
    ensures var o := Read(r, bytes); o.Took? ==> |o.r.buf| <= |r.buf| + |bytes|
  {
    if MidLine(r) {
      TakeLinesMore(r.(buf := []), r.buf + bytes, []);
      BufferTaken(r, bytes);
    }
    hide TakeLines, LineEnd;
  }

  /** Within the header limit nothing is refused for its size, however it is cut. */
  lemma {:induction false} WithinLimit(r: Request, chunks: seq<Text>)
    requires Valid(r) && |r.buf| + |Flatten(chunks)| <= MAX_HEADER_SIZE
    ensures ConsumeAll(r, chunks) == Read(r, Flatten(chunks))
    decreases chunks
  {
    if chunks == [] {
      ReadNothing(r);
    } else {
      ReadMore(r, chunks[0], Flatten(chunks[1..]));
      ReadValid(r, chunks[0]);
      ReadBuffer(r, chunks[0]);
      hide Read, Valid;
      var o := Read(r, chunks[0]);
      if o.Took? {
        WithinLimit(o.r, chunks[1..]);
      }
    }
  }
}
