/**
 The request object, by assignment: `consume` and what it calls (http/impl/request.hpp, http/impl/parser.hpp,
 http/parser.hpp). Exceptions are returned.
 */
module HttpStream {
  import opened Bytes
  import opened Wrappers
  import opened HttpParser
  import Q = HttpRequest
  import opened HttpRequest

  //
  // White space
  //

  method ExtractLws(s: Text, begin: nat) returns (it: nat)
    requires begin <= |s|
    ensures it == begin + Lws(s[begin..]) <= |s|
  {
    it := begin;
    if |s| - begin > 2 && s[begin] == CR && s[begin + 1] == LF && IsSpace(s[begin + 2]) {
      it := it + 3;
    }
    ghost var start := it;
    assert s[start..] == s[begin..][start - begin..];
    while it < |s| && IsSpace(s[it])
      invariant start <= it <= |s| && it + Spaces(s[it..]) == start + Spaces(s[start..])
    {
      assert s[it..][1..] == s[it + 1..];
      it := it + 1;
    }
  }

  method ExtractAllLws(s: Text) returns (newIt: nat)
    ensures newIt == AllLws(s)
  {
    assert s[0..] == s;
    var oldIt := 0;
    newIt := ExtractLws(s, oldIt);
    while newIt != |s| && oldIt != newIt
      invariant oldIt <= newIt <= |s| && newIt == oldIt + Lws(s[oldIt..])
      invariant oldIt + AllLws(s[oldIt..]) == AllLws(s)
      decreases |s| - oldIt
    {
      assert s[oldIt..][newIt - oldIt..] == s[newIt..];
      oldIt := newIt;
      newIt := ExtractLws(s, oldIt);
    }
  }

  method StripLws(s: Text) returns (r: Option<Text>)
    ensures r == Strip(s)
  {
    hide AllLws;
    var begin := ExtractAllLws(s);
    if begin == |s| { return Some([]); }
    var end := ExtractAllLws(Reverse(s));
    if begin > |s| - end { return None; }
    return Some(s[begin..|s| - end]);
  }

  /** `std::search` for a line end. */
  method SearchDelimiter(s: Text, begin: nat) returns (end: nat)
    requires begin <= |s|
    ensures end == begin + LineEnd(s[begin..])
  {
    end := begin;
    while end < |s| && !(end + 1 < |s| && s[end] == CR && s[end + 1] == LF)
      invariant begin <= end <= |s| && end + LineEnd(s[end..]) == begin + LineEnd(s[begin..])
    {
      assert s[end..][1..] == s[end + 1..];
      end := end + 1;
    }
  }

  method FindChar(s: Text, begin: nat, c: byte) returns (at: nat)
    requires begin <= |s|
    ensures at == begin + IndexOf(s[begin..], c)
  {
    at := begin;
    while at < |s| && s[at] != c
      invariant begin <= at <= |s| && at + IndexOf(s[at..], c) == begin + IndexOf(s[begin..], c)
    {
      assert s[at..][1..] == s[at + 1..];
      at := at + 1;
    }
  }

  method CheckToken(s: Text) returns (ok: bool)
    ensures ok <==> Token(s)
  {
    for i := 0 to |s|
      invariant forall j :: 0 <= j < i ==> IsToken(s[j])
    {
      if !IsToken(s[i]) { return false; }
    }
    return true;
  }

  //
  // The object
  //

  class RequestParser {
    var buf: Text
    var method_: Text
    var uri: Text
    var version: Text
    var headers: seq<Header>
    var body: Text
    var bodyNeeded: nat
    var ready: bool

    ghost function Abs(): Request
      reads this
    {
      Request.Request(buf, method_, uri, version, headers, body, bodyNeeded, ready)
    }

    constructor ()
      ensures Abs() == FRESH
    {
      buf, method_, uri, version, headers, body, bodyNeeded, ready := [], [], [], [], [], [], 0, false;
    }

    method AppendHeader(name: Text, value: Text) returns (error: Option<Error>)
      modifies this`headers
      ensures error == if Token(name) then None else Some(InvalidHeaderName)
      ensures headers == if Token(name) then Append(old(headers), name, value) else old(headers)
    {
      var token := CheckToken(name);
      if !token { return Some(InvalidHeaderName); }
      if Get(headers, name) == [] {
        headers := Put(headers, name, value);
      } else {
        headers := Put(headers, name, Get(headers, name) + COMMA + value);
      }
      return None;
    }

    method ReplaceHeader(name: Text, value: Text)
      modifies this`headers
      ensures headers == Put(old(headers), name, value)
    {
      headers := Put(headers, name, value);
    }

    method SetBody(value: Text)
      modifies this`headers, this`body
      ensures Abs() == Q.SetBody(old(Abs()), value)
    {
      if |value| == 0 {
        headers := Remove(headers, CONTENT_LENGTH);
        body := [];
        return;
      }
      ReplaceHeader(CONTENT_LENGTH, Decimal(|value|));
      body := value;
    }

    /** The request line. */
    method Process(line: Text) returns (error: Option<Error>)
      modifies this`method_, this`uri, this`version
      ensures match ProcessLine(old(Abs()), line)
        case Good(r) => error.None? && Abs() == r
        case Bad(e) => error == Some(e)
    {
      hide IndexOf, Token;
      assert line[0..] == line;
      var cursor := FindChar(line, 0, SP);
      if cursor == |line| { return Some(InvalidRequestLine); }
      var token := CheckToken(line[..cursor]);
      if !token { return Some(InvalidMethod); }
      method_ := line[..cursor];
      var start := cursor + 1;
      cursor := FindChar(line, start, SP);
      if cursor == |line| { return Some(InvalidRequestLine); }
      ghost var rest := line[start..];
      assert rest[..cursor - start] == line[start..cursor] && rest[cursor - start + 1..] == line[cursor + 1..];
      uri := line[start..cursor];
      version := line[cursor + 1..];
      return None;
    }

    method ProcessHeader(line: Text) returns (error: Option<Error>)
      modifies this`headers
      ensures match Q.ProcessHeader(old(Abs()), line)
        case Good(r) => error.None? && Abs() == r
        case Bad(e) => error == Some(e)
    {
      hide IndexOf, Token, Strip, Append;
      assert line[0..] == line;
      var cursor := FindChar(line, 0, COLON);
      if cursor == |line| { return Some(InvalidHeaderLine); }
      var name := StripLws(line[..cursor]);
      var value := StripLws(line[cursor + 1..]);
      if name.None? || value.None? { return Some(LengthError); }
      error := AppendHeader(name.value, value.value);
    }

    /** Whether there is a body to come. */
    method PrepareBody() returns (hasBody: bool, error: Option<Error>)
      requires bodyNeeded == 0
      modifies this`bodyNeeded
      ensures match Q.PrepareBody(old(Abs()))
        case Good(r) => error.None? && Abs() == r && (!hasBody ==> bodyNeeded == 0)
        case Bad(e) => error == Some(e)
    {
      var length := Get(headers, CONTENT_LENGTH);
      if length != [] {
        bodyNeeded := Strtoul(length);
        if bodyNeeded > MAX_BODY_SIZE { return false, Some(BodyTooLarge); }
        return true, None;
      }
      return false, None;
    }

    method ProcessBody(bytes: Text) returns (processed: nat)
      modifies this`body, this`bodyNeeded
      ensures processed <= |bytes| && processed <= old(bodyNeeded)
        && (processed < old(bodyNeeded) ==> processed == |bytes|)
      ensures body == old(body) + bytes[..processed] && bodyNeeded == old(bodyNeeded) - processed
    {
      processed := if bodyNeeded < |bytes| then bodyNeeded else |bytes|;
      body := body + bytes[..processed];
      bodyNeeded := bodyNeeded - processed;
    }

    /** The body bytes of one read, and whether the request is complete with them. */
    method FinishBody(bytes: Text) returns (processed: nat)
      requires !ready
      modifies this`body, this`bodyNeeded, this`ready
      ensures TakeBody(old(Abs()), bytes) == Took(Abs(), processed)
    {
      processed := ProcessBody(bytes);
      if bodyNeeded == 0 {
        ready := true;
      }
    }

    /** The blank line at `end`, with `text` the buffer and `bytes` the end of it. */
    method FinishHeaders(bytes: Text, end: nat) returns (n: nat, error: Option<Error>)
      requires !ready && bodyNeeded == 0 && end + 2 <= |buf| && |buf| - (end + 2) <= |bytes|
      requires |bytes| <= |buf| && bytes == buf[|buf| - |bytes|..]
      requires LineEnd(buf[end..]) == 0
      modifies this
      ensures match TakeLines(old(Abs()).(buf := []), old(buf[end..]))
        case Took(r, m) => error.None? && Abs() == r && n == m + end - (|old(buf)| - |bytes|)
        case Thrown(e) => error == Some(e)
    {
      hide LineEnd, Get, Strtoul;
      n := 0;
      if method_ == [] || Get(headers, HOST) == [] { return n, Some(IncompleteRequest); }
      n := |bytes| - (|buf| - end) + 2;
      assert bytes[n..] == buf[end..][2..];
      buf := [];
      var hasBody;
      hasBody, error := PrepareBody();
      if error.Some? { return; }
      if hasBody {
        var processed := FinishBody(bytes[n..]);
        n := n + processed;
      } else {
        assert body + bytes[n..][..0] == body;
        ready := true;
      }
    }

    method Line(line: Text) returns (error: Option<Error>)
      modifies this`method_, this`uri, this`version, this`headers
      ensures match NextLine(old(Abs()), line)
        case Good(r) => error.None? && Abs() == r
        case Bad(e) => error == Some(e)
    {
      hide Q.ProcessLine, Q.ProcessHeader;
      if method_ == [] {
        error := Process(line);
      } else {
        error := ProcessHeader(line);
      }
    }

    method Consume(bytes: Text) returns (n: nat, error: Option<Error>)
      requires Valid(Abs())
      modifies this
      ensures match Q.Consume(old(Abs()), bytes)
        case Took(r, m) => error.None? && Abs() == r && n == m
        case Thrown(e) => error == Some(e)
    {
      n, error := 0, None;
      if ready { return; }
      if bodyNeeded > 0 {
        n := FinishBody(bytes);
        return;
      }
      if |buf| + |bytes| > MAX_HEADER_SIZE { return 0, Some(HeaderTooLarge); }
      BufferTaken(Abs(), bytes);
      buf := buf + bytes;
      n, error := Lines(bytes, |buf| - |bytes|);
    }

    /** The line of the buffer from `begin` to `end`. */
    method TakeOne(begin: nat, end: nat) returns (error: Option<Error>)
      requires !ready && bodyNeeded == 0 && begin < end < |buf| && end == begin + LineEnd(buf[begin..])
      modifies this`method_, this`uri, this`version, this`headers
      ensures error.Some? ==> TakeLines(old(Abs()).(buf := []), buf[begin..]) == Thrown(error.value)
      ensures error.None? ==> end + 2 <= |buf|
      ensures error.None? ==>
        TakeLines(old(Abs()).(buf := []), buf[begin..])
          == Plus(end + 2 - begin, TakeLines(Abs().(buf := []), buf[end + 2..]))
    {
      hide TakeLines, LineEnd, NextLine;
      ghost var rest := buf[begin..];
      assert rest[..end - begin] == buf[begin..end] && rest[end - begin + 2..] == buf[end + 2..];
      NextLineBuffer(Abs(), buf[begin..end]);
      TakeLinesNext(Abs().(buf := []), rest);
      error := Line(buf[begin..end]);
    }

    /** The loop over lines; `kept` bytes were in the buffer before. */
    method Lines(bytes: Text, ghost kept: nat) returns (n: nat, error: Option<Error>)
      requires !ready && bodyNeeded == 0 && kept + |bytes| == |buf| && bytes == buf[kept..]
      requires LineEnd(buf[..kept]) == kept
      modifies this
      ensures match Without(TakeLines(old(Abs()).(buf := []), old(buf)), kept)
        case Took(r, m) => error.None? && Abs() == r && n == m
        case Thrown(e) => error == Some(e)
    {
      hide TakeLines, LineEnd, NextLine;
      n, error := 0, None;
      var begin := 0;
      ghost var goal := TakeLines(Abs().(buf := []), buf);
      assert buf[0..] == buf;
      while true
        invariant begin <= |buf| && !ready && bodyNeeded == 0 && buf == old(buf)
        invariant Plus(begin, TakeLines(Abs().(buf := []), buf[begin..])) == goal
        invariant begin == 0 || begin > kept
        decreases |buf| - begin
      {
        var end := SearchDelimiter(buf, begin);
        LineEndPast(buf, kept, begin);
        TakeLinesUnended(Abs().(buf := []), buf[begin..]);
        if end == |buf| {
          buf := buf[begin..];
          return |bytes|, None;
        }
        if end == begin {
          n, error := FinishHeaders(bytes, end);
          return;
        }
        error := TakeOne(begin, end);
        if error.Some? { return; }
        begin := end + 2;
      }
    }

    method RawHeaders() returns (raw: Text)
      ensures raw == Q.RawHeaders(headers)
    {
      raw := [];
      assert headers[0..] == headers;
      for i := 0 to |headers|
        invariant raw + Q.RawHeaders(headers[i..]) == Q.RawHeaders(headers)
      {
        RawHeadersStep(headers, i);
        hide Q.RawHeaders;
        var line := headers[i].name + [COLON, SP] + headers[i].value + Q.CRLF;
        raw := raw + line;
      }
    }

    method Raw() returns (raw: Text)
      ensures raw == Q.Raw(Abs())
    {
      var lines := RawHeaders();
      raw := method_ + [SP] + uri + [SP] + version + Q.CRLF;
      raw := raw + (lines + Q.CRLF + body);
      assert lines + Q.CRLF + body == lines + (Q.CRLF + body);
    }
  }

  lemma RawHeadersStep(hs: seq<Header>, i: nat)
    requires i < |hs|
    ensures Q.RawHeaders(hs[i..]) == Q.HeaderLine(hs[i]) + Q.CRLF + Q.RawHeaders(hs[i + 1..])
  {
  }

  /** A line end found past the bytes kept, or in the middle of them and the new ones. */
  lemma LineEndPast(text: Text, kept: nat, begin: nat)
    requires kept <= |text| && begin <= |text| && LineEnd(text[..kept]) == kept && (begin == 0 || begin > kept)
    ensures LineEnd(text[begin..]) < |text[begin..]| ==> begin + LineEnd(text[begin..]) + 2 > kept
  {
    if begin == 0 {
      assert text[..kept] + text[kept..] == text && text[0..] == text;
      LineEndMore(text[..kept], text[kept..]);
    }
  }

  lemma TakeLinesUnended(r: Request, text: Text)
    ensures LineEnd(text) == |text| ==> TakeLines(r, text) == Took(r.(buf := text), |text|)
  {
  }

  lemma TakeLinesNext(r: Request, text: Text)
    requires !r.ready && r.bodyNeeded == 0 && r.buf == [] && 0 < LineEnd(text) < |text|
    ensures match NextLine(r, text[..LineEnd(text)])
      case Bad(e) => TakeLines(r, text) == Thrown(e)
      case Good(q) =>
        && !q.ready && q.bodyNeeded == 0
        && TakeLines(r, text) == Plus(LineEnd(text) + 2, TakeLines(q, text[LineEnd(text) + 2..]))
  {
    LineKeeps(r, text[..LineEnd(text)]);
    hide LineEnd, NextLine;
  }

  /** Lines are processed without looking at the buffer. */
  lemma NextLineBuffer(r: Request, line: Text)
    ensures NextLine(r.(buf := []), line) == match NextLine(r, line)
      case Good(q) => Good(q.(buf := []))
      case Bad(e) => Bad(e)
  {
  }
}
