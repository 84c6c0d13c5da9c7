/**
 Requests written out and read back: `raw`, `set_body` and `consume`.
 */
module HttpRoundTrip {
  import opened Bytes
  import opened Wrappers
  import opened HttpParser
  import opened HttpRequest

  //
  // Requests that can be written on a wire
  //

  predicate NoBreak(s: Text) {
    CR !in s && LF !in s
  }

  predicate Trimmed(s: Text) {
    s != [] ==> !IsSpace(s[0]) && !IsSpace(s[|s| - 1])
  }

  predicate GoodHeader(h: Header) {
    Token(h.name) && NoBreak(h.value) && Trimmed(h.value)
  }

  predicate GoodHeaders(hs: seq<Header>) {
    Sorted(hs) && forall h :: h in hs ==> GoodHeader(h)
  }

  predicate GoodLine(r: Request) {
    r.method_ != [] && Token(r.method_) && NoBreak(r.uri) && SP !in r.uri && NoBreak(r.version)
  }

  predicate Sendable(r: Request) {
    && GoodLine(r)
    && GoodHeaders(r.headers) && Get(r.headers, HOST) != []
  }

  //
  // Lines
  //

  lemma {:induction false} LineEndAt(x: Text, rest: Text)
    requires NoBreak(x)
    ensures LineEnd(x + (CRLF + rest)) == |x|
  {
    var s := x + (CRLF + rest);
    if x != [] {
      assert s[1..] == x[1..] + (CRLF + rest);
      LineEndAt(x[1..], rest);
    }
  }

  lemma {:induction false} IndexOfAt(a: Text, c: byte, rest: Text)
    requires c !in a
    ensures IndexOf(a + ([c] + rest), c) == |a|
  {
    if a != [] {
      assert (a + ([c] + rest))[1..] == a[1..] + ([c] + rest);
      IndexOfAt(a[1..], c, rest);
    }
  }

  /** A text split at the first `c`. */
  lemma SplitAt(a: Text, c: byte, rest: Text)
    requires c !in a
    ensures var s := a + ([c] + rest); IndexOf(s, c) == |a| < |s| && s[..|a|] == a && s[|a| + 1..] == rest
  {
    IndexOfAt(a, c, rest);
    hide IndexOf;
  }

  lemma TokenPlain(s: Text)
    requires Token(s)
    ensures NoBreak(s) && Trimmed(s) && COLON !in s && SP !in s
  {
    if s != [] {
      assert s[0] in s && s[|s| - 1] in s;
    }
  }

  /** The request once its first line has been read. */
  function Head(r: Request): Request {
    FRESH.(method_ := r.method_, uri := r.uri, version := r.version)
  }

  lemma TokenNoSpace(s: Text)
    requires Token(s)
    ensures SP !in s && NoBreak(s)
  {
    TokenPlain(s);
    hide Token, Trimmed;
  }

  lemma RequestLinePlain(r: Request)
    requires GoodLine(r)
    ensures NoBreak(RequestLine(r)) && RequestLine(r) != []
  {
    TokenNoSpace(r.method_);
    hide Token;
  }

  lemma ProcessParts(line: Text, a: Text, b: Text, c: Text)
    requires line == a + ([SP] + (b + ([SP] + c))) && Token(a) && SP !in a && SP !in b
    ensures ProcessLine(FRESH, line) == Good(FRESH.(method_ := a, uri := b, version := c))
  {
    hide Token, IndexOf;
    SplitAt(a, SP, b + ([SP] + c));
    SplitAt(b, SP, c);
  }

  lemma RequestLineRead(r: Request)
    requires GoodLine(r)
    ensures ProcessLine(FRESH, RequestLine(r)) == Good(Head(r))
  {
    TokenNoSpace(r.method_);
    hide Token, ProcessLine, NoBreak;
    assert RequestLine(r) == r.method_ + ([SP] + (r.uri + ([SP] + r.version)));
    ProcessParts(RequestLine(r), r.method_, r.uri, r.version);
  }

  //
  // White space
  //

  lemma NoLws(s: Text)
    requires s == [] || (!IsSpace(s[0]) && s[0] != CR)
    ensures AllLws(s) == 0 && AllLws([SP] + s) == 1
  {
  }

  /** Nothing is stripped from a text that neither starts nor ends with white space. */
  lemma StripTrimmed(s: Text)
    requires NoBreak(s) && Trimmed(s)
    ensures Strip(s) == Some(s)
    ensures Strip([SP] + s) == Some(s)
  {
    var t := [SP] + s;
    if s != [] {
      assert s[0] in s && s[|s| - 1] in s;
      assert Reverse(s)[0] == s[|s| - 1] && Reverse(t)[0] == s[|s| - 1];
      NoLws(Reverse(t));
      NoLws(Reverse(s));
    }
    NoLws(s);
    hide AllLws, Reverse;
    assert s[..|s|] == s && t[1..|t|] == s;
  }

  predicate Blank(s: Text) {
    forall c :: c in s ==> IsSpace(c)
  }

  lemma {:induction false} SpacesBefore(blank: Text, t: Text)
    requires Blank(blank) && (t == [] || !IsSpace(t[0]))
    ensures Spaces(blank + t) == |blank|
  {
    if blank == [] {
      assert blank + t == t;
    } else {
      assert (blank + t)[1..] == blank[1..] + t;
      SpacesBefore(blank[1..], t);
    }
  }

  lemma LwsBefore(blank: Text, t: Text)
    requires Blank(blank) && (t == [] || (!IsSpace(t[0]) && t[0] != CR))
    ensures AllLws(blank + t) == |blank|
  {
    SpacesBefore(blank, t);
    NoLws(t);
    assert (blank + t)[|blank|..] == t;
    assert blank != [] ==> (blank + t)[0] in blank;
    assert Lws(blank + t) == |blank| by { assert blank == [] ==> blank + t == t; }
  }

  /** Whatever blanks and tabs stand around a value, it is found between them. */
  lemma StripPadded(before: Text, t: Text, behind: Text)
    requires Blank(before) && Blank(behind) && Trimmed(t) && NoBreak(t)
    ensures Strip(before + t + behind) == Some(t)
  {
    var s := before + t + behind;
    hide AllLws, Lws, Spaces;
    if t == [] {
      LwsBefore(s, []);
      assert s + [] == s;
    } else {
      assert t[0] in t && t[|t| - 1] in t;
      LwsBefore(before, t + behind);
      assert s == before + (t + behind);
      LwsBefore(Reverse(behind), Reverse(before + t));
      assert Reverse(s) == Reverse(behind) + Reverse(before + t);
      assert s[|before|..|before| + |t|] == t;
    }
  }

  lemma HeaderLinePlain(h: Header)
    requires GoodHeader(h)
    ensures NoBreak(HeaderLine(h)) && HeaderLine(h) != []
  {
  }

  lemma HeaderParts(h: Header)
    requires GoodHeader(h)
    ensures COLON !in h.name && Token(h.name)
    ensures Strip(h.name) == Some(h.name) && Strip([SP] + h.value) == Some(h.value)
  {
    TokenPlain(h.name);
    StripTrimmed(h.name);
    StripTrimmed(h.value);
    hide Strip, Token, NoBreak, Trimmed;
  }

  lemma HeaderRead(p: Request, h: Header)
    requires GoodHeader(h)
    ensures ProcessHeader(p, HeaderLine(h)) == Good(p.(headers := Append(p.headers, h.name, h.value)))
  {
    var rest := [SP] + h.value;
    assert HeaderLine(h) == h.name + ([COLON] + rest);
    HeaderParts(h);
    hide Strip, Append, Token, IndexOf, GoodHeader, HeaderLine;
    SplitAt(h.name, COLON, rest);
  }

  //
  // The order of headers
  //

  lemma {:induction false} LessAsymmetric(a: Text, b: Text)
    requires Less(a, b)
    ensures !Less(b, a)
  {
    if a != [] && ToLower(a[0]) == ToLower(b[0]) {
      LessAsymmetric(a[1..], b[1..]);
    }
  }

  /** A header that comes after all others is added at the end. */
  lemma {:induction false} AppendLast(hs: seq<Header>, h: Header)
    requires forall i :: 0 <= i < |hs| ==> Less(hs[i].name, h.name)
    ensures Get(hs, h.name) == [] && Put(hs, h.name, h.value) == hs + [h]
  {
    if hs != [] {
      LessAsymmetric(hs[0].name, h.name);
      AppendLast(hs[1..], h);
      assert hs + [h] == [hs[0]] + (hs[1..] + [h]);
    }
  }

  lemma NextHeaderLine(p: Request, h: Header)
    requires p.method_ != [] && GoodHeader(h) && forall i :: 0 <= i < |p.headers| ==> Less(p.headers[i].name, h.name)
    ensures NextLine(p, HeaderLine(h)) == Good(p.(headers := p.headers + [h]))
  {
    HeaderRead(p, h);
    AppendLast(p.headers, h);
    hide HeaderLine, GoodHeader, Less, Get, Put, ProcessHeader;
  }

  /** A text that starts with a line. */
  lemma LineFirst(p: Request, line: Text, later: Text, q: Request)
    requires NoBreak(line) && line != [] && NextLine(p, line) == Good(q)
    ensures TakeLines(p, line + (CRLF + later)) == Plus(|line| + 2, TakeLines(q, later))
  {
    var text := line + (CRLF + later);
    LineEndAt(line, later);
    hide TakeLines, LineEnd, NextLine;
    assert text[..|line|] == line && text[|line| + 2..] == later;
    TakeLine(p, text, |line|, q);
  }

  lemma HeaderLineRead(p: Request, h: Header, later: Text)
    requires p.method_ != [] && GoodHeader(h) && forall i :: 0 <= i < |p.headers| ==> Less(p.headers[i].name, h.name)
    ensures TakeLines(p, HeaderLine(h) + (CRLF + later)) ==
      Plus(|HeaderLine(h)| + 2, TakeLines(p.(headers := p.headers + [h]), later))
  {
    hide TakeLines, NextLine, HeaderLine, GoodHeader, Less;
    NextHeaderLine(p, h);
    HeaderLinePlain(h);
    LineFirst(p, HeaderLine(h), later, p.(headers := p.headers + [h]));
  }

  /** The header lines of a request, read one after the other. */
  lemma {:induction false} HeadersRead(p: Request, todo: seq<Header>, rest: Text)
    requires p.method_ != [] && GoodHeaders(p.headers + todo)
    ensures TakeLines(p, RawHeaders(todo) + rest)
      == Plus(|RawHeaders(todo)|, TakeLines(p.(headers := p.headers + todo), rest))
    decreases todo
  {
    if todo == [] {
      assert RawHeaders(todo) + rest == rest;
      assert p.headers + todo == p.headers;
      PlusNothing(TakeLines(p, rest));
    } else {
      var h, later := todo[0], RawHeaders(todo[1..]) + rest;
      var q := p.(headers := p.headers + [h]);
      NextHeader(p.headers, todo);
      hide TakeLines, HeaderLine, GoodHeader, GoodHeaders, Less;
      assert RawHeaders(todo) + rest == HeaderLine(h) + (CRLF + later);
      HeaderLineRead(p, h, later);
      HeadersRead(q, todo[1..], rest);
      PlusPlus(|HeaderLine(h)| + 2, |RawHeaders(todo[1..])|, TakeLines(p.(headers := p.headers + todo), rest));
    }
  }

  lemma NextHeader(done: seq<Header>, todo: seq<Header>)
    requires todo != [] && GoodHeaders(done + todo)
    ensures GoodHeader(todo[0]) && (done + [todo[0]]) + todo[1..] == done + todo
    ensures forall i :: 0 <= i < |done| ==> Less(done[i].name, todo[0].name)
  {
    var all := done + todo;
    assert all[|done|] == todo[0] && todo[0] in all;
    hide GoodHeader, Less;
    forall i | 0 <= i < |done| ensures Less(done[i].name, todo[0].name) {
      assert all[i] == done[i];
    }
  }

  lemma PlusNothing(o: Outcome)
    ensures Plus(0, o) == o
  {
  }

  lemma TakeLine(p: Request, text: Text, k: nat, q: Request)
    requires LineEnd(text) == k && 0 < k < |text| && NextLine(p, text[..k]) == Good(q)
    ensures TakeLines(p, text) == Plus(k + 2, TakeLines(q, text[k + 2..]))
  {
  }

  lemma BlankLine(body: Text)
    ensures LineEnd(CRLF + body) == 0 && (CRLF + body)[2..] == body
  {
  }

  lemma WholeBody(p: Request, body: Text)
    requires p.bodyNeeded == |body| && p.body == []
    ensures TakeBody(p, body) == Took(p.(body := body, bodyNeeded := 0, ready := true), |body|)
  {
    assert body[..|body|] == body && [] + body == body;
  }

  lemma BodyPrepared(p: Request, body: Text)
    requires body == [] ==> Get(p.headers, CONTENT_LENGTH) == []
    requires body != [] ==> Get(p.headers, CONTENT_LENGTH) == Decimal(|body|)
    requires |body| <= MAX_BODY_SIZE
    ensures PrepareBody(p) == Good(p.(bodyNeeded := |body|))
  {
    StrtoulDecimal(|body|);
    hide Get, Strtoul;
  }

  /** The blank line and the body. */
  lemma BodyRead(p: Request, body: Text)
    requires p.method_ != [] && Get(p.headers, HOST) != []
    requires p.buf == [] && p.body == [] && p.bodyNeeded == 0 && !p.ready
    requires body == [] ==> Get(p.headers, CONTENT_LENGTH) == []
    requires body != [] ==> Get(p.headers, CONTENT_LENGTH) == Decimal(|body|)
    requires |body| <= MAX_BODY_SIZE
    ensures TakeLines(p, CRLF + body) == Took(p.(body := body, ready := true), |CRLF + body|)
  {
    hide LineEnd, Get, PrepareBody, TakeBody;
    BlankLine(body);
    BodyPrepared(p, body);
    WholeBody(p.(bodyNeeded := |body|), body);
  }

  /** What a request is read back as. */
  function Received(r: Request): Request {
    r.(buf := [], bodyNeeded := 0, ready := true)
  }

  lemma HeadRead(r: Request, later: Text)
    requires GoodLine(r)
    ensures TakeLines(FRESH, RequestLine(r) + (CRLF + later)) == Plus(|RequestLine(r)| + 2, TakeLines(Head(r), later))
  {
    RequestLineRead(r);
    RequestLinePlain(r);
    hide TakeLines, ProcessLine, GoodLine, RequestLine, NoBreak;
    LineFirst(FRESH, RequestLine(r), later, Head(r));
  }

  lemma HeadersBodyRead(r: Request)
    requires Sendable(r) && |r.body| <= MAX_BODY_SIZE
    requires Get(r.headers, CONTENT_LENGTH) == if r.body == [] then [] else Decimal(|r.body|)
    ensures var later := RawHeaders(r.headers) + (CRLF + r.body);
      TakeLines(Head(r), later) == Took(Received(r), |later|)
  {
    var p := Head(r);
    assert p.headers + r.headers == r.headers;
    hide TakeLines, RawHeaders, GoodHeaders, Get;
    HeadersRead(p, r.headers, CRLF + r.body);
    BodyRead(p.(headers := r.headers), r.body);
  }

  lemma RawSplits(r: Request)
    ensures Raw(r) == RequestLine(r) + (CRLF + (RawHeaders(r.headers) + (CRLF + r.body)))
  {
    hide RequestLine, RawHeaders;
  }

  lemma RawRead(r: Request)
    requires Sendable(r) && |r.body| <= MAX_BODY_SIZE
    requires Get(r.headers, CONTENT_LENGTH) == if r.body == [] then [] else Decimal(|r.body|)
    ensures Read(FRESH, Raw(r)) == Took(Received(r), |Raw(r)|)
  {
    assert GoodLine(r);
    hide TakeLines, Read, Sendable, GoodLine, RawHeaders, RequestLine, Raw, Get, Received, Head, Decimal;
    var later := RawHeaders(r.headers) + (CRLF + r.body);
    FreshRead(Raw(r));
    HeadRead(r, later);
    HeadersBodyRead(r);
    RawSplits(r);
    assert |Raw(r)| == |RequestLine(r)| + 2 + |later|;
  }

  lemma FreshRead(text: Text)
    ensures Read(FRESH, text) == TakeLines(FRESH, text)
  {
    assert FRESH.buf + text == text;
    hide TakeLines;
  }

  //
  // Setting the body
  //

  lemma {:induction false} LessTransitive(a: Text, b: Text, c: Text)
    requires Less(a, b) && Less(b, c)
    ensures Less(a, c)
  {
    if a != [] && ToLower(a[0]) == ToLower(b[0]) == ToLower(c[0]) {
      LessTransitive(a[1..], b[1..], c[1..]);
    }
  }

  /** Names that differ only in case stand in the same place. */
  lemma {:induction false} SameLess(a: Text, b: Text, c: Text)
    requires Same(a, b)
    ensures Less(a, c) <==> Less(b, c)
    ensures Less(c, a) <==> Less(c, b)
  {
    if a != [] && b != [] {
      assert ToLower(a[0]) == ToLower(b[0]);
      if c != [] && ToLower(a[0]) == ToLower(c[0]) {
        assert Same(a[1..], b[1..]);
        SameLess(a[1..], b[1..], c[1..]);
      }
    }
  }

  lemma {:induction false} SameSelf(a: Text)
    ensures Same(a, a)
  {
    if a != [] {
      SameSelf(a[1..]);
    }
  }

  lemma {:induction false} PutGet(hs: seq<Header>, name: Text, value: Text)
    ensures Get(Put(hs, name, value), name) == value
  {
    SameSelf(name);
    if hs != [] {
      PutGet(hs[1..], name, value);
    }
    hide Less;
  }

  lemma {:induction false} PutOther(hs: seq<Header>, name: Text, value: Text, other: Text)
    requires !Same(name, other)
    ensures Get(Put(hs, name, value), other) == Get(hs, other)
  {
    if hs != [] {
      PutOther(hs[1..], name, value, other);
      if Same(hs[0].name, name) {
        SameLess(hs[0].name, name, other);
      }
    }
    hide Less;
    assert ([Header(name, value)] + hs)[1..] == hs;
  }

  lemma {:induction false} RemoveOther(hs: seq<Header>, name: Text, other: Text)
    requires !Same(name, other)
    ensures Get(Remove(hs, name), other) == Get(hs, other)
  {
    if hs != [] {
      RemoveOther(hs[1..], name, other);
      if Same(hs[0].name, name) {
        SameLess(hs[0].name, name, other);
      }
    }
    hide Less;
  }

  predicate Above(low: Text, hs: seq<Header>) {
    forall h :: h in hs ==> Less(low, h.name)
  }

  /** A sorted list, by its head and its tail. */
  lemma GoodCons(h: Header, hs: seq<Header>)
    ensures GoodHeaders([h] + hs) <==> GoodHeader(h) && GoodHeaders(hs) && Above(h.name, hs)
  {
    hide GoodHeader, Less;
    var all := [h] + hs;
    assert all[1..] == hs && all[0] == h;
    if GoodHeaders(all) {
      forall i, j | 0 <= i < j < |hs| ensures Less(hs[i].name, hs[j].name) {
        assert all[i + 1] == hs[i] && all[j + 1] == hs[j];
      }
      forall x | x in hs ensures Less(h.name, x.name) && GoodHeader(x) {
        var i :| 0 <= i < |hs| && hs[i] == x;
        assert all[i + 1] == x && x in all;
      }
      assert h in all;
    }
    if GoodHeader(h) && GoodHeaders(hs) && Above(h.name, hs) {
      forall i, j | 0 <= i < j < |all| ensures Less(all[i].name, all[j].name) {
        assert all[j] == hs[j - 1] && all[j] in hs;
        if i > 0 { assert all[i] == hs[i - 1]; }
      }
    }
  }

  lemma {:induction false} GetSame(hs: seq<Header>, a: Text, b: Text)
    requires Same(a, b)
    ensures Get(hs, a) == Get(hs, b)
  {
    if hs != [] {
      SameLess(a, b, hs[0].name);
      hide Less;
      GetSame(hs[1..], a, b);
    }
  }

  /** A header given again is joined to what is there with a comma and a space, and no other changes. */
  lemma AppendGet(hs: seq<Header>, name: Text, value: Text, other: Text)
    ensures Get(Append(hs, name, value), other) ==
      if !Same(name, other) then Get(hs, other)
      else if Get(hs, other) == [] then value else Get(hs, other) + [44, 32] + value
  {
    var joined := if Get(hs, name) == [] then value else Get(hs, name) + [44, 32] + value;
    hide Get, Put, Same;
    if Same(name, other) {
      GetSame(hs, name, other);
      GetSame(Put(hs, name, joined), name, other);
      PutGet(hs, name, joined);
    } else {
      PutOther(hs, name, joined, other);
    }
  }

  lemma {:induction false} PutAbove(low: Text, hs: seq<Header>, name: Text, value: Text)
    requires Above(low, hs) && Less(low, name)
    ensures Above(low, Put(hs, name, value))
  {
    hide Less;
    if hs != [] {
      assert hs[0] in hs;
      PutAbove(low, hs[1..], name, value);
    }
  }

  lemma {:induction false} RemoveAbove(low: Text, hs: seq<Header>, name: Text)
    requires Above(low, hs)
    ensures Above(low, Remove(hs, name))
  {
    hide Less;
    if hs != [] {
      assert hs[0] in hs;
      RemoveAbove(low, hs[1..], name);
    }
  }

  lemma AboveHead(name: Text, hs: seq<Header>)
    requires hs != [] && Less(name, hs[0].name) && Above(hs[0].name, hs[1..])
    ensures Above(name, hs)
  {
    forall h | h in hs ensures Less(name, h.name) {
      if h != hs[0] {
        assert h in hs[1..];
        LessTransitive(name, hs[0].name, h.name);
      }
    }
  }

  lemma {:induction false} PutGood(hs: seq<Header>, h: Header)
    requires GoodHeaders(hs) && GoodHeader(h)
    ensures GoodHeaders(Put(hs, h.name, h.value))
  {
    hide Less, GoodHeader, GoodHeaders;
    if hs == [] {
      GoodCons(h, hs);
    } else {
      var g, rest := hs[0], hs[1..];
      assert hs == [g] + rest;
      GoodCons(g, rest);
      assert h == Header(h.name, h.value);
      if Less(h.name, g.name) {
        AboveHead(h.name, hs);
        GoodCons(h, hs);
      } else if Same(g.name, h.name) {
        RenamedGood(g, h);
        GoodCons(Header(g.name, h.value), rest);
      } else {
        PutGood(rest, h);
        PutAbove(g.name, rest, h.name, h.value);
        GoodCons(g, Put(rest, h.name, h.value));
      }
    }
  }

  lemma RenamedGood(g: Header, h: Header)
    requires GoodHeader(g) && GoodHeader(h)
    ensures GoodHeader(Header(g.name, h.value))
  {
  }

  lemma {:induction false} GetAbove(hs: seq<Header>, name: Text)
    requires Above(name, hs)
    ensures Get(hs, name) == []
  {
    hide Less;
    if hs != [] {
      assert hs[0] in hs;
      GetAbove(hs[1..], name);
    }
  }

  lemma {:induction false} RemoveGood(hs: seq<Header>, name: Text)
    requires GoodHeaders(hs)
    ensures GoodHeaders(Remove(hs, name)) && Get(Remove(hs, name), name) == []
  {
    hide Less, GoodHeader, GoodHeaders;
    if hs == [] {
    } else {
      var g, rest := hs[0], hs[1..];
      assert hs == [g] + rest;
      GoodCons(g, rest);
      if Same(g.name, name) {
        forall h | h in rest ensures Less(name, h.name) {
          SameLess(g.name, name, h.name);
        }
        GetAbove(rest, name);
      } else {
        RemoveGood(rest, name);
        RemoveAbove(g.name, rest, name);
        GoodCons(g, Remove(rest, name));
        assert ([g] + Remove(rest, name))[1..] == Remove(rest, name);
      }
    }
  }

  lemma LengthHeaderGood(n: nat)
    ensures GoodHeader(Header(CONTENT_LENGTH, Decimal(n))) && !Same(CONTENT_LENGTH, HOST)
  {
    var d := Decimal(n);
    DecimalDigits(n);
    assert d[0] in d && d[|d| - 1] in d;
    assert IsDigit(d[0]) && IsDigit(d[|d| - 1]);
    forall c | c in CONTENT_LENGTH ensures IsToken(c) {
    }
  }

  lemma NoBodyGood(r: Request)
    requires Sendable(r)
    ensures var b := SetBody(r, []); Sendable(b) && Get(b.headers, CONTENT_LENGTH) == []
  {
    LengthHeaderGood(0);
    hide GoodHeader, GoodHeaders, Same, Decimal, Token, NoBreak, Get, Put, Remove;
    RemoveGood(r.headers, CONTENT_LENGTH);
    RemoveOther(r.headers, CONTENT_LENGTH, HOST);
  }

  lemma BodyGood(r: Request, body: Text)
    requires Sendable(r) && body != []
    ensures var b := SetBody(r, body); Sendable(b) && Get(b.headers, CONTENT_LENGTH) == Decimal(|body|)
  {
    LengthHeaderGood(|body|);
    hide GoodHeader, GoodHeaders, Same, Decimal, Token, NoBreak, Get, Put, Remove;
    PutGood(r.headers, Header(CONTENT_LENGTH, Decimal(|body|)));
    PutGet(r.headers, CONTENT_LENGTH, Decimal(|body|));
    PutOther(r.headers, CONTENT_LENGTH, Decimal(|body|), HOST);
  }

  /** Setting a body leaves a request that can be sent, with the length of the body in its headers. */
  lemma SetBodyGood(r: Request, body: Text)
    requires Sendable(r)
    ensures var b := SetBody(r, body);
      Sendable(b) && Get(b.headers, CONTENT_LENGTH) == if body == [] then [] else Decimal(|body|)
  {
    hide Sendable, SetBody, Get;
    if body == [] {
      NoBodyGood(r);
    } else {
      BodyGood(r, body);
    }
  }

  /** A request with its body set, no larger than the header limit, is read back by one call, which takes all of it. */
  lemma RoundTrip(r: Request, body: Text)
    requires Sendable(r) && |Raw(SetBody(r, body))| <= MAX_HEADER_SIZE
    ensures Consume(FRESH, Raw(SetBody(r, body))) == Took(Received(SetBody(r, body)), |Raw(SetBody(r, body))|)
  {
    hide Sendable, Raw, SetBody, Received, Read, Get;
    SetBodyGood(r, body);
    SetBodyBody(r, body);
    RawRead(SetBody(r, body));
  }

  lemma SetBodyBody(r: Request, body: Text)
    ensures SetBody(r, body).body == body && |Raw(SetBody(r, body))| >= |body|
  {
  }

  /** However it is cut into reads. */
  lemma RoundTripInPieces(r: Request, body: Text, chunks: seq<Text>)
    requires Sendable(r) && |Raw(SetBody(r, body))| <= MAX_HEADER_SIZE
    requires Flatten(chunks) == Raw(SetBody(r, body))
    ensures ConsumeAll(FRESH, chunks) == Took(Received(SetBody(r, body)), |Raw(SetBody(r, body))|)
  {
    RoundTrip(r, body);
    assert Valid(FRESH);
    WithinLimit(FRESH, chunks);
    hide Sendable, Raw, SetBody, Received, ConsumeAll, Read;
  }

  //
  // Names in any case
  //

  /** The same headers, their names in whatever case. */
  predicate Recased(hs: seq<Header>, gs: seq<Header>) {
    && |gs| == |hs|
    && forall i :: 0 <= i < |hs| ==> gs[i].value == hs[i].value && Same(hs[i].name, gs[i].name)
  }

  lemma RecasedToken(a: Text, b: Text)
    requires Same(a, b) && Token(a)
    ensures Token(b)
  {
    SameIff(a, b);
    hide Same;
    forall c | c in b ensures IsToken(c) {
      var i :| 0 <= i < |b| && b[i] == c;
      assert a[i] in a && SameLetter(a[i], b[i]);
    }
  }

  lemma RecasedGood(hs: seq<Header>, gs: seq<Header>)
    requires Recased(hs, gs) && GoodHeaders(hs)
    ensures GoodHeaders(gs)
  {
    hide Less, Same, Token, NoBreak, Trimmed;
    forall i, j | 0 <= i < j < |gs| ensures Less(gs[i].name, gs[j].name) {
      SameLess(hs[i].name, gs[i].name, gs[j].name);
      SameLess(hs[j].name, gs[j].name, hs[i].name);
    }
    forall h | h in gs ensures GoodHeader(h) {
      var i :| 0 <= i < |gs| && gs[i] == h;
      assert hs[i] in hs;
      RecasedToken(hs[i].name, gs[i].name);
    }
  }

  lemma {:induction false} RecasedGet(hs: seq<Header>, gs: seq<Header>, name: Text)
    requires Recased(hs, gs)
    ensures Get(gs, name) == Get(hs, name)
  {
    hide Less;
    if hs != [] {
      SameLess(hs[0].name, gs[0].name, name);
      RecasedGet(hs[1..], gs[1..], name);
    }
  }

  /** A request reads the same with its header names in any case, `host` and `content-length` included. */
  lemma RecasedRead(r: Request, body: Text, gs: seq<Header>)
    requires Sendable(r) && Recased(SetBody(r, body).headers, gs)
    requires |Raw(SetBody(r, body).(headers := gs))| <= MAX_HEADER_SIZE
    ensures var b := SetBody(r, body).(headers := gs);
      Consume(FRESH, Raw(b)) == Took(Received(b), |Raw(b)|) && b.body == body
    ensures forall name :: Get(gs, name) == Get(SetBody(r, body).headers, name)
  {
    var b := SetBody(r, body);
    SetBodyGood(r, body);
    SetBodyBody(r, body);
    RecasedGood(b.headers, gs);
    forall name ensures Get(gs, name) == Get(b.headers, name) {
      RecasedGet(b.headers, gs, name);
    }
    assert Sendable(b.(headers := gs));
    assert |Raw(b.(headers := gs))| >= |body|;
    hide Sendable, Raw, SetBody, Received, Read, Get, Recased;
    RawRead(b.(headers := gs));
  }

  //
  // The header limit
  //

  lemma {:induction false} NoLineEnd(n: nat)
    ensures LineEnd(Zeros(n)) == n
  {
    if n >= 2 {
      assert Zeros(n)[1..] == Zeros(n - 1);
      NoLineEnd(n - 1);
    }
  }

  lemma ShortLineRead(r: Request)
    requires GoodLine(r) && |RequestLine(r)| + 2 <= MAX_HEADER_SIZE
    ensures Consume(FRESH, RequestLine(r) + CRLF) == Took(Head(r), |RequestLine(r)| + 2)
  {
    var text := RequestLine(r) + CRLF;
    assert text == RequestLine(r) + (CRLF + []);
    HeadRead(r, []);
    assert TakeLines(Head(r), []) == Took(Head(r), 0) by { hide NextLine; }
    hide TakeLines, RequestLine, GoodLine;
    FreshRead(text);
    hide Read;
  }

  lemma TwoPieces(a: Text, b: Text)
    ensures Flatten([a, b]) == a + b
  {
    var last: seq<Text> := [b];
    assert [a, b][1..] == last && last[1..] == [] && Flatten(last) == b + Flatten([]);
    assert b + [] == b;
  }

  lemma ConsumeTwo(r: Request, a: Text, b: Text)
    requires Consume(r, a).Took? && Consume(Consume(r, a).r, b).Took?
    ensures ConsumeAll(r, [a, b]).Took?
  {
    hide Consume;
    var last: seq<Text> := [b];
    assert [a, b][1..] == last && last[1..] == [];
    assert ConsumeAll(Consume(Consume(r, a).r, b).r, []).Took?;
    assert ConsumeAll(Consume(r, a).r, last).Took?;
  }

  /** Pieces may be taken although the whole is refused for its size: lines taken no longer count against the limit. */
  lemma CutMayPass(r: Request, n: nat)
    requires GoodLine(r) && n <= MAX_HEADER_SIZE < |RequestLine(r)| + 2 + n && |RequestLine(r)| + 2 <= MAX_HEADER_SIZE
    ensures var chunks := [RequestLine(r) + CRLF, Zeros(n)];
      ConsumeAll(FRESH, chunks).Took? && Consume(FRESH, Flatten(chunks)) == Thrown(HeaderTooLarge)
  {
    var line, rest: Text := RequestLine(r) + CRLF, Zeros(n);
    ShortLineRead(r);
    hide RequestLine, GoodLine;
    NoLineEnd(n);
    assert [] + rest == rest;
    assert Consume(Head(r), rest).Took?;
    TwoPieces(line, rest);
    ConsumeTwo(FRESH, line, rest);
  }
}
