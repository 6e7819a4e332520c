/**
 The HTTP request parser: finding separators, the header loop, the length check and the check of the
 tree, against a rendering of requests (RFC 9112, sections 2.1, 3 and 5).
 */
module HttpParser {
  import opened S7Types
  import TextNumbers

  const CRLF := "\r\n"
  const INT_MAX := 0x7FFF_FFFF

  datatype Error = InvalidArgument | RuntimeError | OutOfRange

  datatype Result<T> = Ok(value: T) | Err(error: Error)

  datatype ASTNode = ASTNode(nodeType: string, children: seq<ASTNode>)

  // ---------------------------------------------------------------- searching

  predicate At(s: string, pat: string, i: nat) {
    i + |pat| <= |s| && s[i..i + |pat|] == pat
  }

  /** The first place at or after `i` where `pat` occurs. */
  function FindFrom(s: string, pat: string, i: nat): (r: Option<nat>)
    ensures r.Some? ==> i <= r.value && At(s, pat, r.value) && forall j :: i <= j < r.value ==> !At(s, pat, j)
    ensures r.None? ==> forall j :: i <= j ==> !At(s, pat, j)
    decreases |s| - i
  {
    if i + |pat| > |s| then None else if At(s, pat, i) then Some(i) else FindFrom(s, pat, i + 1)
  }

  function Find(s: string, pat: string): (r: Option<nat>)
    ensures r.Some? ==> At(s, pat, r.value) && forall j :: 0 <= j < r.value ==> !At(s, pat, j)
    ensures r.None? ==> forall j :: 0 <= j ==> !At(s, pat, j)
  {
    FindFrom(s, pat, 0)
  }

  ghost predicate Free(s: string, pat: string) {
    forall j :: 0 <= j ==> !At(s, pat, j)
  }

  /** Text is what comes before the find, the pattern and what comes after. */
  lemma FindSplits(s: string, pat: string)
    requires Find(s, pat).Some?
    ensures var k := Find(s, pat).value;
            k + |pat| <= |s| && s == s[..k] + pat + s[k + |pat|..]
  {
  }

  lemma FindIs(s: string, pat: string, k: nat)
    requires At(s, pat, k) && forall j :: 0 <= j < k ==> !At(s, pat, j)
    ensures Find(s, pat) == Some(k)
  {
    hide FindFrom, Find;
    var r := Find(s, pat);
    assert r.Some? && !(r.value < k) && !(k < r.value);
  }

  // ---------------------------------------------------------------- numbers

  predicate IsSpace(c: char) {
    c == ' ' || '\t' <= c <= '\r'
  }

  predicate IsDigit(c: char) {
    '0' <= c <= '9'
  }

  function SkipSpaces(s: string): string {
    if s != [] && IsSpace(s[0]) then SkipSpaces(s[1..]) else s
  }

  /** The longest run of digits at the start. */
  function LeadingDigits(s: string): string {
    if s != [] && IsDigit(s[0]) then [s[0]] + LeadingDigits(s[1..]) else []
  }

  function DecimalValue(s: string): nat {
    if s == [] then 0 else DecimalValue(s[..|s| - 1]) * 10 + (if IsDigit(s[|s| - 1]) then (s[|s| - 1] - '0') as nat else 0)
  }

  /** `std::stoi` in base 10: spaces, a sign, digits; what follows the digits is ignored. */
  function Stoi(text: string): Result<int> {
    var s := SkipSpaces(text);
    var signed := s != [] && (s[0] == '-' || s[0] == '+');
    var digits := LeadingDigits(if signed then s[1..] else s);
    var v := DecimalValue(digits);
    var n: int := if signed && s[0] == '-' then -(v as int) else v;
    if digits == [] then Err(InvalidArgument)
    else if -INT_MAX - 1 <= n <= INT_MAX then Ok(n)
    else Err(OutOfRange)
  }

  lemma {:induction false} SpacesAreSkipped(spaces: string, s: string)
    requires forall i :: 0 <= i < |spaces| ==> spaces[i] in {' ', '\t', '\n', '\U{0B}', '\U{0C}', '\r'}
    requires s == [] || s[0] !in {' ', '\t', '\n', '\U{0B}', '\U{0C}', '\r'}
    ensures SkipSpaces(spaces + s) == s
  {
    if spaces == [] {
      assert spaces + s == s;
    } else {
      assert (spaces + s)[1..] == spaces[1..] + s;
      SpacesAreSkipped(spaces[1..], s);
    }
  }

  lemma {:induction false} DigitsAreTaken(digits: string, rest: string)
    requires forall i :: 0 <= i < |digits| ==> '0' <= digits[i] <= '9'
    requires rest == [] || !('0' <= rest[0] <= '9')
    ensures LeadingDigits(digits + rest) == digits
  {
    if digits == [] {
      assert digits + rest == rest;
    } else {
      assert (digits + rest)[1..] == digits[1..] + rest;
      DigitsAreTaken(digits[1..], rest);
    }
  }

  /** The text of a number in base 10 is made of digits and has its value. */
  lemma {:induction false} TextHasValue(n: nat)
    ensures var s := TextNumbers.Text(n, 10);
            s != [] && DecimalValue(s) == n && forall i :: 0 <= i < |s| ==> '0' <= s[i] <= '9'
  {
    hide TextNumbers.Text;
    TextNumbers.TextByDigits(n, 10);
    var c := "0123456789abcdefghijklmnopqrstuvwxyz"[n % 10];
    assert '0' <= c <= '9' && (c - '0') as nat == n % 10 by { DecimalDigit(n % 10); }
    if n < 10 {
      assert [] + [c] == [c] && [c][..0] == [] && DecimalValue([]) == 0;
    } else {
      var before := TextNumbers.Text(n / 10, 10);
      TextHasValue(n / 10);
      assert (before + [c])[..|before|] == before;
    }
  }

  lemma DecimalDigit(d: nat)
    requires d < 10
    ensures var c := "0123456789abcdefghijklmnopqrstuvwxyz"[d]; '0' <= c <= '9' && (c - '0') as nat == d
  {
  }

  /**
   `std::stoi` reads spaces, an optional sign and the decimal text of a number up to what is no digit, and gives the
   number when it fits 32 bits.
   */
  lemma StoiReadsText(spaces: string, sign: string, n: nat, rest: string)
    requires forall i :: 0 <= i < |spaces| ==> spaces[i] in {' ', '\t', '\n', '\U{0B}', '\U{0C}', '\r'}
    requires sign in {"", "+", "-"} && (rest == [] || !('0' <= rest[0] <= '9'))
    ensures var v := if sign == "-" then -(n as int) else n;
            Stoi(spaces + sign + TextNumbers.Text(n, 10) + rest)
            == if -0x8000_0000 <= v <= 0x7FFF_FFFF then Ok(v) else Err(OutOfRange)
  {
    var digits := TextNumbers.Text(n, 10);
    var s := sign + digits + rest;
    TextHasValue(n);
    hide TextNumbers.Text, SkipSpaces, LeadingDigits, DecimalValue;
    assert spaces + sign + digits + rest == spaces + s;
    assert s[0] == if sign == "" then digits[0] else sign[0];
    SpacesAreSkipped(spaces, s);
    if sign == "" { assert s == digits + rest; } else { assert s[1..] == digits + rest; }
    DigitsAreTaken(digits, rest);
  }

  /** Without a digit behind the spaces and the sign there is nothing to read. */
  lemma StoiNeedsDigits(spaces: string, sign: string, rest: string)
    requires forall i :: 0 <= i < |spaces| ==> spaces[i] in {' ', '\t', '\n', '\U{0B}', '\U{0C}', '\r'}
    requires sign in {"", "+", "-"} && (rest == [] || !('0' <= rest[0] <= '9'))
    requires sign == "" ==> rest == [] || rest[0] !in {' ', '\t', '\n', '\U{0B}', '\U{0C}', '\r', '+', '-'}
    ensures Stoi(spaces + sign + rest) == Err(InvalidArgument)
  {
    var s := sign + rest;
    assert spaces + sign + rest == spaces + s;
    SpacesAreSkipped(spaces, s);
    if sign == "" { assert s == rest == [] + rest; } else { assert s[1..] == rest == [] + rest; }
    DigitsAreTaken([], rest);
    hide SkipSpaces, LeadingDigits;
  }

  // ---------------------------------------------------------------- the parser as a function

  datatype Header = Header(key: string, value: string)

  datatype Request = Request(verb: string, url: string, version: string, headers: seq<Header>, body: string)

  predicate KnownMethod(m: string) {
    m == "GET" || m == "POST" || m == "PUT" || m == "DELETE"
  }

  datatype RequestLine = RequestLine(verb: string, url: string, version: string)

  /** Verb, URL and version of a request line. */
  function ParseLine(line: string): Result<RequestLine> {
    match Find(line, " ")
    case None => Err(InvalidArgument)
    case Some(p) =>
      if !KnownMethod(line[..p]) then Err(RuntimeError)
      else
        var rest := line[p + 1..];
        match Find(rest, " ")
        case None => Err(InvalidArgument)
        case Some(q) =>
          var version := rest[q + 1..];
          if q == 0 then Err(InvalidArgument)
          else if version != [] && version[0] != 'H' then Err(RuntimeError)
          else Ok(RequestLine(line[..p], rest[..q], version))
  }

  /** Headers of the lines that end in CRLF; a line without a colon is skipped, one that ends in its colon is an error. */
  function ParseHeaders(h: string): Result<seq<Header>>
    decreases |h|
  {
    match Find(h, CRLF)
    case None => Ok([])
    case Some(p) =>
      var line, rest := h[..p], h[p + 2..];
      match Find(line, ":")
      case None => ParseHeaders(rest)
      case Some(q) =>
        if q + 2 > |line| then Err(OutOfRange)
        else
          match ParseHeaders(rest)
          case Err(e) => Err(e)
          case Ok(hs) => Ok([Header(line[..q], line[q + 2..])] + hs)
  }

  function FirstLength(hs: seq<Header>): Option<string> {
    if hs == [] then None else if hs[0].key == "Content-Length" then Some(hs[0].value) else FirstLength(hs[1..])
  }

  /** The first Content-Length, if there is one, has to be the body's length. */
  function CheckLength(hs: seq<Header>, size: nat): Result<()> {
    match FirstLength(hs)
    case None => Ok(())
    case Some(text) =>
      match Stoi(text)
      case Err(e) => Err(e)
      case Ok(n) => if n == size then Ok(()) else Err(RuntimeError)
  }

  function ParseRequest(input: string): Result<Request> {
    match Find(input, CRLF)
    case None => Err(InvalidArgument)
    case Some(p) =>
      match ParseLine(input[..p])
      case Err(e) => Err(e)
      case Ok(line) =>
        var rest := input[p + 2..];
        match Find(rest, CRLF + CRLF)
        case None => Err(InvalidArgument)
        case Some(q) =>
          match ParseHeaders(rest[..q])
          case Err(e) => Err(e)
          case Ok(hs) =>
            var body := rest[q + 4..];
            match CheckLength(hs, |body|)
            case Err(e) => Err(e)
            case Ok(_) => Ok(Request(line.verb, line.url, line.version, hs, body))
  }

  function Leaf(text: string): ASTNode {
    ASTNode(text, [])
  }

  function HeaderNode(h: Header): ASTNode {
    ASTNode(h.key, [Leaf(h.value)])
  }

  function HeaderNodes(hs: seq<Header>): (r: seq<ASTNode>)
    ensures |r| == |hs| && forall i :: 0 <= i < |hs| ==> r[i] == HeaderNode(hs[i])
  {
    if hs == [] then [] else HeaderNodes(hs[..|hs| - 1]) + [HeaderNode(hs[|hs| - 1])]
  }

  /** The tree of a request. */
  function Tree(r: Request): ASTNode {
    ASTNode("request", [
      ASTNode("method", [Leaf(r.verb)]), ASTNode("url", [Leaf(r.url)]), ASTNode("version", [Leaf(r.version)]),
      ASTNode("headers", HeaderNodes(r.headers)), ASTNode("body", [Leaf(r.body)])])
  }

  function TreeOf(r: Result<Request>): Result<ASTNode> {
    match r
    case Err(e) => Err(e)
    case Ok(request) => Ok(Tree(request))
  }

  // ---------------------------------------------------------------- the parser

  function PutBefore(got: seq<Header>, r: Result<seq<Header>>): Result<seq<Header>> {
    if r.Ok? then Ok(got + r.value) else r
  }

  /** The header loop: takes one line after the other off the front, until no CRLF is left. */
  method ParseHeaderLines(text: string) returns (result: Result<seq<ASTNode>>)
    ensures result == match ParseHeaders(text) { case Err(e) => Err(e) case Ok(hs) => Ok(HeaderNodes(hs)) }
  {
    hide Find, HeaderNodes;
    var headers, nodes := text, [];
    ghost var got: seq<Header> := [];
    NoNodes(ParseHeaders(text));
    while headers != []
      invariant ParseHeaders(text) == PutBefore(got, ParseHeaders(headers)) && nodes == HeaderNodes(got)
      decreases |headers|
    {
      var end := Find(headers, CRLF);
      if end.None? { break; }
      FindSplits(headers, CRLF);
      var headerLine := headers[..end.value];
      ghost var here := headers;
      headers := headers[end.value + 2..];
      var colon := Find(headerLine, ":");
      if colon.Some? {
        FindSplits(headerLine, ":");
        if colon.value + 2 > |headerLine| { return Err(OutOfRange); }
        var header := Header(headerLine[..colon.value], headerLine[colon.value + 2..]);
        nodes := nodes + [HeaderNode(header)];
        OneMoreNode(got, header);
        PutBeforeOne(got, header, ParseHeaders(headers));
        got := got + [header];
      }
    }
    if headers == [] { NothingLeft(); }
    assert ParseHeaders(text) == Ok(got + []);
    assert got + [] == got;
    result := Ok(nodes);
  }

  lemma NothingLeft()
    ensures ParseHeaders([]) == Ok([])
  {
    NothingFound();
  }

  lemma NoNodes(r: Result<seq<Header>>)
    ensures HeaderNodes([]) == [] && PutBefore([], r) == r
  {
    if r.Ok? { assert [] + r.value == r.value; }
  }

  lemma OneMoreNode(hs: seq<Header>, h: Header)
    ensures HeaderNodes(hs + [h]) == HeaderNodes(hs) + [HeaderNode(h)]
  {
    assert (hs + [h])[..|hs|] == hs;
  }

  lemma PutBeforeOne(got: seq<Header>, h: Header, r: Result<seq<Header>>)
    ensures PutBefore(got, PutBefore([h], r)) == PutBefore(got + [h], r)
    ensures PutBefore([h], r) == match r { case Err(e) => Err(e) case Ok(hs) => Ok([h] + hs) }
  {
    if r.Ok? { assert got + ([h] + r.value) == (got + [h]) + r.value; }
  }

  /** The first header node of that type, compared with the body's length. */
  method CheckContentLength(nodes: seq<ASTNode>, ghost hs: seq<Header>, size: nat) returns (result: Result<()>)
    requires nodes == HeaderNodes(hs)
    ensures result == CheckLength(hs, size)
  {
    hide Stoi;
    var i := 0;
    assert hs[0..] == hs;
    while i < |nodes|
      invariant 0 <= i <= |nodes| == |hs| && FirstLength(hs[i..]) == FirstLength(hs)
    {
      assert hs[i..][1..] == hs[i + 1..];
      if nodes[i].nodeType == "Content-Length" {
        var contentLength := Stoi(nodes[i].children[0].nodeType);
        if contentLength.Err? { return Err(contentLength.error); }
        if contentLength.value != size { return Err(RuntimeError); }
        return Ok(());
      }
      i := i + 1;
    }
    return Ok(());
  }

  /** The request line: verb up to the first space, URL up to the next, the rest is the version. */
  method ParseRequestLine(line: string) returns (result: Result<RequestLine>)
    ensures result == ParseLine(line)
  {
    hide Find, KnownMethod;
    var firstLine := line;
    var pos := Find(firstLine, " ");
    if pos.None? { return Err(InvalidArgument); }
    FindSplits(firstLine, " ");
    var verb := firstLine[..pos.value];
    if !KnownMethod(verb) { return Err(RuntimeError); }
    firstLine := firstLine[pos.value + 1..];
    pos := Find(firstLine, " ");
    if pos.None? { return Err(InvalidArgument); }
    FindSplits(firstLine, " ");
    var url := firstLine[..pos.value];
    if url == [] { return Err(InvalidArgument); }
    firstLine := firstLine[pos.value + 1..];
    if firstLine != [] && firstLine[0] != 'H' { return Err(RuntimeError); }
    result := Ok(RequestLine(verb, url, firstLine));
  }

  method parseHTTPRequest(request: string) returns (result: Result<ASTNode>)
    ensures result == TreeOf(ParseRequest(request))
    ensures result.Ok? ==>
              var r, node := ParseRequest(request).value, result.value;
              && node.nodeType == "request" && |node.children| == 5
              && node.children[0] == ASTNode("method", [ASTNode(r.verb, [])])
              && node.children[1] == ASTNode("url", [ASTNode(r.url, [])])
              && node.children[2] == ASTNode("version", [ASTNode(r.version, [])])
              && node.children[3].nodeType == "headers" && |node.children[3].children| == |r.headers|
              && (forall i :: 0 <= i < |r.headers| ==>
                    node.children[3].children[i] == ASTNode(r.headers[i].key, [ASTNode(r.headers[i].value, [])]))
              && node.children[4] == ASTNode("body", [ASTNode(r.body, [])])
  {
    hide Find, ParseLine, ParseHeaders, CheckLength, HeaderNodes;
    var input := request;
    if input == [] {
      NothingFound();
      return Err(InvalidArgument);
    }
    var pos := Find(input, CRLF);
    if pos.None? { return Err(InvalidArgument); }
    FindSplits(input, CRLF);
    var line := ParseRequestLine(input[..pos.value]);
    if line.Err? { return Err(line.error); }
    input := input[pos.value + 2..];
    pos := Find(input, CRLF + CRLF);
    if pos.None? { return Err(InvalidArgument); }
    FindSplits(input, CRLF + CRLF);
    var headers := input[..pos.value];
    input := input[pos.value + 4..];
    var nodes := ParseHeaderLines(headers);
    if nodes.Err? { return Err(nodes.error); }
    var checked := CheckContentLength(nodes.value, ParseHeaders(headers).value, |input|);
    if checked.Err? { return Err(checked.error); }
    result := Ok(ASTNode("request", [
      ASTNode("method", [Leaf(line.value.verb)]), ASTNode("url", [Leaf(line.value.url)]),
      ASTNode("version", [Leaf(line.value.version)]), ASTNode("headers", nodes.value), ASTNode("body", [Leaf(input)])]));
  }

  lemma NothingFound()
    ensures Find([], CRLF) == None
  {
  }

  // ---------------------------------------------------------------- rendering and parsing back

  function RenderHeaders(hs: seq<Header>): string {
    if hs == [] then "" else hs[0].key + ": " + hs[0].value + CRLF + RenderHeaders(hs[1..])
  }

  function Render(r: Request): string {
    r.verb + " " + r.url + " " + r.version + CRLF + RenderHeaders(r.headers) + CRLF + r.body
  }

  ghost predicate WellFormedHeader(h: Header) {
    Free(h.key, ":") && Free(h.key + ": " + h.value, CRLF)
  }

  ghost predicate WellFormed(r: Request) {
    && KnownMethod(r.verb) && r.url != [] && Free(r.url, " ") && (r.version != [] ==> r.version[0] == 'H')
    && Free(r.verb + " " + r.url + " " + r.version, CRLF)
    && forall i :: 0 <= i < |r.headers| ==> WellFormedHeader(r.headers[i])
  }

  /** A line without CRLF is found up to the CRLF that ends it. */
  lemma FindLineEnd(line: string, rest: string)
    requires Free(line, CRLF)
    ensures Find(line + CRLF + rest, CRLF) == Some(|line|)
  {
    var s := line + CRLF + rest;
    assert s[|line|..|line| + 2] == CRLF;
    forall j | 0 <= j < |line| ensures !At(s, CRLF, j) {
      NoneInside(line, CRLF + rest, j);
      assert s == line + (CRLF + rest);
    }
    FindIs(s, CRLF, |line|);
  }

  /** Text that begins with CR adds no CRLF that starts in the line before it. */
  lemma NoneInside(line: string, after: string, j: nat)
    requires Free(line, CRLF) && j < |line| && after != [] && after[0] == '\r'
    ensures !At(line + after, CRLF, j)
  {
    var s := line + after;
    if j + 2 <= |line| {
      assert s[j..j + 2] == line[j..j + 2];
      assert !At(line, CRLF, j);
    } else {
      assert s[j..j + 2][1] == '\r';
    }
  }

  lemma FindChar(a: string, c: char, rest: string)
    requires Free(a, [c])
    ensures Find(a + [c] + rest, [c]) == Some(|a|)
  {
    var s := a + [c] + rest;
    assert s[|a|..|a| + 1] == [c];
    forall j | 0 <= j < |a| ensures !At(s, [c], j) {
      assert s[j..j + 1] == a[j..j + 1];
      assert !At(a, [c], j);
    }
    FindIs(s, [c], |a|);
  }

  function Line(h: Header): string {
    h.key + ": " + h.value
  }

  /** The header lines with CRLF between them. */
  function Joined(hs: seq<Header>): string
    requires hs != []
  {
    if |hs| == 1 then Line(hs[0]) else Line(hs[0]) + CRLF + Joined(hs[1..])
  }

  lemma {:induction false} RenderIsJoined(hs: seq<Header>)
    requires hs != []
    ensures RenderHeaders(hs) == Joined(hs) + CRLF
  {
    if |hs| > 1 {
      RenderIsJoined(hs[1..]);
      assert Line(hs[0]) + CRLF + Joined(hs[1..]) + CRLF == Line(hs[0]) + CRLF + (Joined(hs[1..]) + CRLF);
    } else {
      assert RenderHeaders(hs[1..]) == "";
      assert Line(hs[0]) + CRLF + "" == Line(hs[0]) + CRLF;
    }
  }

  ghost predicate WellFormedHeaders(hs: seq<Header>) {
    forall i :: 0 <= i < |hs| ==> WellFormedHeader(hs[i])
  }

  lemma TailWellFormed(hs: seq<Header>)
    requires hs != [] && WellFormedHeaders(hs)
    ensures WellFormedHeader(hs[0]) && WellFormedHeaders(hs[1..])
  {
  }

  /** The blank line is not met before the last header line has ended. */
  lemma {:induction false} NoBlankBefore(hs: seq<Header>, body: string, j: nat)
    requires hs != [] && WellFormedHeaders(hs) && j < |Joined(hs)|
    ensures !At(Joined(hs) + (CRLF + CRLF + body), CRLF + CRLF, j)
  {
    TailWellFormed(hs);
    var line := Line(hs[0]);
    var end := CRLF + CRLF + body;
    var s := Joined(hs) + end;
    if j < |line| {
      var after := if |hs| == 1 then end else CRLF + Joined(hs[1..]) + end;
      assert s == line + after;
      NoneInside(line, after, j);
      BlankStartsWithCrlf(s, j);
    } else {
      var rest := Joined(hs[1..]) + end;
      assert s == line + CRLF + rest;
      var i := j - |line|;
      if i == 0 {
        NextLineIsNotBlank(hs[1..], end);
        assert s[j + 2..j + 4] == rest[..2];
        assert s[j..j + 4][2..] == s[j + 2..j + 4] != (CRLF + CRLF)[2..];
      } else if i == 1 {
        assert s[j..j + 4][0] == s[j] == '\n';
      } else {
        NoBlankBefore(hs[1..], body, i - 2);
        ShiftedBlank(line + CRLF, rest, j);
      }
    }
  }

  lemma BlankStartsWithCrlf(s: string, j: nat)
    ensures At(s, CRLF + CRLF, j) ==> At(s, CRLF, j)
  {
    if At(s, CRLF + CRLF, j) { assert s[j..j + 2] == s[j..j + 4][..2]; }
  }

  lemma ShiftedBlank(before: string, rest: string, j: nat)
    requires |before| <= j
    ensures At(before + rest, CRLF + CRLF, j) <==> At(rest, CRLF + CRLF, j - |before|)
  {
    var s, k := before + rest, j - |before|;
    if j + 4 <= |s| { assert s[j..j + 4] == rest[k..k + 4]; }
  }

  /** A header line holds its colon and space, so it does not begin with the CRLF that would end it. */
  lemma NextLineIsNotBlank(hs: seq<Header>, end: string)
    requires hs != [] && WellFormedHeaders(hs)
    ensures var rest := Joined(hs) + end; |rest| >= 2 && rest[..2] != CRLF
  {
    TailWellFormed(hs);
    var rest := Joined(hs) + end;
    var line := Line(hs[0]);
    assert |line| >= 2;
    assert rest[..2] == line[..2];
    assert line[..2] == line[0..0 + 2];
    assert !At(line, CRLF, 0);
  }

  lemma FindBlank(hs: seq<Header>, body: string)
    requires hs != [] && WellFormedHeaders(hs)
    ensures Find(Joined(hs) + (CRLF + CRLF + body), CRLF + CRLF) == Some(|Joined(hs)|)
  {
    var n := |Joined(hs)|;
    var s := Joined(hs) + (CRLF + CRLF + body);
    assert s[n..n + 4] == CRLF + CRLF;
    forall j | 0 <= j < n ensures !At(s, CRLF + CRLF, j) {
      NoBlankBefore(hs, body, j);
    }
    FindIs(s, CRLF + CRLF, n);
  }

  lemma ColonFound(h: Header)
    requires WellFormedHeader(h)
    ensures Find(Line(h), ":") == Some(|h.key|) && |h.key| + 2 <= |Line(h)|
    ensures Line(h)[..|h.key|] == h.key && Line(h)[|h.key| + 2..] == h.value
  {
    var line := Line(h);
    assert line == h.key + [':'] + (" " + h.value);
    FindChar(h.key, ':', " " + h.value);
  }

  /** A line that CRLF ends gives its header: what stands before the first colon, and what stands behind the next character. */
  lemma EndedLineIsKept(h: Header, rest: string)
    requires WellFormedHeader(h)
    ensures ParseHeaders(h.key + ": " + h.value + "\r\n" + rest)
            == match ParseHeaders(rest) { case Err(e) => Err(e) case Ok(hs) => Ok([h] + hs) }
  {
    var line := Line(h);
    assert h.key + ": " + h.value + "\r\n" + rest == line + CRLF + rest;
    var s := line + CRLF + rest;
    FindLineEnd(line, rest);
    ColonFound(h);
    assert s[..|line|] == line && s[|line| + 2..] == rest;
    hide Find, Line, WellFormedHeader;
  }

  /** The header loop keeps all headers but the last, whose line no CRLF ends any more. */
  lemma {:induction false} HeadersRoundTrip(hs: seq<Header>)
    requires hs != [] && WellFormedHeaders(hs)
    ensures ParseHeaders(Joined(hs)) == Ok(hs[..|hs| - 1])
  {
    hide ParseHeaders, WellFormedHeader, WellFormedHeaders, Line;
    TailWellFormed(hs);
    if |hs| == 1 {
      LastLineIsDropped(hs[0]);
      assert hs[..0] == [];
    } else {
      EndedLineIsKept(hs[0], Joined(hs[1..]));
      JoinedUnfolds(hs);
      HeadersRoundTrip(hs[1..]);
      AllButLast(hs);
    }
  }

  /** A line without a colon is skipped, and one that ends in its first colon is an error. */
  lemma OtherLines(line: string, rest: string)
    requires Free(line, "\r\n")
    ensures Free(line, ":") ==> ParseHeaders(line + "\r\n" + rest) == ParseHeaders(rest)
    ensures line != [] && line[|line| - 1] == ':' && Free(line[..|line| - 1], ":") ==>
              ParseHeaders(line + "\r\n" + rest) == Err(OutOfRange)
  {
    var s := line + CRLF + rest;
    FindLineEnd(line, rest);
    CutAt(line, CRLF, rest);
    if line != [] && line[|line| - 1] == ':' && Free(line[..|line| - 1], ":") {
      assert line == line[..|line| - 1] + [':'] + "";
      FindChar(line[..|line| - 1], ':', "");
    }
    if Free(line, ":") { assert Find(line, ":") == None; }
    hide Find, Free;
  }

  lemma JoinedUnfolds(hs: seq<Header>)
    requires |hs| > 1
    ensures Joined(hs) == hs[0].key + ": " + hs[0].value + "\r\n" + Joined(hs[1..])
  {
  }

  lemma LastLineIsDropped(h: Header)
    requires WellFormedHeader(h)
    ensures ParseHeaders(Line(h)) == Ok([])
  {
    assert Find(Line(h), CRLF) == None;
  }

  lemma AllButLast<T>(s: seq<T>)
    requires |s| > 1
    ensures s[..|s| - 1] == [s[0]] + s[1..][..|s| - 2]
  {
  }

  lemma VerbFree(m: string)
    requires KnownMethod(m)
    ensures Free(m, " ")
  {
    forall j | 0 <= j ensures !At(m, " ", j) {
      if j < |m| { assert m[j..j + 1][0] == m[j] != ' '; }
    }
  }

  lemma LineRoundTrip(verb: string, url: string, version: string)
    requires KnownMethod(verb) && url != [] && Free(url, " ") && (version != [] ==> version[0] == 'H')
    ensures ParseLine(verb + " " + url + " " + version) == Ok(RequestLine(verb, url, version))
  {
    hide Find, KnownMethod, Free;
    var rest := url + " " + version;
    var line := verb + " " + rest;
    assert verb + " " + url + " " + version == line;
    VerbFree(verb);
    FindChar(verb, ' ', rest);
    FindChar(url, ' ', version);
    CutAt(verb, " ", rest);
    CutAt(url, " ", version);
  }

  lemma CutAt(a: string, mid: string, b: string)
    ensures (a + mid + b)[..|a|] == a && (a + mid + b)[|a| + |mid|..] == b
  {
  }

  /**
   Parsing the rendering of a well-formed request with at least one header gives back its verb, URL, version
   and body and all headers but the last, or the error of the length check on those headers.
   */
  lemma RoundTrip(r: Request)
    requires r.verb in {"GET", "POST", "PUT", "DELETE"} && r.url != [] && Free(r.url, " ") && (r.version != [] ==> r.version[0] == 'H')
    requires Free(r.verb + " " + r.url + " " + r.version, "\r\n") && WellFormedHeaders(r.headers) && r.headers != []
    ensures var kept := r.headers[..|r.headers| - 1];
            ParseRequest(r.verb + " " + r.url + " " + r.version + "\r\n" + RenderHeaders(r.headers) + "\r\n" + r.body)
            == match CheckLength(kept, |r.body|) {
              case Ok(_) => Ok(r.(headers := kept))
              case Err(e) => Err(e)
            }
  {
    var line := r.verb + " " + r.url + " " + r.version;
    var h := Joined(r.headers);
    var rest := h + (CRLF + CRLF + r.body);
    RenderSplits(r);
    assert KnownMethod(r.verb);
    hide Joined, Find, ParseLine, ParseHeaders, CheckLength, Free, KnownMethod, WellFormedHeader, ParseRequest;
    FindLineEnd(line, rest);
    LineRoundTrip(r.verb, r.url, r.version);
    assert WellFormedHeaders(r.headers);
    FindBlank(r.headers, r.body);
    HeadersRoundTrip(r.headers);
    ParsedInParts(line, h, r.body);
  }

  /** The parser on a text that is cut where its parts end. */
  lemma ParsedInParts(line: string, h: string, body: string)
    requires Find(line + CRLF + (h + (CRLF + CRLF + body)), CRLF) == Some(|line|) && ParseLine(line).Ok?
    requires Find(h + (CRLF + CRLF + body), CRLF + CRLF) == Some(|h|) && ParseHeaders(h).Ok?
    ensures var l, hs := ParseLine(line).value, ParseHeaders(h).value;
            ParseRequest(line + CRLF + (h + (CRLF + CRLF + body)))
            == match CheckLength(hs, |body|) {
              case Ok(_) => Ok(Request(l.verb, l.url, l.version, hs, body))
              case Err(e) => Err(e)
            }
  {
    hide Find, ParseLine, ParseHeaders, CheckLength;
    var rest := h + (CRLF + CRLF + body);
    CutAt(line, CRLF, rest);
    assert rest == h + (CRLF + CRLF) + body;
    CutAt(h, CRLF + CRLF, body);
  }

  lemma RenderSplits(r: Request)
    requires r.headers != []
    ensures Render(r) == (r.verb + " " + r.url + " " + r.version) + CRLF + (Joined(r.headers) + (CRLF + CRLF + r.body))
  {
    RenderIsJoined(r.headers);
    hide Joined, RenderHeaders;
  }

  /** It succeeds exactly when the first Content-Length kept, if there is one, reads as the body's length. */
  lemma SucceedsIff(r: Request)
    requires WellFormed(r) && r.headers != []
    ensures var length := FirstLength(r.headers[..|r.headers| - 1]);
            ParseRequest(Render(r)).Ok? <==> length.None? || Stoi(length.value) == Ok(|r.body|)
  {
    RoundTrip(r);
    hide ParseRequest, WellFormed, Stoi;
  }

  lemma {:induction false} FirstLengthIs(hs: seq<Header>, i: nat)
    requires i <= |hs| && forall j :: 0 <= j < i ==> hs[j].key != "Content-Length"
    requires i < |hs| ==> hs[i].key == "Content-Length"
    ensures FirstLength(hs) == if i < |hs| then Some(hs[i].value) else None
  {
    if i > 0 { FirstLengthIs(hs[1..], i - 1); }
  }

  /**
   A well-formed request whose first Content-Length kept is the text of a number parses when it is the body's length and
   fits 32 bits, and is refused otherwise; without a Content-Length kept it parses.
   */
  lemma ContentLengthDecides(r: Request, i: nat, n: nat)
    requires r.verb in {"GET", "POST", "PUT", "DELETE"} && r.url != [] && Free(r.url, " ") && (r.version != [] ==> r.version[0] == 'H')
    requires Free(r.verb + " " + r.url + " " + r.version, "\r\n") && WellFormedHeaders(r.headers) && r.headers != []
    requires i < |r.headers| && forall j :: 0 <= j < i ==> r.headers[j].key != "Content-Length"
    requires i < |r.headers| - 1 ==> r.headers[i].key == "Content-Length" && r.headers[i].value == TextNumbers.Text(n, 10)
    ensures ParseRequest(r.verb + " " + r.url + " " + r.version + "\r\n" + RenderHeaders(r.headers) + "\r\n" + r.body) ==
            if i == |r.headers| - 1 || n == |r.body| <= 0x7FFF_FFFF then Ok(r.(headers := r.headers[..|r.headers| - 1]))
            else if n > 0x7FFF_FFFF then Err(OutOfRange) else Err(RuntimeError)
  {
    hide ParseRequest, Stoi, TextNumbers.Text, RenderHeaders, Free, WellFormedHeaders;
    RoundTrip(r);
    FirstLengthIs(r.headers[..|r.headers| - 1], i);
    StoiReadsText("", "", n, "");
    assert "" + "" + TextNumbers.Text(n, 10) + "" == TextNumbers.Text(n, 10);
  }

  /** Any other verb is refused, whatever follows it. */
  lemma OtherVerbsAreRefused(verb: string, more: string, rest: string)
    requires Free(verb, " ") && Free(verb + " " + more, "\r\n") && verb !in {"GET", "POST", "PUT", "DELETE"}
    ensures ParseRequest(verb + " " + more + "\r\n" + rest) == Err(RuntimeError)
  {
    var line := verb + " " + more;
    FindLineEnd(line, rest);
    FindChar(verb, ' ', more);
    CutAt(line, CRLF, rest);
    CutAt(verb, " ", more);
    hide Find, Free, ParseHeaders, CheckLength;
  }

  /** A request without headers is refused, unless its body brings a blank line of its own. */
  lemma HeaderlessIsRefused(r: Request)
    requires WellFormed(r) && r.headers == [] && Free(CRLF + r.body, CRLF + CRLF)
    ensures ParseRequest(Render(r)) == Err(InvalidArgument)
  {
    var line := r.verb + " " + r.url + " " + r.version;
    var rest := CRLF + r.body;
    var s := line + CRLF + rest;
    assert Render(r) == s;
    FindLineEnd(line, rest);
    assert s[..|line|] == line && s[|line| + 2..] == rest;
    LineRoundTrip(r.verb, r.url, r.version);
    hide ParseLine, WellFormed;
  }

  /** Whatever is accepted is a rendering: its parts, put back together around the header text, are the input. */
  lemma AcceptedDecomposes(input: string) returns (h: string)
    requires ParseRequest(input).Ok?
    ensures var r := ParseRequest(input).value;
            && input == r.verb + " " + r.url + " " + r.version + CRLF + h + CRLF + CRLF + r.body
            && ParseHeaders(h) == Ok(r.headers) && CheckLength(r.headers, |r.body|).Ok?
            && KnownMethod(r.verb) && r.url != [] && Free(r.url, " ") && (r.version != [] ==> r.version[0] == 'H')
  {
    hide ParseLine, ParseHeaders, CheckLength, Find, KnownMethod, Free;
    FindSplits(input, CRLF);
    var p := Find(input, CRLF).value;
    var line, rest := input[..p], input[p + 2..];
    LineDecomposes(line);
    FindSplits(rest, CRLF + CRLF);
    h := rest[..Find(rest, CRLF + CRLF).value];
  }

  /** A request without headers never parses back to itself: what follows its only CRLF pair is too short. */
  lemma HeaderlessNeverRoundTrips(r: Request)
    requires r.headers == []
    ensures ParseRequest(Render(r)) != Ok(r)
  {
    var result := ParseRequest(Render(r));
    HeaderlessLength(r);
    hide ParseRequest, Render;
    if result.Ok? {
      var h := AcceptedDecomposes(Render(r));
      var q := result.value;
      assert |Render(r)| == |q.verb| + |q.url| + |q.version| + |h| + |q.body| + 8;
    }
  }

  lemma HeaderlessLength(r: Request)
    requires r.headers == []
    ensures |Render(r)| == |r.verb| + |r.url| + |r.version| + |r.body| + 6
  {
  }

  lemma BeforeFindIsFree(s: string, c: char)
    requires Find(s, [c]).Some?
    ensures Free(s[..Find(s, [c]).value], [c])
  {
    var k := Find(s, [c]).value;
    forall j | 0 <= j ensures !At(s[..k], [c], j) {
      if j < k { assert s[..k][j..j + 1] == s[j..j + 1]; assert !At(s, [c], j); }
    }
  }

  lemma LineDecomposes(line: string)
    requires ParseLine(line).Ok?
    ensures var l := ParseLine(line).value;
            && line == l.verb + " " + l.url + " " + l.version
            && KnownMethod(l.verb) && l.url != [] && Free(l.url, " ") && (l.version != [] ==> l.version[0] == 'H')
  {
    hide Find, KnownMethod, Free;
    FindSplits(line, " ");
    var p := Find(line, " ").value;
    var rest := line[p + 1..];
    FindSplits(rest, " ");
    BeforeFindIsFree(rest, ' ');
    var l := ParseLine(line).value;
    assert line == l.verb + " " + (l.url + " " + l.version);
  }

  // ---------------------------------------------------------------- the tree check

  const REQUIRED := ["method", "url", "version", "headers", "body"]

  ghost predicate HasChild(node: ASTNode, name: string) {
    exists i :: 0 <= i < |node.children| && node.children[i].nodeType == name
  }

  ghost predicate ValidTree(node: ASTNode) {
    node.nodeType == "request" && forall i :: 0 <= i < |REQUIRED| ==> HasChild(node, REQUIRED[i])
  }

  lemma RequiredNames(node: ASTNode)
    ensures ValidTree(node) <==>
            && node.nodeType == "request" && HasChild(node, "method") && HasChild(node, "url") && HasChild(node, "version")
            && HasChild(node, "headers") && HasChild(node, "body")
  {
    hide HasChild;
    if ValidTree(node) {
      assert HasChild(node, REQUIRED[0]) && HasChild(node, REQUIRED[1]) && HasChild(node, REQUIRED[2]);
      assert HasChild(node, REQUIRED[3]) && HasChild(node, REQUIRED[4]);
    }
  }

  method isASTValid(node: ASTNode) returns (valid: bool)
    ensures valid <==> ValidTree(node)
    ensures valid <==>
            && node.nodeType == "request"
            && (exists i :: 0 <= i < |node.children| && node.children[i].nodeType == "method")
            && (exists i :: 0 <= i < |node.children| && node.children[i].nodeType == "url")
            && (exists i :: 0 <= i < |node.children| && node.children[i].nodeType == "version")
            && (exists i :: 0 <= i < |node.children| && node.children[i].nodeType == "headers")
            && (exists i :: 0 <= i < |node.children| && node.children[i].nodeType == "body")
  {
    RequiredNames(node);
    if node.nodeType != "request" { return false; }
    var i := 0;
    while i < |REQUIRED|
      invariant 0 <= i <= |REQUIRED|
      invariant forall k :: 0 <= k < i ==> HasChild(node, REQUIRED[k])
    {
      var found := false;
      var j := 0;
      while j < |node.children| && !found
        invariant 0 <= j <= |node.children|
        invariant found ==> HasChild(node, REQUIRED[i])
        invariant !found ==> forall k :: 0 <= k < j ==> node.children[k].nodeType != REQUIRED[i]
      {
        found := node.children[j].nodeType == REQUIRED[i];
        j := j + 1;
      }
      if !found { return false; }
      i := i + 1;
    }
    return true;
  }

  /** Every accepted input gives a tree that passes the check. */
  lemma ParsedIsValid(input: string)
    requires TreeOf(ParseRequest(input)).Ok?
    ensures ValidTree(TreeOf(ParseRequest(input)).value)
  {
    hide ParseRequest;
    var t := Tree(ParseRequest(input).value);
    forall i | 0 <= i < |REQUIRED| ensures HasChild(t, REQUIRED[i]) {
      assert t.children[i].nodeType == REQUIRED[i];
    }
  }
}
