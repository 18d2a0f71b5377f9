/**
 * What WebWorker writes back: the status and content-type decision of
 * writeHTTPHeader, the header itself, the body choice of writeContent and the
 * placeholder substitution of writeFile. Every line ends in a bare LF.
 */
module Response {
  import opened Wrappers
  import opened Text

  const TextHtml := "text/html"

  datatype Status = Ok | NotFound

  /** The status line without its terminating LF. */
  function StatusText(status: Status): string
  {
    match status
    case Ok => "HTTP/1.1 200 OK"
    case NotFound => "HTTP/1.1 404 NOT FOUND"
  }

  /** The status line as written: LF-terminated. */
  function StatusLine(status: Status): (line: string)
    ensures line == StatusText(status) + "\n"
  {
    match status
    case Ok => "HTTP/1.1 200 OK\n"
    case NotFound => "HTTP/1.1 404 NOT FOUND\n"
  }

  /**
   * The status writeHTTPHeader picks from `present` (File.exists) and the
   * probed content type: a file whose type cannot be probed gets 200 whether
   * it exists or not; a probed type gets 200 only for an existing text/html file.
   */
  function DecideStatus(present: bool, probed: Option<string>): (status: Status)
    ensures status == Ok <==> probed == None || (present && probed == Some(TextHtml))
  {
    if probed.None? then Ok
    else if present && probed.value == TextHtml then Ok
    else NotFound
  }

  /** The Content-Type value: the probed type whenever there is one, even on a 404. */
  function DeclaredType(probed: Option<string>): (ct: string)
    ensures probed.Some? ==> ct == probed.value
    ensures probed.None? ==> ct == TextHtml
  {
    match probed
    case Some(t) => t
    case None => TextHtml
  }

  const ServerLine := "Server: Lu's server\n"
  const ConnectionLine := "Connection: close\n"

  /** The header writeHTTPHeader writes, `date` being the formatted current time. */
  function Header(status: Status, date: string, ct: string): string
  {
    StatusLine(status) + "Date: " + date + "\n" + ServerLine + ConnectionLine
      + "Content-Type: " + ct + "\n\n"
  }

  /**
   * Read back line by line, the header is exactly the status line, Date,
   * Server, Connection and Content-Type, then the blank line that ends it:
   * nothing else, in particular no Content-Length.
   */
  lemma HeaderLines(status: Status, date: string, ct: string)
    requires '\n' !in date && '\n' !in ct
    ensures SplitLF(Header(status, date, ct)) ==
      [StatusText(status), "Date: " + date, "Server: Lu's server", "Connection: close",
       "Content-Type: " + ct, "", ""]
  {
    var s := StatusLine(status) + "Date: " + date + "\n";
    HeaderStartLines(status, date);
    HeaderEndLines(s, [StatusText(status), "Date: " + date], ct);
  }

  /** The status line and the Date line, each closed by an LF. */
  lemma HeaderStartLines(status: Status, date: string)
    requires '\n' !in date
    ensures SplitLF(StatusLine(status) + "Date: " + date + "\n") == [StatusText(status), "Date: " + date, ""]
  {
    var s0 := StatusLine(status);
    StatusLineSplit(status);
    var s1 := s0 + "Date: ";
    assert SplitLF(s1) == [StatusText(status), "Date: "] by {
      AppendText(s0, [StatusText(status)], "", "Date: ");
      assert "" + "Date: " == "Date: ";
    }
    AppendText(s1, [StatusText(status)], "Date: ", date);
    SplitAppendLF(s1 + date);
  }

  /** The status line is one LF-terminated line. */
  lemma StatusLineSplit(status: Status)
    ensures SplitLF(StatusLine(status)) == [StatusText(status), ""]
  {
    var st := StatusText(status);
    assert '\n' !in st by { if status == Ok { assert st == "HTTP/1.1 200 OK"; } }
    assert StatusLine(status) == "" + (st + "\n");
    assert SplitLF("") == [] + [""];
    AppendLine("", [], st);
  }

  /** Server, Connection and Content-Type lines and the blank line, after lines `p`. */
  lemma HeaderEndLines(s: string, p: seq<string>, ct: string)
    requires '\n' !in ct && SplitLF(s) == p + [""]
    ensures SplitLF(s + ServerLine + ConnectionLine + "Content-Type: " + ct + "\n\n") ==
      p + ["Server: Lu's server", "Connection: close", "Content-Type: " + ct, "", ""]
  {
    var q := p + ["Server: Lu's server", "Connection: close"];
    var s5 := s + ServerLine + ConnectionLine;
    assert SplitLF(s5) == q + [""] by {
      FixedLines(s, p);
    }
    var s7 := s5 + "Content-Type: " + ct;
    assert SplitLF(s7) == q + ["Content-Type: " + ct] by {
      AppendText(s5, q, "", "Content-Type: ");
      assert "" + "Content-Type: " == "Content-Type: ";
      AppendText(s5 + "Content-Type: ", q, "Content-Type: ", ct);
    }
    assert SplitLF(s7 + "\n\n") == SplitLF(s7) + ["", ""] by {
      assert s7 + "\n\n" == (s7 + "\n") + "\n";
      SplitAppendLF(s7);
      SplitAppendLF(s7 + "\n");
    }
  }

  /** The two fixed header lines, Server and Connection. */
  lemma FixedLines(s: string, p: seq<string>)
    requires SplitLF(s) == p + [""]
    ensures SplitLF(s + ServerLine + ConnectionLine) == p + ["Server: Lu's server", "Connection: close", ""]
  {
    assert ServerLine == "Server: Lu's server" + "\n";
    AppendLine(s, p, "Server: Lu's server");
    assert ConnectionLine == "Connection: close" + "\n";
    assert p + ["Server: Lu's server", ""] == (p + ["Server: Lu's server"]) + [""];
    AppendLine(s + ServerLine, p + ["Server: Lu's server"], "Connection: close");
  }

  /** The header carries no Content-Length line: the closed connection ends the body. */
  lemma HeaderHasNoContentLength(status: Status, date: string, ct: string)
    requires '\n' !in date && '\n' !in ct
    ensures forall line :: line in SplitLF(Header(status, date, ct)) ==> !StartsWith(line, "Content-Length")
  {
    HeaderLines(status, date, ct);
    var cl := "Content-Length";
    assert !StartsWith(StatusText(status), cl) by { assert StatusText(status)[0] == 'H'; }
    assert !StartsWith("Date: " + date, cl) by { assert ("Date: " + date)[0] == 'D'; }
    assert !StartsWith("Server: Lu's server", cl) by { assert "Server: Lu's server"[0] != cl[0]; }
    assert !StartsWith("Connection: close", cl) by { assert "Connection: close"[3] != cl[3]; }
    assert !StartsWith("Content-Type: " + ct, cl) by { assert ("Content-Type: " + ct)[8] == 'T' != cl[8]; }
  }

  /** Lines end in a bare LF: the header holds no CR unless the date or the type brings one. */
  lemma HeaderHasNoCR(status: Status, date: string, ct: string)
    requires '\r' !in date && '\r' !in ct
    ensures '\r' !in Header(status, date, ct)
  {
    var s := StatusLine(status);
    assert '\r' !in s by {
      if status == Ok { assert s == "HTTP/1.1 200 OK\n"; } else { assert s == "HTTP/1.1 404 NOT FOUND\n"; }
    }
    assert '\r' !in ServerLine && '\r' !in ConnectionLine;
    NotInAppend('\r', s, "Date: ");
    var s1 := s + "Date: ";
    NotInAppend('\r', s1, date);
    var s2 := s1 + date;
    NotInAppend('\r', s2, "\n");
    var s3 := s2 + "\n";
    NotInAppend('\r', s3, ServerLine);
    var s4 := s3 + ServerLine;
    NotInAppend('\r', s4, ConnectionLine);
    var s5 := s4 + ConnectionLine;
    NotInAppend('\r', s5, "Content-Type: ");
    var s6 := s5 + "Content-Type: ";
    NotInAppend('\r', s6, ct);
    var s7 := s6 + ct;
    NotInAppend('\r', s7, "\n\n");
  }

  lemma NotInAppend(c: char, a: string, b: string)
    requires c !in a && c !in b
    ensures c !in a + b
  {
  }

  /** The three things writeContent can do. */
  datatype Body =
    | FileContent     // writeFile: the substituted file
    | NotFoundText    // the literal "404 Not Found\n"
    | NullTypeFault   // contentType.equals on a null type throws

  const NotFoundBody := "404 Not Found\n"

  /**
   * The body writeContent writes: the file only when it present and is probed
   * as text/html; an existing file with no probed type makes
   * `contentType.equals` throw; otherwise the not-found text.
   */
  function ChooseBody(present: bool, probed: Option<string>): (body: Body)
    ensures body == FileContent <==> present && probed == Some(TextHtml)
    ensures body == NullTypeFault <==> present && probed == None
  {
    if !present then NotFoundText
    else match probed
      case None => NullTypeFault
      case Some(t) => if t == TextHtml then FileContent else NotFoundText
  }

  /**
   * The header before a file body, and before the fault, always carried 200;
   * the not-found text follows a 404 except for a missing file whose type
   * cannot be probed, which is sent under 200.
   */
  lemma BodyAgreesWithStatus(present: bool, probed: Option<string>)
    ensures ChooseBody(present, probed) != NotFoundText ==> DecideStatus(present, probed) == Ok
    ensures ChooseBody(present, probed) == NotFoundText ==>
      (DecideStatus(present, probed) == Ok <==> !present && probed == None)
  {
  }

  const DateToken := "<cs371date>"
  const ServerToken := "<cs371server>"

  /** writeFile's substitution: every date token first, then every server token. */
  function Substitute(content: string, date: string, host: string): string
  {
    ReplaceAll(ReplaceAll(content, DateToken, date), ServerToken, host)
  }

  /** A file holding neither token is sent unchanged. */
  lemma SubstituteWithoutTokens(content: string, date: string, host: string)
    requires !Occurs(content, DateToken) && !Occurs(content, ServerToken)
    ensures Substitute(content, date, host) == content
  {
    ReplaceAbsent(content, DateToken, date);
    ReplaceAbsent(content, ServerToken, host);
  }

  /**
   * What writeFile writes: nothing when reading the file or looking up the
   * host name fails (the IOException is swallowed), the substituted content
   * otherwise.
   */
  function FileOutput(content: Option<string>, date: string, host: Option<string>): (out: string)
    ensures content.None? || host.None? ==> out == []
  {
    if content.Some? && host.Some? then Substitute(content.value, date, host.value) else []
  }

  /**
   * A page with one date token and one server token gets the date and the
   * host name in their places, as long as the text around them, and the date
   * in front of the server token, hold no further token.
   */
  lemma {:induction false} SubstituteBothTokens(a: string, b: string, c: string, date: string, host: string)
    requires !Occurs(a, DateToken) && !Occurs(b + (ServerToken + c), DateToken)
    requires !Occurs(a + date + b, ServerToken) && !Occurs(c, ServerToken)
    ensures Substitute(a + (DateToken + (b + (ServerToken + c))), date, host) == a + (date + (b + (host + c)))
  {
    var rest := b + (ServerToken + c);
    assert DateToken[0] !in DateToken[1..];
    assert ServerToken[0] !in ServerToken[1..];
    calc {
      ReplaceAll(a + (DateToken + rest), DateToken, date);
      { ReplaceFirstOccurrence(a, DateToken, rest, date); }
      a + (date + ReplaceAll(rest, DateToken, date));
      { ReplaceAbsent(rest, DateToken, date); }
      a + (date + rest);
    }
    var front := a + date + b;
    assert a + (date + rest) == front + (ServerToken + c);
    calc {
      ReplaceAll(front + (ServerToken + c), ServerToken, host);
      { ReplaceFirstOccurrence(front, ServerToken, c, host); }
      front + (host + ReplaceAll(c, ServerToken, host));
      { ReplaceAbsent(c, ServerToken, host); }
      front + (host + c);
    }
    assert front + (host + c) == a + (date + (b + (host + c)));
  }

  /** Text free of '<' around the tokens, and a date free of it, satisfy SubstituteBothTokens. */
  lemma SubstitutePlainText(a: string, b: string, c: string, date: string, host: string)
    requires '<' !in a && '<' !in b && '<' !in c && '<' !in date
    ensures Substitute(a + (DateToken + (b + (ServerToken + c))), date, host) == a + (date + (b + (host + c)))
  {
    assert !Occurs(a, DateToken) by { NotOccursWithoutFirst(a, DateToken); }
    assert !Occurs(b + (ServerToken + c), DateToken) by {
      assert !Occurs(ServerToken + c, DateToken) by {
        assert !StartsWith(ServerToken + c, DateToken) by {
          assert (ServerToken + c)[6] == 's' != DateToken[6];
        }
        assert (ServerToken + c)[1..] == ServerToken[1..] + c;
        NotOccursWithoutFirst(ServerToken[1..] + c, DateToken);
      }
      OccursConcat(b, ServerToken + c, DateToken);
    }
    assert !Occurs(a + date + b, ServerToken) by { NotOccursWithoutFirst(a + date + b, ServerToken); }
    assert !Occurs(c, ServerToken) by { NotOccursWithoutFirst(c, ServerToken); }
    SubstituteBothTokens(a, b, c, date, host);
  }

  /** The worked example of a page stamped with the date and the host name. */
  lemma BuiltOnExample(page: string, date: string, host: string)
    requires page == "Built on <cs371date> by <cs371server>"
    requires date == "05-06-2024" && host == "myhost"
    ensures Substitute(page, date, host) == "Built on 05-06-2024 by myhost"
  {
    var a, b, c := "Built on ", " by ", "";
    var stamped := a + (date + (b + (host + c)));
    assert page == a + (DateToken + (b + (ServerToken + c))) && stamped == "Built on 05-06-2024 by myhost" by {
      assert page == a + (DateToken + (b + (ServerToken + c)));
      assert stamped == "Built on 05-06-2024 by myhost";
    }
    assert Substitute(page, date, host) == stamped by {
      SubstitutePlainText(a, b, c, date, host);
    }
  }

  /** A pattern whose first character does not appear in `s` does not occur in it. */
  lemma {:induction false} NotOccursWithoutFirst(s: string, pat: string)
    requires pat != [] && pat[0] !in s
    ensures !Occurs(s, pat)
    decreases |s|
  {
    if |s| > 0 {
      assert s[0] != pat[0];
      NotOccursWithoutFirst(s[1..], pat);
    }
  }

  /** An occurrence in `a + b` starting in `a`, or one in `b`. */
  lemma {:induction false} OccursConcat(a: string, b: string, pat: string)
    requires pat != [] && pat[0] !in a && !Occurs(b, pat)
    ensures !Occurs(a + b, pat)
    decreases |a|
  {
    if |a| > 0 {
      assert (a + b)[0] == a[0];
      assert (a + b)[1..] == a[1..] + b;
      OccursConcat(a[1..], b, pat);
    } else {
      assert a + b == b;
    }
  }
}
