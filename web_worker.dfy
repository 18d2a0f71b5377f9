/**
 * One WebWorker: it reads a request from its socket, writes a header and a
 * body, flushes and closes. Everything the worker learns from the host is an
 * input (`Env`); the socket is an output buffer that is only appended to and
 * a flag saying whether `socket.close()` was reached.
 */
module WebWorker {
  import opened Wrappers
  import opened Text
  import opened Request
  import opened Response

  /**
   * What the worker asks its surroundings. `pathValid` says whether
   * `Paths.get` accepts the parsed path (it throws InvalidPathException for a
   * path the file system rejects, such as one holding NUL on Unix, and the
   * same answer holds at both calls). `present` is File.exists and
   * `probed` Files.probeContentType for the requested path (the same answer
   * each time they are asked); `content` is Files.readAllBytes (None when it
   * throws); `now` is the formatted date-time of the Date header; `today` the
   * dd-MM-yyyy date; `host` the local host name (None when the lookup throws).
   */
  datatype Env = Env(
    pathValid: bool,
    present: bool,
    probed: Option<string>,
    content: Option<string>,
    now: string,
    today: string,
    host: Option<string>)

  /** What the peer receives, and whether the worker closed the socket. */
  datatype Outcome = Outcome(written: string, closed: bool)

  /** The bytes writeContent writes, up to the point where it returns or throws. */
  function BodyBytes(env: Env): string
  {
    match ChooseBody(env.present, env.probed)
    case FileContent => FileOutput(env.content, env.today, env.host)
    case NotFoundText => NotFoundBody
    case NullTypeFault => []
  }

  /**
   * One connection from start to end. Without a GET path, `getAbsolutePath`
   * on the null File throws before anything is written, and so does
   * `Paths.get` on a path it rejects; an existing file without a probed type
   * throws after the header. Every such exception skips `socket.close()`.
   */
  function Respond(lines: seq<Option<string>>, env: Env): Outcome
  {
    match ParseRequest(lines)
    case None => Outcome([], false)
    case Some(_) =>
      if !env.pathValid then Outcome([], false)
      else
        var status := DecideStatus(env.present, env.probed);
        var header := Header(status, env.now, DeclaredType(env.probed));
        Outcome(header + BodyBytes(env), ChooseBody(env.present, env.probed) != NullTypeFault)
  }

  /** The socket is closed exactly when a valid path was parsed and writeContent did not throw. */
  lemma ClosedIffCompleted(lines: seq<Option<string>>, env: Env)
    ensures Respond(lines, env).closed <==>
      ParseRequest(lines).Some? && env.pathValid && !(env.present && env.probed.None?)
  {
  }

  /** Without a GET path the peer receives nothing and the socket stays open. */
  lemma NoPathNoOutput(lines: seq<Option<string>>, env: Env)
    requires ParseRequest(lines) == None
    ensures Respond(lines, env) == Outcome([], false)
  {
  }

  /** A path `Paths.get` rejects: nothing is written and the socket stays open. */
  lemma InvalidPathNoOutput(lines: seq<Option<string>>, env: Env)
    requires !env.pathValid
    ensures Respond(lines, env) == Outcome([], false)
  {
  }

  /**
   * With a valid path, the output read line by line begins with the status line
   * and the four headers; the status line says 200 whenever the file itself
   * (or nothing, because of the fault) follows.
   */
  lemma ResponseStartsWithHeader(lines: seq<Option<string>>, env: Env)
    requires ParseRequest(lines).Some? && env.pathValid
    requires '\n' !in env.now && (env.probed.Some? ==> '\n' !in env.probed.value)
    ensures var status := DecideStatus(env.present, env.probed);
      var header := Header(status, env.now, DeclaredType(env.probed));
      Respond(lines, env).written == header + BodyBytes(env)
      && |SplitLF(header)| == 7
      && SplitLF(header)[0] == StatusText(status)
      && SplitLF(header)[4] == "Content-Type: " + DeclaredType(env.probed)
      && (ChooseBody(env.present, env.probed) != NotFoundText ==> status == Ok)
  {
    var status := DecideStatus(env.present, env.probed);
    HeaderLines(status, env.now, DeclaredType(env.probed));
    BodyAgreesWithStatus(env.present, env.probed);
  }

  /** The worked example: an HTML page with both tokens is served under 200. */
  lemma IndexPageServed(lines: seq<Option<string>>, env: Env)
    requires lines == [Some("GET /index.html HTTP/1.1"), Some("")]
    requires env.pathValid && env.present && env.probed == Some(TextHtml)
    requires env.content == Some("Built on <cs371date> by <cs371server>")
    requires env.today == "05-06-2024" && env.host == Some("myhost")
    ensures Respond(lines, env) == Outcome(Header(Ok, env.now, TextHtml) + "Built on 05-06-2024 by myhost", true)
  {
    IndexRequest();
    BuiltOnExample(env.content.value, env.today, env.host.value);
  }

  /** A missing file that is probed as HTML gets 404 and the not-found text. */
  lemma MissingPageNotFound(lines: seq<Option<string>>, env: Env)
    requires ParseRequest(lines).Some? && env.pathValid
    requires !env.present && env.probed == Some(TextHtml)
    ensures Respond(lines, env) == Outcome(Header(NotFound, env.now, TextHtml) + NotFoundBody, true)
  {
  }

  /** An existing file of another type gets 404 with its own type declared. */
  lemma OtherTypeNotFound(lines: seq<Option<string>>, env: Env, t: string)
    requires ParseRequest(lines).Some? && env.pathValid
    requires env.present && env.probed == Some(t) && t != TextHtml
    ensures Respond(lines, env) == Outcome(Header(NotFound, env.now, t) + NotFoundBody, true)
  {
  }

  /** A missing file whose type cannot be probed gets the not-found text under 200. */
  lemma MissingUntypedUnderOk(lines: seq<Option<string>>, env: Env)
    requires ParseRequest(lines).Some? && env.pathValid
    requires !env.present && env.probed == None
    ensures Respond(lines, env) == Outcome(Header(Ok, env.now, TextHtml) + NotFoundBody, true)
  {
  }

  /** An existing file without a probed type: 200 header, then the fault; the socket stays open. */
  lemma UntypedFileFaults(lines: seq<Option<string>>, env: Env)
    requires ParseRequest(lines).Some? && env.pathValid
    requires env.present && env.probed == None
    ensures Respond(lines, env) == Outcome(Header(Ok, env.now, TextHtml), false)
  {
  }

  /** A served page whose file cannot be read: the header alone, and the socket is still closed. */
  lemma UnreadableFileHeaderOnly(lines: seq<Option<string>>, env: Env)
    requires ParseRequest(lines).Some? && env.pathValid
    requires env.present && env.probed == Some(TextHtml) && env.content == None
    ensures Respond(lines, env) == Outcome(Header(Ok, env.now, TextHtml), true)
  {
  }

  /** The worker bound to one accepted socket. */
  class Worker {
    /** Everything written to the socket's output stream so far. */
    var out: string
    /** Whether `socket.close()` has run. */
    var closed: bool

    constructor ()
      ensures out == [] && !closed
    {
      out := [];
      closed := false;
    }

    /** readHTTPRequest: the loop over the request lines. */
    method ReadHTTPRequest(lines: seq<Option<string>>) returns (reqFile: Option<string>)
      ensures reqFile == ParseRequest(lines)
    {
      reqFile := None;
      var i := 0;
      while i < |lines|
        invariant 0 <= i <= |lines|
        invariant ParseFrom(lines[i..], reqFile) == ParseRequest(lines)
        decreases |lines| - i
      {
        var line := lines[i];
        assert lines[i..][0] == line && lines[i..][1..] == lines[i + 1..];
        if line.None? {
          break;  // readLine gave null: line.startsWith throws
        }
        var l := line.value;
        if StartsWith(l, Get) {
          if |l| < MinGetLength {
            break;  // substring throws
          }
          reqFile := Some(l[5..|l| - 9]);
        }
        if |l| == 0 {
          break;
        }
        i := i + 1;
      }
    }

    /** writeHTTPHeader: throws on a null File or a rejected path, otherwise writes the header. */
    method WriteHTTPHeader(reqFile: Option<string>, env: Env) returns (ok: bool)
      requires !closed
      modifies this`out
      ensures ok <==> reqFile.Some? && env.pathValid
      ensures out == old(out) + if ok then Header(DecideStatus(env.present, env.probed), env.now, DeclaredType(env.probed)) else []
    {
      if reqFile.None? {
        return false;  // getAbsolutePath on null
      }
      if !env.pathValid {
        return false;  // Paths.get rejects the path
      }
      var contentType := env.probed;
      ghost var start := out;
      var status;
      if contentType.None? {
        status := "HTTP/1.1 200 OK\n";
      } else if env.present && contentType.value == TextHtml {
        status := "HTTP/1.1 200 OK\n";
      } else {
        status := "HTTP/1.1 404 NOT FOUND\n";
      }
      assert status == StatusLine(DecideStatus(env.present, env.probed));
      out := out + status;
      ghost var sent := status;
      Write(start, sent, "Date: ");
      sent := sent + "Date: ";
      Write(start, sent, env.now);
      sent := sent + env.now;
      Write(start, sent, "\n");
      sent := sent + "\n";
      Write(start, sent, ServerLine);
      sent := sent + ServerLine;
      Write(start, sent, ConnectionLine);
      sent := sent + ConnectionLine;
      Write(start, sent, "Content-Type: ");
      sent := sent + "Content-Type: ";
      if contentType.Some? {
        Write(start, sent, contentType.value);
      } else {
        Write(start, sent, TextHtml);
      }
      sent := sent + DeclaredType(contentType);
      Write(start, sent, "\n\n");
      ok := true;
    }

    /**
     * One `os.write`: appends `s` to the output, which so far holds `start`
     * followed by `sent`.
     */
    method Write(ghost start: string, ghost sent: string, s: string)
      requires out == start + sent
      modifies this`out
      ensures out == start + (sent + s)
    {
      out := out + s;
      AppendAssoc(start, sent, s);
    }

    /** writeContent: the file, the not-found text, or a fault on a null File, a rejected path or a null content type. */
    method WriteContent(reqFile: Option<string>, env: Env) returns (ok: bool)
      requires !closed
      modifies this`out
      ensures ok <==> reqFile.Some? && env.pathValid && ChooseBody(env.present, env.probed) != NullTypeFault
      ensures out == old(out) + if reqFile.Some? && env.pathValid then BodyBytes(env) else []
    {
      if reqFile.None? {
        return false;  // getAbsolutePath on null
      }
      if !env.pathValid {
        return false;  // Paths.get rejects the path
      }
      var contentType := env.probed;
      if env.present && contentType.None? {
        return false;  // contentType.equals on null
      }
      if env.present && contentType.value == TextHtml {
        WriteFile(env);
      } else {
        out := out + "404 Not Found\n";
      }
      ok := true;
    }

    /** writeFile: a failed read or host lookup is swallowed and nothing is written. */
    method WriteFile(env: Env)
      requires !closed
      modifies this`out
      ensures out == old(out) + FileOutput(env.content, env.today, env.host)
    {
      if env.content.None? {
        return;
      }
      var content := env.content.value;
      var date := env.today;
      if env.host.None? {
        return;
      }
      var name := env.host.value;
      var replaced := ReplaceAll(content, DateToken, date);
      replaced := ReplaceAll(replaced, ServerToken, name);
      out := out + replaced;
    }

    /** run: the socket is closed only when header and body were written without an exception. */
    method Run(lines: seq<Option<string>>, env: Env)
      requires !closed
      modifies this
      ensures out == old(out) + Respond(lines, env).written
      ensures closed == Respond(lines, env).closed
    {
      var reqFile := ReadHTTPRequest(lines);
      var ok := WriteHTTPHeader(reqFile, env);
      if ok {
        ok := WriteContent(reqFile, env);
      }
      if ok {
        closed := true;  // os.flush(); socket.close()
      }
      AppendAssoc(old(out), Header(DecideStatus(env.present, env.probed), env.now, DeclaredType(env.probed)), BodyBytes(env));
    }
  }
}
