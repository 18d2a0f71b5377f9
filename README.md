# SimpleWebServer WebWorker, modelled in Dafny

`WebWorker` handles one accepted socket of a tiny HTTP/1.1 server: it reads
the request head line by line, takes the path from the last `GET` line,
writes a status line and four headers, and then writes either an HTML file
(with the placeholders `<cs371date>` and `<cs371server>` replaced by the
current date and the host name) or a short not-found text. Every line it
writes ends in a bare LF, not the CRLF of section 2.1 of RFC 9112, and the
request line is sliced at fixed offsets rather than parsed by the grammar of
section 3 of RFC 9112. The model reproduces both.

Modules:

- `Wrappers` (`wrappers.dfy`): `Option`, standing for Java's `null`.
- `Text` (`text.dfy`): `startsWith`, a literal replace-all with its
  occurrence count, and `SplitLF`, which reads an output buffer back as
  LF-separated lines.
- `Request` (`request.dfy`): the request-head parser. `ParseFrom` and
  `ParseRequest` follow the loop of `readHTTPRequest`. `StopIndex` and
  `LastTarget` describe the same result independently: find the first
  stopping line, then take the last `GET` line before it.
- `Response` (`response.dfy`): the status and content-type decision, the
  header, the body choice, and the placeholder substitution.
- `WebWorker` (`web_worker.dfy`): the environment the worker queries
  (`Env`), the whole connection as a function (`Respond`), and the class
  `Worker`. `Worker` holds the output buffer `out`, which is only ever
  appended to, and a `closed` flag. Its methods mirror `run`,
  `readHTTPRequest`, `writeHTTPHeader`, `writeContent` and `writeFile`, one
  `os.write` at a time.

The request head is a sequence of `Option<string>`: `Some(line)` for what
`readLine` returns, `None` for its `null` at end of stream. The file system
and the host are inputs of type `Env`:

- whether `Paths.get` accepts the path
- `File.exists`
- `Files.probeContentType` (the same answer at both calls)
- `Files.readAllBytes`
- the formatted date-time of the `Date` header
- the `dd-MM-yyyy` date
- the host name

Exceptions become explicit outcomes:

- `None` for the null `File` when no usable GET line was read;
- `Outcome([], false)` when `Paths.get` rejects the path;
- `ok == false` for a write method that throws;
- `NullTypeFault` for `contentType.equals` on `null`;
- an empty `FileOutput` for the swallowed `IOException` in `writeFile`.

## Model

| member | source | states |
|---|---|---|
| `Request.Target` | SimpleWebServer/src/edu/nmsu/cs/webserver/WebWorker.java:100 | a GET line can be sliced iff it has at least 14 characters; the path is the line minus its first 5 and last 9 characters, which are not checked |
| `Request.Stops` | SimpleWebServer/src/edu/nmsu/cs/webserver/WebWorker.java:96-110 | (definition, no ensures) true of a line at which the loop exits: end of stream (`readLine` gives null and `startsWith` throws), a blank line, or a GET line too short for `substring` |
| `Request.ParseFrom` | SimpleWebServer/src/edu/nmsu/cs/webserver/WebWorker.java:88-113 | (definition, no ensures) the loop as recursion over the remaining lines: a sliceable GET line replaces the held path, a non-blank other line keeps it, and a stopping line returns the held path |
| `Request.ParseRequest` | SimpleWebServer/src/edu/nmsu/cs/webserver/WebWorker.java:85-114 | (definition, no ensures) `ParseFrom` started with no path held, the initial `reqFile = null` |
| `Request.StopIndex` | SimpleWebServer/src/edu/nmsu/cs/webserver/WebWorker.java:96-110 | the first line at which reading stops: end of stream, a blank line, or a GET line too short to slice; no earlier line stops |
| `Request.ParseIsLastGet` | SimpleWebServer/src/edu/nmsu/cs/webserver/WebWorker.java:88-113 | the path returned is the one from the last GET line before the stopping line, or null if there is none; all other lines leave it unchanged |
| `Request.ParseIgnoresRest` | SimpleWebServer/src/edu/nmsu/cs/webserver/WebWorker.java:103-110 | lines after the stopping line never affect the result |
| `Request.RequestLineTarget` | SimpleWebServer/src/edu/nmsu/cs/webserver/WebWorker.java:98-101 | `GET ` + target + any 9-character suffix, then a blank line, yields the target without its first character |
| `Request.IndexRequest` | SimpleWebServer/src/edu/nmsu/cs/webserver/WebWorker.java:98-101 | `GET /index.html HTTP/1.1` yields `index.html`: the leading `/` is dropped |
| `Request.ShortGetKeepsPrevious` | SimpleWebServer/src/edu/nmsu/cs/webserver/WebWorker.java:98-110 | a GET line shorter than 14 characters ends parsing and keeps the path held so far |
| `Request.OtherLineKeepsPath` | SimpleWebServer/src/edu/nmsu/cs/webserver/WebWorker.java:98-104 | a non-blank line that does not start with `GET` leaves the path unchanged, and reading goes on |
| `Response.StatusLine` | SimpleWebServer/src/edu/nmsu/cs/webserver/WebWorker.java:132-138 | the status line is its text followed by a bare LF |
| `Response.DecideStatus` | SimpleWebServer/src/edu/nmsu/cs/webserver/WebWorker.java:132-138 | 200 iff there is no probed type, or the file exists and its type is `text/html`; 404 otherwise |
| `Response.DeclaredType` | SimpleWebServer/src/edu/nmsu/cs/webserver/WebWorker.java:147-152 | `Content-Type` carries the probed type whenever there is one, even on a 404; `text/html` only when the probe gives null |
| `Response.HeaderLines` | SimpleWebServer/src/edu/nmsu/cs/webserver/WebWorker.java:133-153 | read back at LFs, the header is exactly the status line, Date, Server, Connection, Content-Type and a blank line, in that order |
| `Response.HeaderHasNoContentLength` | SimpleWebServer/src/edu/nmsu/cs/webserver/WebWorker.java:140-153 | no header line is a `Content-Length` line |
| `Response.HeaderHasNoCR` | SimpleWebServer/src/edu/nmsu/cs/webserver/WebWorker.java:133-153 | the header holds no CR, so lines end in a bare LF |
| `Response.Header` | SimpleWebServer/src/edu/nmsu/cs/webserver/WebWorker.java:133-153 | (definition, no ensures) the nine writes concatenated: status line, `Date: ` + date + LF, the Server and Connection lines, `Content-Type: ` + type, and the closing LF LF |
| `Response.ChooseBody` | SimpleWebServer/src/edu/nmsu/cs/webserver/WebWorker.java:176-181 | the file is written iff it exists and is probed as `text/html`; the null-type fault happens iff it exists with no probed type; otherwise the not-found text is written |
| `Response.BodyAgreesWithStatus` | SimpleWebServer/src/edu/nmsu/cs/webserver/WebWorker.java:132-181 | a file body or the fault always follows a 200 status line; the not-found text follows 200 only for a missing file with no probed type |
| `Response.Substitute` | SimpleWebServer/src/edu/nmsu/cs/webserver/WebWorker.java:200-201 | (definition, no ensures) replace-all of the date token by the date, then of the server token by the host name in that result |
| `Text.ReplaceAll` | SimpleWebServer/src/edu/nmsu/cs/webserver/WebWorker.java:200-201 | (definition, no ensures) literal replace-all: scanning left to right, each occurrence of the pattern is replaced and the scan resumes behind it, so matches do not overlap |
| `Response.SubstituteWithoutTokens` | SimpleWebServer/src/edu/nmsu/cs/webserver/WebWorker.java:200-201 | content holding neither placeholder is sent unchanged |
| `Response.SubstituteBothTokens` | SimpleWebServer/src/edu/nmsu/cs/webserver/WebWorker.java:196-202 | a page with one date token then one server token gets the date and the host name in their places, whatever markup surrounds them, provided the surrounding text holds no further token |
| `Text.ReplaceFirstOccurrence` | SimpleWebServer/src/edu/nmsu/cs/webserver/WebWorker.java:200-201 | for a pattern whose first character does not recur in it, replace-all replaces the first occurrence behind a pattern-free prefix and resumes behind it |
| `Response.BuiltOnExample` | SimpleWebServer/src/edu/nmsu/cs/webserver/WebWorker.java:196-202 | `Built on <cs371date> by <cs371server>` becomes `Built on 05-06-2024 by myhost` |
| `Response.FileOutput` | SimpleWebServer/src/edu/nmsu/cs/webserver/WebWorker.java:192-211 | a failed file read or host-name lookup writes nothing |
| `Text.ReplaceAbsent` | SimpleWebServer/src/edu/nmsu/cs/webserver/WebWorker.java:200-201 | replace-all leaves a text without the pattern unchanged |
| `Text.ReplaceSelf` | SimpleWebServer/src/edu/nmsu/cs/webserver/WebWorker.java:200-201 | replacing the pattern by itself is the identity |
| `Text.ReplaceLength` | SimpleWebServer/src/edu/nmsu/cs/webserver/WebWorker.java:200-201 | each non-overlapping occurrence replaced changes the length by the replacement length minus the pattern length |
| `WebWorker.ClosedIffCompleted` | SimpleWebServer/src/edu/nmsu/cs/webserver/WebWorker.java:64-77 | the socket is closed iff a path was parsed, `Paths.get` accepted it, and the existing-file-without-type fault did not occur |
| `WebWorker.Respond` | SimpleWebServer/src/edu/nmsu/cs/webserver/WebWorker.java:61-80 | (definition, no ensures) what `run` sends and whether it closes: nothing and open for a null or rejected path; otherwise the header, then the body, closed unless the null-type fault occurred |
| `WebWorker.BodyBytes` | SimpleWebServer/src/edu/nmsu/cs/webserver/WebWorker.java:176-211 | (definition, no ensures) what `writeContent` writes after the header: the `writeFile` output for an existing HTML file, `404 Not Found` + LF when the condition fails, nothing when `equals` is called on a null type |
| `WebWorker.InvalidPathNoOutput` | SimpleWebServer/src/edu/nmsu/cs/webserver/WebWorker.java:124-130 | a path `Paths.get` rejects makes it throw before any write, so nothing is written and the socket stays open |
| `WebWorker.NoPathNoOutput` | SimpleWebServer/src/edu/nmsu/cs/webserver/WebWorker.java:124-129 | without a GET path nothing is written and the socket stays open |
| `WebWorker.ResponseStartsWithHeader` | SimpleWebServer/src/edu/nmsu/cs/webserver/WebWorker.java:68-70 | with a valid path, the output is the header followed by the body; its first line is the decided status; its fifth line is the Content-Type line; a file body or the fault comes only under 200 |
| `WebWorker.IndexPageServed` | SimpleWebServer/src/edu/nmsu/cs/webserver/WebWorker.java:61-80 | `GET /index.html HTTP/1.1` for an existing HTML page gets 200, `text/html` and the stamped page, and the socket is closed |
| `WebWorker.MissingPageNotFound` | SimpleWebServer/src/edu/nmsu/cs/webserver/WebWorker.java:132-181 | a missing file probed as HTML gets a 404 header and `404 Not Found\n` |
| `WebWorker.OtherTypeNotFound` | SimpleWebServer/src/edu/nmsu/cs/webserver/WebWorker.java:132-181 | an existing file of another probed type gets 404, with that type declared |
| `WebWorker.MissingUntypedUnderOk` | SimpleWebServer/src/edu/nmsu/cs/webserver/WebWorker.java:132-181 | a missing file with no probed type gets a 200 header and the not-found text |
| `WebWorker.UntypedFileFaults` | SimpleWebServer/src/edu/nmsu/cs/webserver/WebWorker.java:132-181 | an existing file with no probed type gets only a 200 header; the socket is not closed |
| `WebWorker.UnreadableFileHeaderOnly` | SimpleWebServer/src/edu/nmsu/cs/webserver/WebWorker.java:192-211 | an HTML file that cannot be read gets only the 200 header, and the socket is still closed |
| `WebWorker.Worker.constructor` | SimpleWebServer/src/edu/nmsu/cs/webserver/WebWorker.java:51-54 | a fresh worker has written nothing and its socket is open |
| `WebWorker.Worker.Write` | SimpleWebServer/src/edu/nmsu/cs/webserver/WebWorker.java:133-153 | one `os.write`: `s` is appended to what was already written, and nothing else changes |
| `WebWorker.Worker.ReadHTTPRequest` | SimpleWebServer/src/edu/nmsu/cs/webserver/WebWorker.java:85-114 | the loop returns exactly `ParseRequest` of the request lines |
| `WebWorker.Worker.WriteHTTPHeader` | SimpleWebServer/src/edu/nmsu/cs/webserver/WebWorker.java:124-155 | throws without writing on a null path or one `Paths.get` rejects; otherwise appends exactly the header for the decided status and type |
| `WebWorker.Worker.WriteContent` | SimpleWebServer/src/edu/nmsu/cs/webserver/WebWorker.java:164-190 | throws on a null or rejected path, or on the null-type fault; otherwise appends the chosen body |
| `WebWorker.Worker.WriteFile` | SimpleWebServer/src/edu/nmsu/cs/webserver/WebWorker.java:192-211 | appends the file with every date token and then every server token replaced, or nothing when a read fails |
| `WebWorker.Worker.Run` | SimpleWebServer/src/edu/nmsu/cs/webserver/WebWorker.java:61-80 | appends exactly `Respond(...).written` and sets `closed` exactly when `Respond` says the close was reached |

Notable behaviours of the code, each captured by a lemma:

- The path is cut five characters in from the front, so the leading `/` of
  the target is dropped: `/index.html` becomes `index.html`
  (`Request.IndexRequest`).
- A missing file with no probed type is answered 200, followed by the
  not-found text (`WebWorker.MissingUntypedUnderOk`).
- An existing file with no probed type gets a 200 header, and then
  `contentType.equals` throws, so no body follows
  (`WebWorker.UntypedFileFaults`).
- When no GET path was read, `getAbsolutePath` on the null `File` throws
  before anything is written (`WebWorker.NoPathNoOutput`). A path that
  `Paths.get` rejects does the same (`WebWorker.InvalidPathNoOutput`).
- An exception skips `socket.close()`: the socket is closed only when
  the header and the body were written without one
  (`WebWorker.ClosedIffCompleted`).

## Left out

- Socket and stream plumbing is not modelled, including the
  `r.ready()`/`Thread.sleep(1)` polling before each `readLine`. When the
  request lines run out, the model treats it as end of stream. A real peer
  that sends nothing more would keep the polling loop waiting instead.
- Environment calls are not modelled; they are fields of `Env`. This covers
  `File.exists`, `Files.probeContentType`, `Files.readAllBytes`,
  `InetAddress.getLocalHost().getHostName()`, and the date formatting
  (`DateFormat` in GMT and `SimpleDateFormat("dd-MM-yyyy")`). An
  `IOException` from `probeContentType` is not modelled; the probe always
  answers.
- `new File(...)` path normalisation and `getAbsolutePath` are not modelled.
  Whether `Paths.get` accepts the path is the input `pathValid`. The path's
  other uses are the environment calls, which are inputs too.
- Write and flush failures on the output stream are not modelled: every
  `os.write` succeeds.
- Charset conversions (`getBytes`, `new String(byte[])`) are not modelled.
  The model works on characters.
- Logging to `System.err`/`System.out` and `printStackTrace` is not modelled.
- Thread-per-connection concurrency is not modelled. Workers share no state.
- Two requests with the same lines and the same `Env` get the same output,
  since `Respond` is a function; the date enters only through `today` and
  `now`. No lemma relates the outputs for two different dates.
- Response.Substitute: models Java's regex `replaceAll` as literal
  replacement. The two patterns contain no regex metacharacters, so this is
  exact whenever the date and the host name contain no `$` or `\`.
- `Circles/src/edu/nmsu/cs/circles/Test1Runner.java` and `Test2Runner.java`
  only wrap JUnit runners. The circle classes they test are not part of this
  model.
