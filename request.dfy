/**
 * The request parser of WebWorker.readHTTPRequest. The input stream is the
 * sequence of values `readLine` returns: `Some(line)` for a line, `None` for
 * the `null` it returns at end of stream. Running off the end of the sequence
 * is read as end of stream too.
 */
module Request {
  import opened Wrappers
  import opened Text

  /** The method token the parser looks for (case-sensitive, unchecked suffix). */
  const Get := "GET"

  /** Shortest GET line `substring(5, length - 9)` can slice without throwing. */
  const MinGetLength := 14

  /** A line the parser treats as a request line. */
  predicate IsGetLine(line: string)
  {
    StartsWith(line, Get)
  }

  /**
   * The path `new File(line.substring(5, line.length() - 9))` is built from:
   * the four characters "GET " and the first character of the target are
   * cut off at the front, the nine characters " HTTP/1.1" at the back,
   * whatever they are. `None` when `substring` throws.
   */
  function Target(line: string): (t: Option<string>)
    ensures t.Some? <==> |line| >= MinGetLength
    ensures t.Some? ==> |t.value| == |line| - MinGetLength
    ensures t.Some? ==> forall k :: 0 <= k < |t.value| ==> t.value[k] == line[5 + k]
  {
    if |line| < MinGetLength then None else Some(line[5..|line| - 9])
  }

  /** A line at which reading stops: end of stream, a blank line, or a GET line too short to slice. */
  predicate Stops(line: Option<string>)
  {
    match line
    case None => true
    case Some(l) => |l| == 0 || (IsGetLine(l) && Target(l).None?)
  }

  /**
   * The loop of readHTTPRequest as a recursive definition: `held` is the
   * path taken from the last GET line read so far.
   */
  function ParseFrom(lines: seq<Option<string>>, held: Option<string>): Option<string>
    decreases |lines|
  {
    if |lines| == 0 then held
    else match lines[0]
      case None => held
      case Some(line) =>
        if IsGetLine(line) then
          match Target(line)
          case None => held
          case Some(t) => ParseFrom(lines[1..], Some(t))
        else if |line| == 0 then held
        else ParseFrom(lines[1..], held)
  }

  /** The path readHTTPRequest returns; `None` stands for the `null` File. */
  function ParseRequest(lines: seq<Option<string>>): Option<string>
  {
    ParseFrom(lines, None)
  }

  // ---------------------------------------------------------------------
  // An independent description: where reading stops, and the last GET line
  // before that point.

  /** Index of the first line at which reading stops, or |lines| if none does. */
  function StopIndex(lines: seq<Option<string>>): (k: nat)
    ensures k <= |lines|
    ensures forall i :: 0 <= i < k ==> !Stops(lines[i])
    ensures k < |lines| ==> Stops(lines[k])
    decreases |lines|
  {
    if |lines| == 0 || Stops(lines[0]) then 0 else 1 + StopIndex(lines[1..])
  }

  /** The target of the last GET line of `ls`, searching from the back. */
  function LastTarget(ls: seq<Option<string>>): Option<string>
    decreases |ls|
  {
    if |ls| == 0 then None
    else
      var last := ls[|ls| - 1];
      if last.Some? && IsGetLine(last.value) && Target(last.value).Some? then Target(last.value)
      else LastTarget(ls[..|ls| - 1])
  }

  /** Looking at the first line and then the rest, from the back, gives the same answer. */
  lemma {:induction false} LastTargetCons(x: Option<string>, ys: seq<Option<string>>)
    ensures LastTarget([x] + ys) ==
      if LastTarget(ys).Some? then LastTarget(ys)
      else if x.Some? && IsGetLine(x.value) then Target(x.value)
      else None
    decreases |ys|
  {
    if |ys| == 0 {
      assert ([x] + ys)[..0] == [];
    } else {
      var zs := [x] + ys;
      assert zs[|zs| - 1] == ys[|ys| - 1];
      assert zs[..|zs| - 1] == [x] + ys[..|ys| - 1];
      LastTargetCons(x, ys[..|ys| - 1]);
    }
  }

  /** The forward loop, started with `held`, agrees with the backward search. */
  lemma {:induction false} ParseFromIsLastTarget(lines: seq<Option<string>>, held: Option<string>)
    ensures ParseFrom(lines, held) ==
      match LastTarget(lines[..StopIndex(lines)])
      case None => held
      case Some(t) => Some(t)
    decreases |lines|
  {
    var k := StopIndex(lines);
    if |lines| == 0 || Stops(lines[0]) {
      assert lines[..k] == [];
    } else {
      var tail := lines[1..];
      ParseFromIsLastTarget(tail, if IsGetLine(lines[0].value) then Target(lines[0].value) else held);
      assert lines[..k] == [lines[0]] + tail[..StopIndex(tail)];
      LastTargetCons(lines[0], tail[..StopIndex(tail)]);
    }
  }

  /**
   * readHTTPRequest returns the path of the last GET line before the first
   * stopping line, or `None` if no GET line precedes it.
   */
  lemma ParseIsLastGet(lines: seq<Option<string>>)
    ensures ParseRequest(lines) == LastTarget(lines[..StopIndex(lines)])
  {
    ParseFromIsLastTarget(lines, None);
  }

  /** Lines after the stopping line are never looked at. */
  lemma {:induction false} ParseIgnoresRest(lines: seq<Option<string>>, more: seq<Option<string>>)
    requires StopIndex(lines) < |lines|
    ensures ParseRequest(lines + more) == ParseRequest(lines)
  {
    var k := StopIndex(lines);
    StopIndexPrefix(lines, more);
    assert (lines + more)[..k] == lines[..k];
    ParseIsLastGet(lines);
    ParseIsLastGet(lines + more);
  }

  lemma {:induction false} StopIndexPrefix(lines: seq<Option<string>>, more: seq<Option<string>>)
    requires StopIndex(lines) < |lines|
    ensures StopIndex(lines + more) == StopIndex(lines)
    decreases |lines|
  {
    if !Stops(lines[0]) {
      assert (lines + more)[1..] == lines[1..] + more;
      StopIndexPrefix(lines[1..], more);
    }
  }

  /**
   * A request line `GET` SP target suffix, with any nine-character suffix,
   * followed by the blank line, yields the target minus its first character.
   */
  lemma {:induction false} RequestLineTarget(target: string, suffix: string, rest: seq<Option<string>>)
    requires |target| >= 1 && |suffix| == 9
    ensures ParseRequest([Some("GET " + target + suffix), Some("")] + rest) == Some(target[1..])
  {
    var line := "GET " + target + suffix;
    assert line[..3] == Get;
    assert line[5..|line| - 9] == target[1..];
    assert IsGetLine(line) && Target(line) == Some(target[1..]);
    var lines := [Some(line), Some("")] + rest;
    assert lines[0] == Some(line);
    assert lines[1..] == [Some("")] + rest;
    assert ParseFrom(lines[1..], Some(target[1..])) == Some(target[1..]);
  }

  /** The request line of the usual request: the leading '/' is dropped. */
  lemma IndexRequest()
    ensures ParseRequest([Some("GET /index.html HTTP/1.1"), Some("")]) == Some("index.html")
  {
    var line := "GET /index.html HTTP/1.1";
    assert line == "GET " + "/index.html" + " HTTP/1.1";
    RequestLineTarget("/index.html", " HTTP/1.1", []);
    assert [Some(line), Some("")] + [] == [Some(line), Some("")];
    assert "/index.html"[1..] == "index.html";
  }

  /** A GET line too short to slice ends reading and keeps the path held so far. */
  lemma ShortGetKeepsPrevious(held: Option<string>, line: string, rest: seq<Option<string>>)
    requires IsGetLine(line) && |line| < MinGetLength
    ensures ParseFrom([Some(line)] + rest, held) == held
  {
  }

  /** Every line that is not a GET line and not blank leaves the path as it was. */
  lemma OtherLineKeepsPath(held: Option<string>, line: string, rest: seq<Option<string>>)
    requires !IsGetLine(line) && |line| > 0
    ensures ParseFrom([Some(line)] + rest, held) == ParseFrom(rest, held)
  {
    assert ([Some(line)] + rest)[1..] == rest;
  }
}
