/**
  The two pieces of middleware around the API: the request log line
  written when a response finishes, and the handler that turns an error
  passed on by a route into a reply.
 */
module Middleware {
  import opened Wrappers
  import opened Text
  import opened Json
  import opened Http

  // ---------------------------------------------------------------------------
  // Request log

  /** The longest line the log writes. */
  const MaxLogLength: nat := 80

  /** A line longer than 80 characters keeps its first 79 and gains "…". */
  function Truncate(line: string): (r: string)
    ensures |r| <= MaxLogLength
    ensures |line| <= MaxLogLength ==> r == line
    ensures |line| > MaxLogLength ==> |r| == MaxLogLength && r[..79] == line[..79] && r[79] == '…'
  {
    if |line| > MaxLogLength then line[..79] + "…" else line
  }

  /** `METHOD path status in Nms`, then ` :: <json>` when a truthy JSON body was sent. */
  function FullLine(verb: string, path: string, status: int, durationMs: nat, sent: Option<Json>,
                    stringify: Json -> string): (r: string)
    ensures IsPrefix(verb + " " + path + " ", r)
    ensures var tail := if sent.Some? && Truthy(sent.value) then " :: " + stringify(sent.value) else "ms";
      |tail| <= |r| && r[|r| - |tail|..] == tail
  {
    var p := verb + " " + path + " ";
    var head := p + IntText(status) + " in " + NatText(durationMs) + "ms";
    PrefixAppend(p, p, IntText(status));
    PrefixAppend(p, p + IntText(status), " in ");
    PrefixAppend(p, p + IntText(status) + " in ", NatText(durationMs));
    PrefixAppend(p, p + IntText(status) + " in " + NatText(durationMs), "ms");
    if sent.Some? && Truthy(sent.value) then
      var json := stringify(sent.value);
      PrefixAppend(p, head, " :: ");
      PrefixAppend(p, head + " :: ", json);
      SuffixAppend(head, " :: ", json);
      head + " :: " + json
    else head
  }

  /** Appending keeps a prefix. */
  lemma PrefixAppend(p: string, s: string, t: string)
    requires IsPrefix(p, s)
    ensures IsPrefix(p, s + t)
  {
    assert (s + t)[..|p|] == s[..|p|];
  }

  /** The last two pieces appended are the end of the text. */
  lemma SuffixAppend(a: string, b: string, c: string)
    ensures (a + b + c)[|a + b + c| - |b + c|..] == b + c
  {
    assert a + b + c == a + (b + c);
  }

  /**
    The line logged when a response finishes: nothing for a path outside
    "/api", otherwise the full line cut to 80 characters. `sent` is the last
    value given to `res.json`, `stringify` is `JSON.stringify`.
   */
  method LogLine(verb: string, path: string, status: int, durationMs: nat, sent: Option<Json>,
                 stringify: Json -> string) returns (line: Option<string>)
    ensures line.None? <==> !IsPrefix("/api", path)
    ensures line.Some? ==> line.value == Truncate(FullLine(verb, path, status, durationMs, sent, stringify))
    ensures line.Some? ==> |line.value| <= MaxLogLength
  {
    if !IsPrefix("/api", path) {
      return None;
    }
    var logLine := verb + " " + path + " " + IntText(status) + " in " + NatText(durationMs) + "ms";
    if sent.Some? && Truthy(sent.value) {
      logLine := logLine + " :: " + stringify(sent.value);
    }
    assert logLine == FullLine(verb, path, status, durationMs, sent, stringify);
    if |logLine| > MaxLogLength {
      logLine := logLine[..79] + "…";
    }
    return Some(logLine);
  }

  // ---------------------------------------------------------------------------
  // Error handler

  /** What a route passes to `next(err)`: the fields of `err` the handler reads. */
  datatype Failure = Failure(status: Option<int>, statusCode: Option<int>, message: string)

  /** `x || y` on an optional number: undefined and 0 are falsy. */
  function OrStatus(x: Option<int>, y: int): int {
    if x.Some? && x.value != 0 then x.value else y
  }

  /** The reply: `err.status || err.statusCode || 500`, and `err.message || "Internal Server Error"`. */
  function ErrorReply(err: Failure): (r: Reply)
    ensures r.status != 0
    ensures r.status == 500 <==> OrStatus(err.status, OrStatus(err.statusCode, 500)) == 500
    ensures r.body.JsonBody?
    ensures Member(r.body.value, "message") == Some(Str(if err.message == "" then "Internal Server Error" else err.message))
  {
    MessageReply(OrStatus(err.status, OrStatus(err.statusCode, 500)),
                 if err.message == "" then "Internal Server Error" else err.message)
  }

  /** An error that carries no status of its own is a 500; its status is used when it has one. */
  lemma ErrorStatus(err: Failure)
    ensures err.status.Some? && err.status.value != 0 ==> ErrorReply(err).status == err.status.value
    ensures (err.status.None? || err.status.value == 0) && err.statusCode.Some? && err.statusCode.value != 0 ==>
      ErrorReply(err).status == err.statusCode.value
    ensures (err.status.None? || err.status.value == 0) && (err.statusCode.None? || err.statusCode.value == 0) ==>
      ErrorReply(err) == MessageReply(500, if err.message == "" then "Internal Server Error" else err.message)
  {
  }
}
