/** `trace` and `parseOutput`: the service's entry point.

    The host is validated, a default name is chosen, the command is built
    and run, its failure modes are turned into errors, and the standard
    output is parsed into hops. Running the command is a parameter `run`
    from the command line to what the process did; the trace id suffix and
    the timestamp are inputs, since `uniqid` and `time` are not modelled. */
module Trace {
  import opened Wrappers
  import opened Text
  import opened Hops
  import opened Command
  import opened Classifier
  import opened Normalizer
  import opened HopLine

  /** What running the command produced: nothing (the process could not be
      started), or its exit code, its standard output as the lines `fgets`
      returned, and its standard error. */
  datatype Execution = NotStarted | Finished(exitCode: int, stdout: seq<string>, stderr: string)

  /** What `trace` throws: `\InvalidArgumentException` for an empty host,
      and a plain `\Exception` for a run that failed. */
  datatype TraceError = InvalidArgument(message: string) | GeneralFailure(message: string)

  /** The record `trace` returns. */
  datatype TraceRecord = TraceRecord(id: string, name: string, host: string, timestamp: int, hops: seq<Hop>)

  const EmptyHostMessage := "Host cannot be empty"
  const NotStartedMessage := "Failed to execute traceroute command"
  const NoOutputMessage := "Traceroute command produced no output"
  const IdPrefix := "trace_"

  /** `parseOutput`: select the hop lines, parse them, then make hop 1 the
      local machine. */
  function ParseOutput(d: Dialect, output: seq<string>): (hops: seq<Hop>)
    ensures |hops| <= |output| + 1
    ensures forall k :: 0 <= k < |hops| ==> ParsedShape(hops[k])
    ensures hops != [] ==> HasLocalHop1(hops)
  {
    var parsed := ParseHops(d, Body(d, output));
    NormalizeKeepsShape(parsed);
    if parsed == [] then Normalize(parsed)
    else NormalizeEstablishesLocalHop1(parsed); Normalize(parsed)
  }

  /** `parseOutput` returns the normalised parse of each hop line of the
      body that the dialect's parser answers, in input order: every hop
      line on Unix, every hop line without "Trace complete" on Windows. */
  lemma ParseOutputParsesBody(d: Dialect, output: seq<string>)
    ensures var ts := Answered(d, HopLines(Body(d, output)));
            && (forall k :: 0 <= k < |ts| ==> ParseLine(d, ts[k]).Some?)
            && ParseOutput(d, output) == Normalize(ParseEach(d, ts))
  {
    ParseHopsAreParses(d, Body(d, output));
  }

  /** Normalisation keeps every hop well-shaped: the local hop is, and the
      rewritten hop keeps its number, `ttl` and ping time. */
  lemma NormalizeKeepsShape(hops: seq<Hop>)
    requires forall k :: 0 <= k < |hops| ==> ParsedShape(hops[k])
    ensures forall k :: 0 <= k < |Normalize(hops)| ==> ParsedShape(Normalize(hops)[k])
  {
    var r := Normalize(hops);
    if hops != [] && FirstHop1(hops).None? {
      forall k | 1 <= k < |r|
        ensures ParsedShape(r[k])
      {
        assert r[k] == hops[k - 1];
      }
    }
  }

  const ExitPrefix := "Traceroute command failed with code "

  /** The part of a non-zero exit's message after the code: standard
      error, or the output lines joined by newlines when standard error is
      falsy (`$stderr ?: implode("\n", $output)`). */
  function ExitDetail(stderr: string, output: seq<string>): string {
    if IsEmptyString(stderr) then Join(output, "\n") else stderr
  }

  /** The message of a non-zero exit: the fixed prefix, the code, ": ",
      then the detail. */
  function ExitMessage(code: int, stderr: string, output: seq<string>): (m: string)
    ensures var p := |ExitPrefix| + |IntToString(code)|;
            && p + 2 <= |m|
            && m[..|ExitPrefix|] == ExitPrefix
            && m[|ExitPrefix|..p] == IntToString(code)
            && m[p..p + 2] == ": "
            && m[p + 2..] == ExitDetail(stderr, output)
  {
    var c := IntToString(code);
    var tail := ExitDetail(stderr, output);
    var m := ExitPrefix + (c + (": " + tail));
    ExitMessagePieces(ExitPrefix, c, tail);
    m
  }

  /** The slices of `a + (b + (": " + t))`. */
  lemma ExitMessagePieces(a: string, b: string, t: string)
    ensures var m := a + (b + (": " + t));
            && m[..|a|] == a
            && m[|a|..|a| + |b|] == b
            && m[|a| + |b|..|a| + |b| + 2] == ": "
            && m[|a| + |b| + 2..] == t
  {
    var m := a + (b + (": " + t));
    var r := b + (": " + t);
    assert m[|a|..] == r;
    assert r[..|b|] == b && r[|b|..] == ": " + t;
    assert m[|a|..|a| + |b|] == r[..|b|];
    assert m[|a| + |b|..] == ": " + t;
    assert m[|a| + |b|..|a| + |b| + 2] == (": " + t)[..2];
  }

  /** When standard error is falsy, the output lines can be read back from
      the message: split on newlines, its detail is the output itself, as
      long as the output is not empty and no line holds a newline. */
  lemma ExitMessageCarriesOutput(code: int, stderr: string, output: seq<string>)
    requires IsEmptyString(stderr)
    requires output != [] && forall k :: 0 <= k < |output| ==> '\n' !in output[k]
    ensures var p := |ExitPrefix| + |IntToString(code)|;
            Split(ExitMessage(code, stderr, output)[p + 2..], '\n') == output
  {
    SplitJoin(output, '\n');
  }

  /** The output lines as the service stores them: each right-trimmed. */
  function OutputLines(raw: seq<string>): (output: seq<string>)
    ensures |output| == |raw|
    ensures forall k :: 0 <= k < |raw| ==> output[k] == RTrim(raw[k])
  {
    seq(|raw|, k requires 0 <= k < |raw| => RTrim(raw[k]))
  }

  /** The name the record carries: the caller's, unless `empty()`. */
  function RecordName(host: string, name: string): (n: string)
    ensures !IsEmptyString(name) ==> n == name
    ensures IsEmptyString(name) ==> n == "Trace to " + host
  {
    if IsEmptyString(name) then "Trace to " + host else name
  }

  /** What `trace` makes of a run of the command for a non-empty host. */
  function Finish(d: Dialect, host: string, name: string, idSuffix: string, timestamp: int,
                  e: Execution): (r: Result<TraceRecord, TraceError>)
    ensures r.Success? ==> e.Finished? && e.exitCode == 0 && e.stdout != []
    ensures r.Success? ==>
              && r.value.host == host && r.value.name == RecordName(host, name)
              && r.value.timestamp == timestamp && IdPrefix <= r.value.id
    ensures r.Success? && r.value.hops != [] ==> HasLocalHop1(r.value.hops)
    ensures r.Failure? ==> r.error.GeneralFailure?
  {
    match e
    case NotStarted => Failure(GeneralFailure(NotStartedMessage))
    case Finished(code, raw, stderr) =>
      var output := OutputLines(raw);
      if code != 0 then Failure(GeneralFailure(ExitMessage(code, stderr, output)))
      else if output == [] then Failure(GeneralFailure(NoOutputMessage))
      else Success(TraceRecord(IdPrefix + idSuffix, RecordName(host, name), host, timestamp,
                               ParseOutput(d, output)))
  }

  /** `trace`. */
  function TraceRoute(d: Dialect, host: string, name: string, user: Options,
                      quote: string -> string, run: string -> Execution,
                      idSuffix: string, timestamp: int): (r: Result<TraceRecord, TraceError>)
    ensures r == Failure(InvalidArgument(EmptyHostMessage)) <==> IsEmptyString(host)
    ensures r.Success? ==>
              && !IsEmptyString(host)
              && run(BuildCommand(d, host, user, quote)).Finished?
              && run(BuildCommand(d, host, user, quote)).exitCode == 0
              && run(BuildCommand(d, host, user, quote)).stdout != []
    ensures r.Success? ==>
              && r.value.host == host && r.value.name == RecordName(host, name)
              && r.value.timestamp == timestamp && IdPrefix <= r.value.id
    ensures r.Success? && r.value.hops != [] ==> HasLocalHop1(r.value.hops)
  {
    if IsEmptyString(host) then Failure(InvalidArgument(EmptyHostMessage))
    else Finish(d, host, name, idSuffix, timestamp, run(BuildCommand(d, host, user, quote)))
  }

  /** A started command that exits with 0 and prints at least one line
      always gives a record, whose hops are those of its trimmed output. */
  lemma SuccessfulRunGivesRecord(d: Dialect, host: string, name: string, idSuffix: string,
                                 timestamp: int, e: Execution)
    requires e.Finished? && e.exitCode == 0 && e.stdout != []
    ensures var r := Finish(d, host, name, idSuffix, timestamp, e);
            r.Success? && r.value.hops == ParseOutput(d, OutputLines(e.stdout))
  {
  }

  /** A command that could not be started fails with its own message. */
  lemma NotStartedFails(d: Dialect, host: string, name: string, idSuffix: string, timestamp: int)
    ensures Finish(d, host, name, idSuffix, timestamp, NotStarted) == Failure(GeneralFailure(NotStartedMessage))
  {
  }

  /** A clean exit with no output fails with its own message. */
  lemma SilentRunFails(d: Dialect, host: string, name: string, idSuffix: string, timestamp: int,
                       stderr: string)
    ensures Finish(d, host, name, idSuffix, timestamp, Finished(0, [], stderr))
      == Failure(GeneralFailure(NoOutputMessage))
  {
  }

  /** A non-zero exit fails with a message from which the exit code reads back. */
  lemma ExitCodeReported(d: Dialect, host: string, name: string, idSuffix: string, timestamp: int,
                         e: Execution)
    requires e.Finished? && e.exitCode != 0
    ensures var r := Finish(d, host, name, idSuffix, timestamp, e);
            && r.Failure? && r.error.GeneralFailure?
            && ParseInt(r.error.message[|ExitPrefix|..|ExitPrefix| + |IntToString(e.exitCode)|]) == e.exitCode
  {
    IntToStringRoundTrip(e.exitCode);
  }

  /** The host "0" is rejected like the empty host (PHP `empty("0")`). */
  lemma ZeroHostRejected(d: Dialect, name: string, user: Options,
                         quote: string -> string, run: string -> Execution,
                         idSuffix: string, timestamp: int)
    ensures TraceRoute(d, "0", name, user, quote, run, idSuffix, timestamp)
      == Failure(InvalidArgument(EmptyHostMessage))
  {
  }
}
