/** `buildCommand`: the command line the service runs.

    The caller's options are merged over the defaults (30 hops, 5 seconds,
    3 probes per hop). A host containing ':' is traced over IPv6. Windows
    runs `tracert [-6] -h <hops> -w <ms>` with the timeout converted to
    milliseconds and no probe count; Unix runs `traceroute` or
    `traceroute6` with `-m <hops> -w <s> -q <probes>`. The host comes last,
    shell-quoted. The quoting function is a parameter: PHP's
    `escapeshellarg` is not modelled. */
module Command {
  import opened Wrappers
  import opened Text
  import opened Hops

  /** Option name to integer value. */
  type Options = map<string, int>

  const MaxHopsKey := "max_hops"
  const TimeoutKey := "timeout"
  const QueriesKey := "queries"

  const Defaults: Options := map[MaxHopsKey := 30, TimeoutKey := 5, QueriesKey := 3]

  /** `array_merge($defaultOptions, $options)`: every default is present,
      and a key the caller sets takes the caller's value. */
  function Merge(user: Options): (o: Options)
    ensures forall k :: k in o <==> k in Defaults || k in user
    ensures forall k :: k in user ==> o[k] == user[k]
    ensures forall k :: k in Defaults && k !in user ==> o[k] == Defaults[k]
  {
    Defaults + user
  }

  /** One merged setting the command uses. */
  function Setting(user: Options, key: string): (v: int)
    requires key in Defaults
    ensures key in user ==> v == user[key]
    ensures key !in user ==> v == Defaults[key]
  {
    Merge(user)[key]
  }

  /** A flag with an integer argument, such as `-m 30`. */
  datatype Flag = Flag(name: string, value: int)

  /** A command: the program, its bare switches, its flags and the target. */
  datatype Invocation = Invocation(program: string, switches: seq<string>, flags: seq<Flag>, target: string)

  /** The value of the first flag called `name`, if any. */
  function FlagValue(flags: seq<Flag>, name: string): (r: Option<int>)
    ensures r.None? <==> forall k :: 0 <= k < |flags| ==> flags[k].name != name
    ensures r.Some? ==> Flag(name, r.value) in flags
  {
    if flags == [] then None
    else if flags[0].name == name then Some(flags[0].value)
    else FlagValue(flags[1..], name)
  }

  /** `strpos($host, ':') !== false`. */
  predicate WantsIPv6(host: string) {
    Contains(host, ":")
  }

  /** The flag carrying the hop limit. */
  function HopLimitFlag(d: Dialect): string {
    if d.Windows? then "-h" else "-m"
  }

  /** The program `buildCommand` runs. */
  function Program(d: Dialect, host: string): string {
    if d.Windows? then "tracert" else if WantsIPv6(host) then "traceroute6" else "traceroute"
  }

  /** The bare switches: only Windows asks for IPv6 with `-6`. */
  function Switches(d: Dialect, host: string): seq<string> {
    if d.Windows? && WantsIPv6(host) then ["-6"] else []
  }

  /** The numeric flags, from the merged options. */
  function Flags(d: Dialect, user: Options): (fs: seq<Flag>)
    ensures |fs| == if d.Windows? then 2 else 3
    ensures forall k :: 0 <= k < |fs| ==> ' ' !in fs[k].name
    ensures fs[0].name == HopLimitFlag(d) && fs[1].name == "-w"
    ensures d.Unix? ==> fs[2].name == "-q"
  {
    var hops := Setting(user, MaxHopsKey);
    var timeout := Setting(user, TimeoutKey);
    if d.Windows? then [Flag("-h", hops), Flag("-w", timeout * 1000)]
    else [Flag("-m", hops), Flag("-w", timeout), Flag("-q", Setting(user, QueriesKey))]
  }

  /** Each flag carries its merged setting: the hop limit under the
      dialect's name, the timeout (in milliseconds on Windows), and the
      probe count on Unix only. */
  lemma FlagsCarrySettings(d: Dialect, user: Options)
    ensures FlagValue(Flags(d, user), HopLimitFlag(d)) == Some(Setting(user, MaxHopsKey))
    ensures d.Windows? ==> FlagValue(Flags(d, user), "-w") == Some(Setting(user, TimeoutKey) * 1000)
    ensures d.Unix? ==> FlagValue(Flags(d, user), "-w") == Some(Setting(user, TimeoutKey))
    ensures d.Windows? ==> FlagValue(Flags(d, user), "-q").None?
    ensures d.Unix? ==> FlagValue(Flags(d, user), "-q") == Some(Setting(user, QueriesKey))
  {
    var fs := Flags(d, user);
    if d.Windows? {
      assert fs[1..][1..] == [];
    } else {
      assert fs[1..][1..] == [fs[2]];
    }
  }

  /** The command `buildCommand` chooses, before rendering. */
  function Plan(d: Dialect, host: string, user: Options): (inv: Invocation)
    ensures inv.target == host
    ensures d.Windows? ==> inv.program == "tracert"
    ensures d.Windows? ==> (inv.switches == ["-6"] <==> WantsIPv6(host))
    ensures d.Unix? ==> inv.program == (if WantsIPv6(host) then "traceroute6" else "traceroute")
    ensures d.Unix? || !WantsIPv6(host) ==> inv.switches == []
    ensures inv.flags == Flags(d, user)
  {
    Invocation(Program(d, host), Switches(d, host), Flags(d, user), host)
  }

  /** The words of the flags: name, then the `%d` rendering of the value. */
  function FlagWords(flags: seq<Flag>): (ws: seq<string>)
    ensures |ws| == 2 * |flags|
  {
    if flags == [] then [] else [flags[0].name, IntToString(flags[0].value)] + FlagWords(flags[1..])
  }

  /** Reads flags back from name/value word pairs. */
  function ReadFlags(ws: seq<string>): (flags: seq<Flag>)
    decreases |ws|
  {
    if |ws| < 2 then [] else [Flag(ws[0], ParseInt(ws[1]))] + ReadFlags(ws[2..])
  }

  /** The `%d` words read back as the flags they were printed from. */
  lemma {:induction false} ReadFlagsRoundTrip(flags: seq<Flag>)
    ensures ReadFlags(FlagWords(flags)) == flags
    decreases |flags|
  {
    if flags != [] {
      var ws := FlagWords(flags);
      assert ws[2..] == FlagWords(flags[1..]);
      IntToStringRoundTrip(flags[0].value);
      ReadFlagsRoundTrip(flags[1..]);
    }
  }

  /** Everything before the quoted target, word by word. */
  function Words(inv: Invocation): seq<string> {
    [inv.program] + inv.switches + FlagWords(inv.flags)
  }

  /** The command line: the words joined by single spaces, a space, then
      the quoted target. */
  function Render(inv: Invocation, quote: string -> string): (cmd: string)
    ensures Join(Words(inv), " ") + " " <= cmd
    ensures |cmd| == |Join(Words(inv), " ")| + 1 + |quote(inv.target)|
    ensures cmd[|cmd| - |quote(inv.target)|..] == quote(inv.target)
  {
    Join(Words(inv), " ") + " " + quote(inv.target)
  }

  /** `buildCommand`. */
  function BuildCommand(d: Dialect, host: string, user: Options, quote: string -> string): (cmd: string)
    ensures |quote(host)| < |cmd| && cmd[|cmd| - |quote(host)|..] == quote(host)
    ensures Plan(d, host, user).program <= cmd
  {
    var inv := Plan(d, host, user);
    var cmd := Render(inv, quote);
    var head := Join(Words(inv), " ");
    assert cmd[|cmd| - |quote(host)|..] == quote(host);
    assert |Words(inv)| > 1;
    assert inv.program <= head;
    cmd
  }

  /** The `%d` rendering of a number has no space in it. */
  lemma NumberHasNoSpace(n: int)
    ensures ' ' !in IntToString(n)
  {
  }

  /** Flags whose names have no space render to words without spaces. */
  lemma {:induction false} FlagWordsHaveNoSpace(fs: seq<Flag>)
    requires forall k :: 0 <= k < |fs| ==> ' ' !in fs[k].name
    ensures forall k :: 0 <= k < |FlagWords(fs)| ==> ' ' !in FlagWords(fs)[k]
    decreases |fs|
  {
    if fs != [] {
      FlagWordsHaveNoSpace(fs[1..]);
      NumberHasNoSpace(fs[0].value);
      var ws := FlagWords(fs);
      assert ws == [fs[0].name, IntToString(fs[0].value)] + FlagWords(fs[1..]);
      forall k | 2 <= k < |ws|
        ensures ' ' !in ws[k]
      {
        assert ws[k] == FlagWords(fs[1..])[k - 2];
      }
    }
  }

  /** An invocation whose program, switches and flag names have no space. */
  predicate SpaceFree(inv: Invocation) {
    && ' ' !in inv.program
    && (forall k :: 0 <= k < |inv.switches| ==> ' ' !in inv.switches[k])
    && (forall k :: 0 <= k < |inv.flags| ==> ' ' !in inv.flags[k].name)
  }

  /** Every planned command is space-free. */
  lemma PlanIsSpaceFree(d: Dialect, host: string, user: Options)
    ensures SpaceFree(Plan(d, host, user))
  {
    var inv := Plan(d, host, user);
    assert inv.program == Program(d, host) && inv.switches == Switches(d, host);
  }

  /** No word of a space-free invocation contains a space. */
  lemma WordsHaveNoSpace(inv: Invocation)
    requires SpaceFree(inv)
    ensures forall k :: 0 <= k < |Words(inv)| ==> ' ' !in Words(inv)[k]
  {
    FlagWordsHaveNoSpace(inv.flags);
    var ws := Words(inv);
    forall k | 0 <= k < |ws|
      ensures ' ' !in ws[k]
    {
      if k == 0 {
      } else if k <= |inv.switches| {
        assert ws[k] == inv.switches[k - 1];
      } else {
        assert ws[k] == FlagWords(inv.flags)[k - 1 - |inv.switches|];
      }
    }
  }

  /** A rendered space-free invocation reads back: cutting off the quoted
      target and splitting the rest at spaces gives its words, whose flag
      part parses back to its flags. */
  lemma RenderRoundTrip(inv: Invocation, quote: string -> string)
    requires SpaceFree(inv)
    ensures var cmd := Render(inv, quote);
            var n := |cmd| - |quote(inv.target)| - 1;
            0 <= n && cmd[n..] == " " + quote(inv.target)
              && Split(cmd[..n], ' ') == Words(inv)
              && ReadFlags(Words(inv)[1 + |inv.switches|..]) == inv.flags
  {
    var head := Join(Words(inv), " ");
    var cmd := Render(inv, quote);
    assert cmd == head + (" " + quote(inv.target));
    var n := |cmd| - |quote(inv.target)| - 1;
    assert n == |head|;
    assert cmd[..n] == head && cmd[n..] == " " + quote(inv.target);
    WordsHaveNoSpace(inv);
    SplitJoin(Words(inv), ' ');
    assert Words(inv)[1 + |inv.switches|..] == FlagWords(inv.flags);
    ReadFlagsRoundTrip(inv.flags);
  }

  /** The command reads back: cutting off the quoted host and splitting the
      rest at spaces gives the program, the switches and the flags, whose
      values parse back to the merged settings. */
  lemma CommandRoundTrip(d: Dialect, host: string, user: Options, quote: string -> string)
    ensures var cmd := BuildCommand(d, host, user, quote);
            var inv := Plan(d, host, user);
            var n := |cmd| - |quote(host)| - 1;
            0 <= n && cmd[n..] == " " + quote(host)
              && Split(cmd[..n], ' ') == Words(inv)
              && ReadFlags(Words(inv)[1 + |inv.switches|..]) == inv.flags
  {
    var inv := Plan(d, host, user);
    PlanIsSpaceFree(d, host, user);
    RenderRoundTrip(inv, quote);
    assert BuildCommand(d, host, user, quote) == Render(inv, quote);
  }

  /** The `%d` renderings of the default settings. */
  lemma DefaultNumerals()
    ensures IntToString(30) == "30" && IntToString(5) == "5" && IntToString(3) == "3"
    ensures IntToString(5000) == "5000"
  {
    assert NatToDecimal(3) == "3";
    assert NatToDecimal(30) == NatToDecimal(3) + "0";
    assert NatToDecimal(5) == "5";
    assert NatToDecimal(50) == NatToDecimal(5) + "0";
    assert NatToDecimal(500) == NatToDecimal(50) + "0";
    assert NatToDecimal(5000) == NatToDecimal(500) + "0";
  }

  /** With no options of the caller's, every setting is its default. */
  lemma DefaultSettings()
    ensures Setting(map[], MaxHopsKey) == 30
    ensures Setting(map[], TimeoutKey) == 5
    ensures Setting(map[], QueriesKey) == 3
  {
  }

  /** The Unix flag words for the default options. */
  lemma DefaultUnixFlagWords()
    ensures FlagWords(Flags(Unix, map[])) == ["-m", "30", "-w", "5", "-q", "3"]
  {
    DefaultSettings();
    DefaultNumerals();
    var u := [Flag("-m", 30), Flag("-w", 5), Flag("-q", 3)];
    assert Flags(Unix, map[]) == u;
    assert FlagWords(u[2..]) == ["-q", "3"];
    assert FlagWords(u[1..]) == ["-w", "5", "-q", "3"];
  }

  /** The Windows flag words for the default options: the 5-second timeout
      becomes 5000 ms and there is no probe count. */
  lemma DefaultWindowsFlagWords()
    ensures FlagWords(Flags(Windows, map[])) == ["-h", "30", "-w", "5000"]
  {
    DefaultSettings();
    DefaultNumerals();
    var w := [Flag("-h", 30), Flag("-w", 5000)];
    assert Flags(Windows, map[]) == w;
    assert FlagWords(w[1..]) == ["-w", "5000"];
  }

  /** The Unix command for the default options and a plain IPv4 host, word by word. */
  lemma DefaultUnixCommand(host: string)
    requires !WantsIPv6(host)
    ensures Words(Plan(Unix, host, map[])) == ["traceroute", "-m", "30", "-w", "5", "-q", "3"]
  {
    DefaultUnixFlagWords();
  }

  /** The Windows command for the default options and a plain IPv4 host. */
  lemma DefaultWindowsCommand(host: string)
    requires !WantsIPv6(host)
    ensures Words(Plan(Windows, host, map[])) == ["tracert", "-h", "30", "-w", "5000"]
  {
    DefaultWindowsFlagWords();
  }
}
