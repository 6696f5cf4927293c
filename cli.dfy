/** The argument checks of the command-line front end: `Cli::validate`,
    `Cli::log_level` and the localhost rewrite that `Cli::parse_address`
    applies before handing the text to the socket-address parser. */
module Cli {
  import opened Wire
  import Client

  datatype OutputFormat = Text | Json

  /** The subcommands and their arguments. */
  datatype Commands =
    | Exec(command: string, showTime: bool)
    | Interactive(prompt: string, history: bool, historySize: usize)
    | Ping(count: u32, interval: u64)
    | Info(detailed: bool)
    | Players(showUuids: bool)

  /** The parsed command line. */
  datatype Cli = Cli(address: string, password: string, timeout: u64, verbose: u8,
                     format: OutputFormat, noColor: bool, command: Commands)

  /** `Result<(), String>` as `validate` returns it. */
  datatype Verdict = Passed | Failed(message: string)

  // ------------------------------------------------------------ trimming

  /** `char::is_whitespace`: the characters with the Unicode White_Space property. */
  predicate IsWhitespace(c: char) {
    ('\U{0009}' <= c <= '\U{000D}') || c == '\U{0020}' || c == '\U{0085}' || c == '\U{00A0}' ||
    c == '\U{1680}' || ('\U{2000}' <= c <= '\U{200A}') || c == '\U{2028}' || c == '\U{2029}' ||
    c == '\U{202F}' || c == '\U{205F}' || c == '\U{3000}'
  }

  predicate AllWhitespace(s: string) {
    forall i :: 0 <= i < |s| ==> IsWhitespace(s[i])
  }

  /** `str::trim_start`. */
  function TrimStart(s: string): (t: string)
    ensures |t| <= |s| && t == s[|s| - |t|..]
    ensures t == [] || !IsWhitespace(t[0])
    ensures AllWhitespace(s[..|s| - |t|])
  {
    if s != [] && IsWhitespace(s[0]) then
      var t := TrimStart(s[1..]);
      assert s[1..][..|s| - 1 - |t|] == s[1..|s| - |t|];
      assert forall i :: 1 <= i < |s| - |t| ==> s[i] == s[1..][..|s| - 1 - |t|][i - 1];
      t
    else s
  }

  /** `str::trim_end`. */
  function TrimEnd(s: string): (t: string)
    ensures |t| <= |s| && t == s[..|t|]
    ensures t == [] || !IsWhitespace(t[|t| - 1])
    ensures AllWhitespace(s[|t|..])
  {
    if s != [] && IsWhitespace(s[|s| - 1]) then
      var t := TrimEnd(s[..|s| - 1]);
      assert s[..|s| - 1][|t|..] == s[|t|..|s| - 1];
      assert forall i :: |t| <= i < |s| - 1 ==> s[i] == s[..|s| - 1][|t|..][i - |t|];
      t
    else s
  }

  /** `str::trim`: whitespace removed at both ends. */
  function Trim(s: string): (t: string)
  {
    TrimEnd(TrimStart(s))
  }

  /** The trimmed text is a substring of `s` with only whitespace around it,
      and it neither starts nor ends with whitespace. */
  lemma TrimIsInfix(s: string)
    ensures var t := Trim(s); t == [] || (!IsWhitespace(t[0]) && !IsWhitespace(t[|t| - 1]))
    ensures var t := Trim(s);
            exists i :: 0 <= i <= |s| - |t| && s[i..i + |t|] == t &&
                        AllWhitespace(s[..i]) && AllWhitespace(s[i + |t|..])
  {
    TrimAtOffset(s, TrimStart(s), Trim(s));
  }

  /** Where the trimmed text sits in `s`: after the whitespace that
      `trim_start` drops and before the whitespace that `trim_end` drops. */
  lemma TrimAtOffset(s: string, u: string, t: string)
    requires |u| <= |s| && u == s[|s| - |u|..] && AllWhitespace(s[..|s| - |u|])
    requires u == [] || !IsWhitespace(u[0])
    requires |t| <= |u| && t == u[..|t|] && AllWhitespace(u[|t|..])
    requires t == [] || !IsWhitespace(t[|t| - 1])
    ensures t == [] || (!IsWhitespace(t[0]) && !IsWhitespace(t[|t| - 1]))
    ensures exists i :: 0 <= i <= |s| - |t| && s[i..i + |t|] == t &&
                        AllWhitespace(s[..i]) && AllWhitespace(s[i + |t|..])
  {
    var i := |s| - |u|;
    SliceOfSuffix(s, i, |t|);
    assert 0 <= i <= |s| - |t| && s[i..i + |t|] == t && AllWhitespace(s[..i]) && AllWhitespace(s[i + |t|..]);
  }

  /** Slicing a suffix of `s` is slicing `s` further along. */
  lemma SliceOfSuffix(s: string, i: nat, n: nat)
    requires i + n <= |s|
    ensures s[i..][..n] == s[i..i + n] && s[i..][n..] == s[i + n..]
  {
  }

  /** A string trims to nothing exactly when it is all whitespace. */
  lemma TrimEmptyIff(s: string)
    ensures Trim(s) == [] <==> AllWhitespace(s)
  {
    var u := TrimStart(s);
    if Trim(s) == [] {
      assert u[0..] == u;
      assert u == [];
      assert s[..|s|] == s;
    } else {
      var t := Trim(s);
      assert !IsWhitespace(t[0]);
      assert t[0] == u[0] == s[|s| - |u|];
    }
  }

  // ------------------------------------------------------------ validate

  /** The checks of `validate`, in source order: a condition that fails the
      arguments and the message it produces. */
  function Checks(c: Cli): seq<(bool, string)> {
    [(c.timeout == 0, "Timeout must be greater than 0"),
     (c.password == [], "Password cannot be empty")] +
    match c.command
    case Exec(command, _) => [(Trim(command) == [], "Command cannot be empty")]
    case Interactive(_, _, historySize) => [(historySize == 0, "History size must be greater than 0")]
    case Ping(count, interval) =>
      [(count == 0, "Ping count must be greater than 0"),
       (interval == 0, "Ping interval must be greater than 0")]
    case Info(_) => []
    case Players(_) => []
  }

  /** The verdict of a list of checks: the message of the first that fails. */
  function FirstFailure(checks: seq<(bool, string)>): (v: Verdict)
    ensures v.Passed? <==> forall i :: 0 <= i < |checks| ==> !checks[i].0
  {
    if checks == [] then Passed
    else if checks[0].0 then Failed(checks[0].1)
    else
      assert forall i :: 1 <= i < |checks| ==> checks[i] == checks[1..][i - 1];
      FirstFailure(checks[1..])
  }

  /** A failing verdict carries the message of a failing check with no
      failing check before it. */
  lemma {:induction false} FirstFailureIsFirst(checks: seq<(bool, string)>)
    requires FirstFailure(checks).Failed?
    ensures exists i :: 0 <= i < |checks| && checks[i].0 && FirstFailure(checks).message == checks[i].1 &&
                        forall j :: 0 <= j < i ==> !checks[j].0
  {
    if !checks[0].0 {
      var tail := checks[1..];
      FirstFailureIsFirst(tail);
      var k :| 0 <= k < |tail| && tail[k].0 && FirstFailure(tail).message == tail[k].1 &&
               forall j :: 0 <= j < k ==> !tail[j].0;
      assert checks[k + 1] == tail[k];
      assert forall j :: 1 <= j < k + 1 ==> checks[j] == tail[j - 1];
      assert checks[k + 1].0 && forall j :: 0 <= j < k + 1 ==> !checks[j].0;
    } else {
      assert checks[0].0 && FirstFailure(checks).message == checks[0].1;
    }
  }

  /** `Cli::validate`, with its early returns. */
  function Validate(c: Cli): (v: Verdict)
  {
    if c.timeout == 0 then Failed("Timeout must be greater than 0")
    else if c.password == [] then Failed("Password cannot be empty")
    else
      match c.command
      case Exec(command, _) =>
        if Trim(command) == [] then Failed("Command cannot be empty") else Passed
      case Interactive(_, _, historySize) =>
        if historySize == 0 then Failed("History size must be greater than 0") else Passed
      case Ping(count, interval) =>
        if count == 0 then Failed("Ping count must be greater than 0")
        else if interval == 0 then Failed("Ping interval must be greater than 0")
        else Passed
      case Info(_) => Passed
      case Players(_) => Passed
  }

  /** `validate` is the first failing check in source order. */
  lemma ValidateIsFirstFailure(c: Cli)
    ensures Validate(c) == FirstFailure(Checks(c))
  {
    var cs := Checks(c);
    assert cs[0] == (c.timeout == 0, "Timeout must be greater than 0");
    assert cs[1..][0] == (c.password == [], "Password cannot be empty");
    var tail := cs[1..][1..];
    if c.timeout != 0 && c.password != [] {
      assert FirstFailure(cs) == FirstFailure(cs[1..]) == FirstFailure(tail);
    }
    match c.command
    case Exec(command, _) => assert tail == [(Trim(command) == [], "Command cannot be empty")];
    case Interactive(_, _, h) => assert tail == [(h == 0, "History size must be greater than 0")];
    case Ping(count, interval) =>
      assert tail == [(count == 0, "Ping count must be greater than 0"),
                      (interval == 0, "Ping interval must be greater than 0")];
      assert tail[1..] == [(interval == 0, "Ping interval must be greater than 0")];
      if count != 0 {
        assert FirstFailure(tail) == FirstFailure(tail[1..]);
      }
    case Info(_) => assert tail == [];
    case Players(_) => assert tail == [];
  }

  /** `validate` accepts exactly the arguments that fail no check. */
  lemma ValidateOkIff(c: Cli)
    ensures Validate(c) == Passed <==>
            c.timeout != 0 && c.password != [] &&
            (c.command.Exec? ==> !AllWhitespace(c.command.command)) &&
            (c.command.Interactive? ==> c.command.historySize != 0) &&
            (c.command.Ping? ==> c.command.count != 0 && c.command.interval != 0)
  {
    if c.command.Exec? {
      TrimEmptyIff(c.command.command);
    }
  }

  /** A zero timeout is reported before anything else is looked at. */
  lemma TimeoutCheckedFirst(c: Cli)
    requires c.timeout == 0
    ensures Validate(c) == Failed("Timeout must be greater than 0")
  {
  }

  /** A blank or whitespace-only command is refused once timeout and password pass. */
  lemma BlankCommandRejected(c: Cli)
    requires c.timeout != 0 && c.password != [] && c.command.Exec?
    requires AllWhitespace(c.command.command)
    ensures Validate(c) == Failed("Command cannot be empty")
  {
    TrimEmptyIff(c.command.command);
  }

  /** For Ping a zero count is reported before a zero interval. */
  lemma PingCountBeforeInterval(c: Cli)
    requires c.timeout != 0 && c.password != [] && c.command.Ping?
    requires c.command.count == 0
    ensures Validate(c) == Failed("Ping count must be greater than 0")
  {
  }

  /** Info and Players add no check of their own. */
  lemma InfoAndPlayersUnchecked(c: Cli)
    requires c.command.Info? || c.command.Players?
    ensures Validate(c).Passed? <==> c.timeout != 0 && c.password != []
  {
  }

  // ------------------------------------------------------------ log level

  const LEVELS: seq<string> := ["warn", "info", "debug", "trace"]

  /** `Cli::log_level`: the tracing filter for a verbosity count. */
  function LogLevel(verbose: u8): (level: string)
    ensures level in LEVELS
  {
    match verbose
    case 0 => "warn"
    case 1 => "info"
    case 2 => "debug"
    case _ => "trace"
  }

  /** Each extra -v raises the level by one step until "trace", which every
      count from 3 on maps to. */
  lemma LogLevelSteps(verbose: u8)
    ensures verbose < 3 ==> LogLevel(verbose) == LEVELS[verbose]
    ensures LogLevel(verbose) == "trace" <==> verbose >= 3
  {
  }

  /** Distinct counts below 3 give distinct levels. */
  lemma LogLevelInjectiveBelowThree(v: u8, w: u8)
    requires v < 3 && w < 3 && v != w
    ensures LogLevel(v) != LogLevel(w)
  {
  }

  // ------------------------------------------------------------ address rewrite

  const LOCALHOST: string := "localhost"
  const LOOPBACK: string := "127.0.0.1"
  const LOCALHOST_PORT: string := "localhost:"
  const LOOPBACK_PORT: string := "127.0.0.1:"

  predicate StartsWith(s: string, w: string) {
    |w| <= |s| && s[..|w|] == w
  }

  /** `w` occurs in `s` at position `i`. */
  predicate OccursAt(s: string, w: string, i: int) {
    0 <= i && i + |w| <= |s| && s[i..i + |w|] == w
  }

  /** `str::replace`: every non-overlapping occurrence of `from`, left to
      right, replaced by `to`. */
  function ReplaceAll(s: string, from: string, to: string): (r: string)
    requires from != []
    decreases |s|
  {
    if |s| < |from| then s
    else if s[..|from|] == from then to + ReplaceAll(s[|from|..], from, to)
    else [s[0]] + ReplaceAll(s[1..], from, to)
  }

  /** Replacing by a string of the same length keeps the length. */
  lemma {:induction false} ReplaceAllLength(s: string, from: string, to: string)
    requires from != [] && |to| == |from|
    ensures |ReplaceAll(s, from, to)| == |s|
    decreases |s|
  {
    if |s| < |from| {
    } else if s[..|from|] == from {
      ReplaceAllLength(s[|from|..], from, to);
    } else {
      ReplaceAllLength(s[1..], from, to);
    }
  }

  /** A string without an occurrence is left as it is. */
  lemma {:induction false} ReplaceAllIdentity(s: string, from: string, to: string)
    requires from != []
    requires forall i :: !OccursAt(s, from, i)
    ensures ReplaceAll(s, from, to) == s
    decreases |s|
  {
    if |s| >= |from| {
      assert !OccursAt(s, from, 0);
      assert s[0..|from|] == s[..|from|];
      forall i
        ensures !OccursAt(s[1..], from, i)
      {
        if OccursAt(s[1..], from, i) {
          assert s[1..][i..i + |from|] == s[i + 1..i + 1 + |from|];
          assert OccursAt(s, from, i + 1);
        }
      }
      ReplaceAllIdentity(s[1..], from, to);
      assert [s[0]] + s[1..] == s;
    }
  }

  /** The replacement cannot fake a pattern: it contains no first character
      of the pattern, and it starts with no later one. */
  predicate Unconfusable(from: string, to: string) {
    from != [] && to != [] &&
    (forall k :: 0 <= k < |to| ==> to[k] != from[0]) &&
    (forall k :: 1 <= k < |from| ==> from[k] != to[0])
  }

  /** After the rewrite a tail `from[j..]` of the pattern can begin the output
      only where it began the input. */
  lemma {:induction false} RewrittenTailPrefix(t: string, from: string, to: string, j: nat)
    requires Unconfusable(from, to) && 1 <= j <= |from|
    requires StartsWith(ReplaceAll(t, from, to), from[j..])
    ensures StartsWith(t, from[j..])
    decreases |t|
  {
    var w := from[j..];
    var r := ReplaceAll(t, from, to);
    if j < |from| && |t| >= |from| {
      assert r[0] == w[0] == from[j];
      if t[..|from|] == from {
        assert false;
      } else {
        var rest := ReplaceAll(t[1..], from, to);
        assert r == [t[0]] + rest;
        assert from[j + 1..] == w[1..];
        assert rest[..|w| - 1] == r[1..|w|];
        RewrittenTailPrefix(t[1..], from, to, j + 1);
        assert t[..|w|] == [t[0]] + t[1..][..|w| - 1];
      }
    }
  }

  /** After `replace` no occurrence of the pattern is left. */
  lemma {:induction false} ReplaceLeavesNoOccurrence(s: string, from: string, to: string, i: int)
    requires Unconfusable(from, to)
    ensures !OccursAt(ReplaceAll(s, from, to), from, i)
    decreases |s|, 1
  {
    if |s| >= |from| {
      if s[..|from|] == from {
        NoOccurrenceAfterMatch(s, from, to, i);
      } else {
        NoOccurrenceAfterSkip(s, from, to, i);
      }
    }
  }

  /** The case of a leading occurrence, which becomes `to`. */
  lemma {:induction false} NoOccurrenceAfterMatch(s: string, from: string, to: string, i: int)
    requires Unconfusable(from, to)
    requires |s| >= |from| && s[..|from|] == from
    ensures !OccursAt(ReplaceAll(s, from, to), from, i)
    decreases |s|, 0
  {
    var n := |from|;
    var r := ReplaceAll(s, from, to);
    var rest := ReplaceAll(s[n..], from, to);
    assert r == to + rest;
    if 0 <= i < |to| && i + n <= |r| {
      assert r[i..i + n][0] == to[i];
    } else if i >= |to| && i + n <= |r| {
      ReplaceLeavesNoOccurrence(s[n..], from, to, i - |to|);
      assert r[i..i + n] == rest[i - |to|..i - |to| + n];
    }
  }

  /** A kept first character starts no occurrence in the output either. */
  lemma NoOccurrenceAtKeptCharacter(s: string, from: string, to: string)
    requires Unconfusable(from, to)
    requires |s| >= |from| && s[..|from|] != from
    ensures !OccursAt(ReplaceAll(s, from, to), from, 0)
  {
    var n := |from|;
    var r := ReplaceAll(s, from, to);
    var rest := ReplaceAll(s[1..], from, to);
    assert r == [s[0]] + rest;
    if n <= |r| && r[1..n] == from[1..] {
      assert rest[..n - 1] == r[1..n];
      RewrittenTailPrefix(s[1..], from, to, 1);
      assert s[1..][..n - 1] == s[1..n];
      assert s[..n] == [s[0]] + s[1..n];
      assert r[0] == s[0] != from[0];
      assert r[0..n][0] != from[0];
    }
  }

  /** The case of a first character that starts no occurrence and is kept. */
  lemma {:induction false} NoOccurrenceAfterSkip(s: string, from: string, to: string, i: int)
    requires Unconfusable(from, to)
    requires |s| >= |from| && s[..|from|] != from
    ensures !OccursAt(ReplaceAll(s, from, to), from, i)
    decreases |s|, 0
  {
    var n := |from|;
    var r := ReplaceAll(s, from, to);
    var rest := ReplaceAll(s[1..], from, to);
    assert r == [s[0]] + rest;
    if i == 0 {
      NoOccurrenceAtKeptCharacter(s, from, to);
    } else if i >= 1 {
      ReplaceLeavesNoOccurrence(s[1..], from, to, i - 1);
      if i + n <= |r| {
        assert r[i..i + n] == rest[i - 1..i - 1 + n];
      }
    }
  }

  /** The text `parse_address` hands to the parser. */
  function RewriteAddress(address: string): (r: string)
  {
    if StartsWith(address, LOCALHOST_PORT) then ReplaceAll(address, LOCALHOST_PORT, LOOPBACK_PORT)
    else if address == LOCALHOST then LOOPBACK
    else address
  }

  /** The three cases of the rewrite: a leading "localhost:" turns every
      "localhost:" into "127.0.0.1:" (the length is kept and none is left),
      a bare "localhost" becomes "127.0.0.1", anything else is unchanged. */
  lemma RewriteAddressCases(address: string)
    ensures StartsWith(address, LOCALHOST_PORT) ==>
              var r := RewriteAddress(address);
              StartsWith(r, LOOPBACK_PORT) && r[|LOOPBACK_PORT|..] == ReplaceAll(address[|LOCALHOST_PORT|..], LOCALHOST_PORT, LOOPBACK_PORT) &&
              |r| == |address| && forall i :: !OccursAt(r, LOCALHOST_PORT, i)
    ensures address == LOCALHOST ==> RewriteAddress(address) == LOOPBACK
    ensures !StartsWith(address, LOCALHOST_PORT) && address != LOCALHOST ==> RewriteAddress(address) == address
  {
    if StartsWith(address, LOCALHOST_PORT) {
      var r := RewriteAddress(address);
      ReplaceAllLength(address, LOCALHOST_PORT, LOOPBACK_PORT);
      assert Unconfusable(LOCALHOST_PORT, LOOPBACK_PORT);
      forall i
        ensures !OccursAt(r, LOCALHOST_PORT, i)
      {
        ReplaceLeavesNoOccurrence(address, LOCALHOST_PORT, LOOPBACK_PORT, i);
      }
    }
  }

  /** Rewriting a rewritten address changes nothing. */
  lemma RewriteAddressIdempotent(address: string)
    ensures RewriteAddress(RewriteAddress(address)) == RewriteAddress(address)
  {
    var r := RewriteAddress(address);
    RewriteAddressCases(address);
    if StartsWith(address, LOCALHOST_PORT) {
      assert !StartsWith(r, LOCALHOST_PORT) by {
        assert !OccursAt(r, LOCALHOST_PORT, 0);
        assert r[0..|LOCALHOST_PORT|] == r[..|LOCALHOST_PORT|];
      }
      assert r != LOCALHOST by {
        assert r[0] == '1';
      }
    } else if address == LOCALHOST {
      assert r[0] == '1';
    }
  }

  /** The outcome of the socket-address parser on the rewritten text. */
  datatype AddressParse = AddressParse(parsed: Client.Option<Client.SocketAddr>, reason: string)

  datatype AddressResult = Resolved(addr: Client.SocketAddr) | Rejected(message: string)

  /** `Cli::parse_address`, with the library parser as a parameter: the parser
      sees the rewritten text, and a failure message quotes the address as the
      user wrote it. */
  function ParseAddress(c: Cli, parse: string -> AddressParse): (r: AddressResult)
    ensures var p := parse(RewriteAddress(c.address));
            (r.Resolved? <==> p.parsed.Some?) && (r.Resolved? ==> r.addr == p.parsed.value)
    ensures r.Rejected? ==> |r.message| >= 24 + |c.address| &&
                            r.message[..24] == "Invalid address format '" &&
                            r.message[24..24 + |c.address|] == c.address
  {
    var p := parse(RewriteAddress(c.address));
    match p.parsed
    case Some(addr) => Resolved(addr)
    case None => Rejected("Invalid address format '" + c.address + "': " + p.reason)
  }
}
