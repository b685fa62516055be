/** The agent's RPC service (package faild): a `Server` holding the
    interface the failover daemon runs on and the VIP it was initialised
    with. The host primitives it calls are parameters here: whether the
    loopback device was found, netlink's address parser, whether the address
    replace succeeded, the TCP connection table, and `exec`, which maps the
    argument vector of a command to its standard output or to failure. */
module Faild {
  import opened Wrappers
  import opened GoStrings
  import opened StrConv

  /** The errors the handlers return. The netlink and exec errors are opaque. */
  datatype Error =
    | LinkNotFound                            // netlink.LinkByName("lo") failed
    | AddrParse                               // netlink.ParseAddr rejected the VIP
    | AddrReplace                             // netlink.AddrReplace failed
    | ExecFailed                              // the command could not run or exited non-zero
    | BadValue(text: string, kind: NumError)  // strconv.ParseInt rejected `text`

  /** The reply of Init, Start and Stop. */
  datatype Status = Status(Code: int, Message: string)

  const StatusOk := Status(0, "Success")

  /** One row of the host's TCP connection table, as far as it is read. */
  datatype Session = Session(State: string, Ip: string)

  /** Runs an argument vector: its standard output, or None when it fails. */
  type Exec = seq<string> -> Option<string>

  /** The key under which GetStatistics records the session count. */
  const EstablishedKey := "established_tcp_sessions"

  /** The statistics message; GetStatistics and ParseFaildStats fill its map in place. */
  class Stats {
    var entries: map<string, int>

    constructor ()
      ensures entries == map[]
    {
      entries := map[];
    }
  }

  // ---------------------------------------------------------------------
  // Commands

  /** fmt.Sprintf("faild <flag> %s", iface) */
  function FaildCommand(flag: string, iface: string): string
  {
    "faild " + flag + " " + iface
  }

  /** The argument vector the agent runs for `faild <flag>` on `iface`. */
  function FaildArgv(flag: string, iface: string): seq<string>
  {
    ["faild", flag] + Fields(iface)
  }

  /** Tokenising the command line gives "faild", the flag, then the
      white-space-separated fields of the interface name. */
  lemma CommandFields(flag: string, iface: string)
    requires flag != [] && NoSpace(flag)
    ensures Fields(FaildCommand(flag, iface)) == FaildArgv(flag, iface)
  {
    var prog := "faild";
    assert prog != [] && NoSpace(prog);
    assert FaildCommand(flag, iface) == prog + " " + flag + " " + iface;
    FieldsTwoWords(prog, flag, iface);
  }

  /** Two words, each followed by a blank, then the rest. */
  lemma FieldsTwoWords(a: string, b: string, rest: string)
    requires a != [] && NoSpace(a) && b != [] && NoSpace(b)
    ensures Fields(a + " " + b + " " + rest) == [a, b] + Fields(rest)
  {
    var tail := " " + rest;
    var x := b + tail;
    assert Fields(x) == [b] + Fields(rest) by {
      FieldsWord(b, tail);
      assert tail[1..] == rest;
    }
    assert Fields(a + (" " + x)) == [a] + Fields(x) by {
      FieldsWord(a, " " + x);
      assert (" " + x)[1..] == x;
    }
    Regroup(a, " ", b, " ", rest);
  }

  lemma Regroup(a: string, b: string, c: string, d: string, e: string)
    ensures a + b + c + d + e == a + (b + (c + (d + e)))
  {
  }

  /** cmdOutput: the command is split into fields, the first naming the
      program and the rest its arguments; a failed run yields an error and
      no output. Go indexes the first field, so the command must not be blank. */
  function CmdOutput(command: string, exec: Exec): (r: Result<string, Error>)
    requires Fields(command) != []
    ensures r.Success? <==> exec(Fields(command)).Some?
    ensures r.Success? ==> r.value == exec(Fields(command)).value
    ensures r.Failure? ==> r.error == ExecFailed
  {
    match exec(Fields(command))
    case Some(out) => Success(out)
    case None => Failure(ExecFailed)
  }

  // ---------------------------------------------------------------------
  // Parsing the daemon's statistics

  /** What one line of `faild -s` output does to the statistics. */
  datatype LineResult = Skip | Entry(key: string, value: int) | Bad(error: Error)

  /** One line: split on ':', skip it when there is no colon, otherwise the
      trimmed first piece is the key and the trimmed second piece must parse
      as a signed 64-bit decimal. */
  function ParseLine(line: string): (r: LineResult)
    ensures r.Entry? ==> MinInt64 <= r.value <= MaxInt64
    ensures r.Bad? ==> r.error.BadValue?
  {
    var kv := Split(line, ':');
    if |kv| < 2 then Skip
    else
      var text := TrimSpace(kv[1]);
      match ParseInt(text)
      case Success(v) => Entry(TrimSpace(kv[0]), v)
      case Failure(kind) => Bad(BadValue(text, kind))
  }

  /** The statistics map after a parse, and the error that stopped it, if any. */
  datatype Parsed = Parsed(stats: map<string, int>, err: Option<Error>)

  /** What each line does, in order. */
  function LineResults(lines: seq<string>): (rs: seq<LineResult>)
    ensures |rs| == |lines|
    decreases |lines|
  {
    if lines == [] then [] else [ParseLine(lines[0])] + LineResults(lines[1..])
  }

  /** The line results applied to `m` in order: entries overwrite, and the
      first bad line stops the parse, keeping what was written before it. */
  function ApplyLines(m: map<string, int>, rs: seq<LineResult>): (r: Parsed)
    ensures m.Keys <= r.stats.Keys
    ensures r.err.Some? ==> Bad(r.err.value) in rs
    decreases |rs|
  {
    if rs == [] then Parsed(m, None)
    else
      match rs[0]
      case Skip => ApplyLines(m, rs[1..])
      case Entry(k, v) => ApplyLines(m[k := v], rs[1..])
      case Bad(e) => Parsed(m, Some(e))
  }

  /** ParseFaildStats on `m` given the outcome of running `faild -s`. */
  function FaildStats(m: map<string, int>, out: Option<string>): (r: Parsed)
    ensures out.None? ==> r == Parsed(m, Some(ExecFailed))
    ensures m.Keys <= r.stats.Keys
    ensures r.err.Some? ==> r.err.value == ExecFailed || r.err.value.BadValue?
  {
    match out
    case None => Parsed(m, Some(ExecFailed))
    case Some(text) =>
      var rs := LineResults(Split(text, '\n'));
      BadValuesOnly(Split(text, '\n'));
      ApplyLines(m, rs)
  }

  /** Every failing line reports the value it could not parse. */
  lemma {:induction false} BadValuesOnly(lines: seq<string>)
    ensures forall r | r in LineResults(lines) :: r.Bad? ==> r.error.BadValue?
    decreases |lines|
  {
    if lines != [] {
      BadValuesOnly(lines[1..]);
    }
  }

  /** The keys that the entries among `rs` write. */
  function EntryKeys(rs: seq<LineResult>): set<string>
  {
    set i | 0 <= i < |rs| && rs[i].Entry? :: rs[i].key
  }

  // ---------------------------------------------------------------------
  // Counting sessions

  /** A session counts when it is established and its address occurs in the
      VIP string (strings.Contains: a substring test, not equality). */
  predicate Counts(session: Session, vip: string)
    ensures Counts(session, vip) ==> session.State == "ESTABLISHED" && |session.Ip| <= |vip|
    ensures session.State == "ESTABLISHED" && session.Ip == vip ==> Counts(session, vip)
  {
    session.State == "ESTABLISHED" && Contains(vip, session.Ip)
  }

  /** The number of sessions that count, taken over the table in order. */
  function EstablishedCount(sessions: seq<Session>, vip: string): (n: nat)
    ensures n <= |sessions|
    decreases |sessions|
  {
    if sessions == [] then 0
    else
      EstablishedCount(sessions[..|sessions| - 1], vip)
        + (if Counts(sessions[|sessions| - 1], vip) then 1 else 0)
  }

  const MinInt32: int := -0x8000_0000
  const MaxInt32: int := 0x7FFF_FFFF

  /** `x++` on a Go int32: past the largest value it wraps to the smallest. */
  function Inc32(x: int): (r: int)
    requires MinInt32 <= x <= MaxInt32
    ensures MinInt32 <= r <= MaxInt32
    ensures (r - x - 1) % 0x1_0000_0000 == 0
  {
    if x == MaxInt32 then MinInt32 else x + 1
  }

  /** The int32 counter of GetStatistics after the table has been scanned. */
  function Counter32(sessions: seq<Session>, vip: string): (c: int)
    ensures MinInt32 <= c <= MaxInt32
    decreases |sessions|
  {
    if sessions == [] then 0
    else
      var before := Counter32(sessions[..|sessions| - 1], vip);
      if Counts(sessions[|sessions| - 1], vip) then Inc32(before) else before
  }

  // ---------------------------------------------------------------------
  // The server

  class Server {
    var Iface: string
    var VIP: string

    /** faild.Server{Iface: iface}: no VIP until Init succeeds. */
    constructor (iface: string)
      ensures Iface == iface && VIP == ""
    {
      Iface := iface;
      VIP := "";
    }

    /** Init: find the loopback device, parse the VIP, assign it; the first
        step that fails decides the status, and only full success records
        the VIP. */
    method Init(vip: string, loopbackFound: bool, parseAddr: string -> bool, replaced: bool)
      returns (status: Status, err: Option<Error>)
      modifies this`VIP
      ensures !loopbackFound ==>
        status == Status(5, "unable to find loopback device") && err == Some(LinkNotFound)
      ensures loopbackFound && !parseAddr(vip) ==>
        status == Status(3, "unable to parse VIP address") && err == Some(AddrParse)
      ensures loopbackFound && parseAddr(vip) && !replaced ==>
        status == Status(3, "unable to assign VIP address") && err == Some(AddrReplace)
      ensures loopbackFound && parseAddr(vip) && replaced ==> status == StatusOk && err == None
      ensures err.None? <==> status.Code == 0
      ensures VIP == (if loopbackFound && parseAddr(vip) && replaced then vip else old(VIP))
      ensures Iface == old(Iface)
    {
      status := StatusOk;
      if !loopbackFound {
        status := status.(Code := 5, Message := "unable to find loopback device");
        return status, Some(LinkNotFound);
      }
      if !parseAddr(vip) {
        status := status.(Code := 3, Message := "unable to parse VIP address");
        return status, Some(AddrParse);
      }
      if !replaced {
        status := status.(Code := 3, Message := "unable to assign VIP address");
        return status, Some(AddrReplace);
      }
      VIP := vip;
      err := None;
    }

    /** Start: run `faild -p <Iface>`; a failed run gives code 5. */
    method Start(exec: Exec) returns (status: Status, err: Option<Error>)
      ensures exec(FaildArgv("-p", Iface)).Some? ==> status == StatusOk && err == None
      ensures exec(FaildArgv("-p", Iface)).None? ==>
        status == Status(5, "unable to start faild") && err == Some(ExecFailed)
    {
      status := StatusOk;
      CommandFields("-p", Iface);
      var out := CmdOutput(FaildCommand("-p", Iface), exec);
      if out.Failure? {
        status := status.(Code := 5, Message := "unable to start faild");
        return status, Some(out.error);
      }
      err := None;
    }

    /** Stop: run `faild -u <Iface>`; a failed run gives code 5. */
    method Stop(exec: Exec) returns (status: Status, err: Option<Error>)
      ensures exec(FaildArgv("-u", Iface)).Some? ==> status == StatusOk && err == None
      ensures exec(FaildArgv("-u", Iface)).None? ==>
        status == Status(5, "unable to stop faild") && err == Some(ExecFailed)
    {
      status := StatusOk;
      CommandFields("-u", Iface);
      var out := CmdOutput(FaildCommand("-u", Iface), exec);
      if out.Failure? {
        status := status.(Code := 5, Message := "unable to stop faild");
        return status, Some(out.error);
      }
      err := None;
    }

    /** GetStatistics: count the established sessions on the VIP into an
        int32, record it, then add what the daemon reports; a parse failure
        is only logged, so the call never fails. */
    method GetStatistics(sessions: seq<Session>, exec: Exec) returns (stats: Stats, err: Option<Error>)
      ensures fresh(stats)
      ensures err == None
      ensures stats.entries ==
        FaildStats(map[EstablishedKey := Counter32(sessions, VIP)],
                   exec(FaildArgv("-s", Iface))).stats
    {
      var estSessions := 0;
      stats := new Stats();
      var i := 0;
      while i < |sessions|
        invariant 0 <= i <= |sessions|
        invariant estSessions == Counter32(sessions[..i], VIP)
      {
        assert sessions[..i + 1][..i] == sessions[..i];
        if sessions[i].State == "ESTABLISHED" && Contains(VIP, sessions[i].Ip) {
          estSessions := Inc32(estSessions);
        }
        i := i + 1;
      }
      assert sessions[..i] == sessions;
      stats.entries := stats.entries[EstablishedKey := estSessions];
      var _ := ParseFaildStats(stats, exec);
      err := None;
    }

    /** ParseFaildStats: run `faild -s <Iface>` and add its `key: value`
        lines to `stats` in order, stopping at the first bad value. */
    method ParseFaildStats(stats: Stats, exec: Exec) returns (err: Option<Error>)
      modifies stats
      ensures Parsed(stats.entries, err) == FaildStats(old(stats.entries), exec(FaildArgv("-s", Iface)))
    {
      CommandFields("-s", Iface);
      var out := CmdOutput(FaildCommand("-s", Iface), exec);
      if out.Failure? {
        return Some(out.error);
      }
      var lines := Split(out.value, '\n');
      ghost var rs := LineResults(lines);
      var i := 0;
      while i < |lines|
        invariant 0 <= i <= |lines|
        invariant ApplyLines(stats.entries, rs[i..]) == ApplyLines(old(stats.entries), rs)
      {
        LineResultsAppend(lines[..i], lines[i..]);
        assert lines[..i] + lines[i..] == lines;
        assert rs[i..] == LineResults(lines[i..]);
        assert rs[i..][0] == ParseLine(lines[i]) && rs[i..][1..] == rs[i + 1..];
        var kv := Split(lines[i], ':');
        if |kv| < 2 {
          i := i + 1;
          continue;
        }
        var key := TrimSpace(kv[0]);
        var text := TrimSpace(kv[1]);
        var val := ParseInt(text);
        if val.Failure? {
          return Some(BadValue(text, val.error));
        }
        stats.entries := stats.entries[key := val.value];
        i := i + 1;
      }
      err := None;
    }
  }

  // ---------------------------------------------------------------------
  // Properties

  /** Below 2^31 counted sessions the int32 counter is exact, and it is
      never negative. */
  lemma {:induction false} Counter32Exact(sessions: seq<Session>, vip: string)
    requires EstablishedCount(sessions, vip) <= MaxInt32
    ensures Counter32(sessions, vip) == EstablishedCount(sessions, vip)
    decreases |sessions|
  {
    if sessions != [] {
      Counter32Exact(sessions[..|sessions| - 1], vip);
    }
  }

  /** Whatever the number of sessions, the int32 counter agrees with the
      true count modulo 2^32: it wraps and never saturates. */
  lemma {:induction false} Counter32Wraps(sessions: seq<Session>, vip: string)
    ensures (Counter32(sessions, vip) - EstablishedCount(sessions, vip)) % 0x1_0000_0000 == 0
    decreases |sessions|
  {
    if sessions != [] {
      var init := sessions[..|sessions| - 1];
      Counter32Wraps(init, vip);
      var c, n := Counter32(init, vip), EstablishedCount(init, vip);
      if Counts(sessions[|sessions| - 1], vip) {
        MultipleSum(Inc32(c) - c - 1, c - n);
      }
    }
  }

  lemma MultipleSum(a: int, b: int)
    requires a % 0x1_0000_0000 == 0 && b % 0x1_0000_0000 == 0
    ensures (a + b) % 0x1_0000_0000 == 0
  {
    assert a == 0x1_0000_0000 * (a / 0x1_0000_0000);
    assert b == 0x1_0000_0000 * (b / 0x1_0000_0000);
  }

  /** The session count GetStatistics records: at most the number of
      sessions, and it stays in the statistics unless a line of the daemon's
      output writes the same key. */
  lemma StatisticsSessionCount(sessions: seq<Session>, vip: string, out: Option<string>)
    requires |sessions| <= MaxInt32
    ensures var r := FaildStats(map[EstablishedKey := Counter32(sessions, vip)], out);
      EstablishedKey in r.stats
      && ((out.None? || EstablishedKey !in EntryKeys(LineResults(Split(out.value, '\n')))) ==>
            r.stats[EstablishedKey] == EstablishedCount(sessions, vip) <= |sessions|)
  {
    Counter32Exact(sessions, vip);
    FaildStatsKeeps(map[EstablishedKey := Counter32(sessions, vip)], out);
  }

  // ----- parsing one line

  /** A line is skipped exactly when it has no colon; otherwise the key is
      the trimmed text before the first colon and the value the trimmed
      text between the first and the second colon. */
  lemma ParseLineSpec(line: string)
    ensures ParseLine(line).Skip? <==> ':' !in line
    ensures ':' in line ==>
      var i := IndexOf(line, ':');
      var after := line[i + 1..];
      var text := TrimSpace(after[..IndexOf(after, ':')]);
      ParseLine(line) == (match ParseInt(text)
                          case Success(v) => Entry(TrimSpace(line[..i]), v)
                          case Failure(kind) => Bad(BadValue(text, kind)))
  {
    SplitCount(line, ':');
    SplitAtFirst(line, ':');
    if ':' in line {
      var i := IndexOf(line, ':');
      SplitAtFirst(line[i + 1..], ':');
    }
  }

  /** `key: value` as the daemon prints it. */
  function RenderLine(key: string, value: int): string
  {
    key + ": " + FormatInt(value)
  }

  /** A key the daemon can print so that it reads back unchanged. */
  predicate PrintableKey(key: string)
  {
    ':' !in key && '\n' !in key && TrimSpace(key) == key
  }

  /** Splitting a printed line on ':' gives the key and the rest. */
  lemma SplitRendered(key: string, f: string)
    requires ':' !in key && ':' !in f
    ensures Split(key + ": " + f, ':') == [key, " " + f]
  {
    assert ':' !in " " + f by {
      forall k | 0 <= k < |" " + f| ensures (" " + f)[k] != ':' {
        if k > 0 { assert (" " + f)[k] == f[k - 1]; }
      }
    }
    assert Join([key, " " + f], ':') == key + ": " + f;
    JoinSplit([key, " " + f], ':');
  }

  lemma TrimLeadingBlank(f: string)
    requires f != [] && !IsSpace(f[0]) && !IsSpace(f[|f| - 1])
    ensures TrimSpace(" " + f) == f
  {
    TrimPadded(" ", f, "");
    assert " " + f + "" == " " + f;
  }

  /** The pieces of a printed line: the key, then a blank and the value. */
  lemma RenderedPieces(key: string, value: int)
    requires ':' !in key
    requires MinInt64 <= value <= MaxInt64
    ensures Split(RenderLine(key, value), ':') == [key, " " + FormatInt(value)]
    ensures TrimSpace(" " + FormatInt(value)) == FormatInt(value)
    ensures ParseInt(FormatInt(value)) == Success(value)
  {
    var f := FormatInt(value);
    FormatIntChars(value);
    assert Split(RenderLine(key, value), ':') == [key, " " + f] by {
      forall k | 0 <= k < |f| ensures f[k] != ':' {
        assert f[k] == '-' || IsDigit(f[k]);
      }
      SplitRendered(key, f);
    }
    assert TrimSpace(" " + f) == f by {
      assert f[0] == '-' || IsDigit(f[0]);
      TrimLeadingBlank(f);
    }
    ParseFormat(value);
  }

  /** A printed line parses back to the entry it was printed from. */
  lemma ParseLineRender(key: string, value: int)
    requires PrintableKey(key)
    requires MinInt64 <= value <= MaxInt64
    ensures ParseLine(RenderLine(key, value)) == Entry(key, value)
  {
    RenderedPieces(key, value);
    ParseLineEntry(RenderLine(key, value), key, " " + FormatInt(value), value);
  }

  lemma ParseLineEntry(line: string, key: string, text: string, v: int)
    requires Split(line, ':') == [key, text] && TrimSpace(key) == key
    requires ParseInt(TrimSpace(text)) == Success(v)
    ensures ParseLine(line) == Entry(key, v)
  {
  }

  // ----- applying a sequence of line results

  /** Applying `a + b` applies `a`, then (unless `a` failed) `b` from there. */
  lemma {:induction false} ApplyLinesAppend(m: map<string, int>, a: seq<LineResult>, b: seq<LineResult>)
    ensures ApplyLines(m, a + b) ==
      (var ra := ApplyLines(m, a); if ra.err.Some? then ra else ApplyLines(ra.stats, b))
    decreases |a|
  {
    if a == [] {
      assert a + b == b;
    } else {
      assert (a + b)[0] == a[0] && (a + b)[1..] == a[1..] + b;
      match a[0] {
        case Skip => ApplyLinesAppend(m, a[1..], b);
        case Entry(k, v) => ApplyLinesAppend(m[k := v], a[1..], b);
        case Bad(e) =>
      }
    }
  }

  lemma EntryKeysCons(rs: seq<LineResult>)
    requires rs != []
    ensures EntryKeys(rs) == (if rs[0].Entry? then {rs[0].key} else {}) + EntryKeys(rs[1..])
  {
    forall k | k in EntryKeys(rs)
      ensures k in (if rs[0].Entry? then {rs[0].key} else {}) + EntryKeys(rs[1..])
    {
      var i :| 0 <= i < |rs| && rs[i].Entry? && rs[i].key == k;
      if i > 0 {
        assert rs[1..][i - 1] == rs[i];
      }
    }
    forall k | k in EntryKeys(rs[1..]) ensures k in EntryKeys(rs) {
      var i :| 0 <= i < |rs[1..]| && rs[1..][i].Entry? && rs[1..][i].key == k;
      assert rs[1..][i] == rs[i + 1];
    }
  }

  /** Parsing never removes a key, adds only keys that some line writes,
      and leaves the value of every key that no line writes. */
  lemma {:induction false} ApplyLinesKeys(m: map<string, int>, rs: seq<LineResult>)
    ensures m.Keys <= ApplyLines(m, rs).stats.Keys <= m.Keys + EntryKeys(rs)
    ensures forall k :: k in m && k !in EntryKeys(rs) ==> ApplyLines(m, rs).stats[k] == m[k]
    decreases |rs|
  {
    if rs != [] {
      EntryKeysCons(rs);
      match rs[0] {
        case Skip => ApplyLinesKeys(m, rs[1..]);
        case Entry(k, v) => ApplyLinesKeys(m[k := v], rs[1..]);
        case Bad(e) =>
      }
    }
  }

  lemma {:induction false} NoBadNoError(m: map<string, int>, rs: seq<LineResult>)
    requires forall i :: 0 <= i < |rs| ==> !rs[i].Bad?
    ensures ApplyLines(m, rs).err == None
    decreases |rs|
  {
    if rs != [] {
      assert !rs[0].Bad?;
      match rs[0] {
        case Skip => NoBadNoError(m, rs[1..]);
        case Entry(k, v) => NoBadNoError(m[k := v], rs[1..]);
      }
    }
  }

  /** The first bad line decides the error; what the lines before it wrote
      stays, and no later line is processed. */
  lemma ApplyLinesFirstError(m: map<string, int>, rs: seq<LineResult>, j: nat)
    requires j < |rs| && rs[j].Bad?
    requires forall i :: 0 <= i < j ==> !rs[i].Bad?
    ensures ApplyLines(m, rs[..j]).err == None
    ensures ApplyLines(m, rs) == Parsed(ApplyLines(m, rs[..j]).stats, Some(rs[j].error))
  {
    NoBadNoError(m, rs[..j]);
    ApplyLinesAppend(m, rs[..j], rs[j..]);
    assert rs[..j] + rs[j..] == rs;
    assert rs[j..][0] == rs[j];
  }

  /** Without a bad line the parse succeeds, and for each key the last line
      that writes it decides its value. */
  lemma ApplyLinesLastWins(m: map<string, int>, rs: seq<LineResult>, j: nat)
    requires forall i :: 0 <= i < |rs| ==> !rs[i].Bad?
    requires j < |rs| && rs[j].Entry?
    requires forall i :: j < i < |rs| && rs[i].Entry? ==> rs[i].key != rs[j].key
    ensures ApplyLines(m, rs).err == None
    ensures rs[j].key in ApplyLines(m, rs).stats
    ensures ApplyLines(m, rs).stats[rs[j].key] == rs[j].value
  {
    var k, v := rs[j].key, rs[j].value;
    var pre, post := rs[..j], rs[j + 1..];
    NoBadNoError(m, rs);
    NoBadNoError(m, pre);
    var mid := ApplyLines(m, pre).stats;
    ApplyLinesAppend(m, pre, [rs[j]]);
    assert ApplyLines(m, pre + [rs[j]]) == Parsed(mid[k := v], None);
    ApplyLinesAppend(m, pre + [rs[j]], post);
    assert pre + [rs[j]] + post == rs;
    forall i | 0 <= i < |post| ensures post[i] == rs[j + 1 + i] {}
    assert k !in EntryKeys(post);
    ApplyLinesKeys(mid[k := v], post);
  }

  // ----- the whole output

  /** The statistics after applying `pairs` in order (later pairs win). */
  function Apply(m: map<string, int>, pairs: seq<(string, int)>): map<string, int>
    decreases |pairs|
  {
    if pairs == [] then m else Apply(m[pairs[0].0 := pairs[0].1], pairs[1..])
  }

  function RenderLines(pairs: seq<(string, int)>): (lines: seq<string>)
    ensures |lines| == |pairs|
    decreases |pairs|
  {
    if pairs == [] then [] else [RenderLine(pairs[0].0, pairs[0].1)] + RenderLines(pairs[1..])
  }

  predicate Printable(pairs: seq<(string, int)>)
  {
    forall i :: 0 <= i < |pairs| ==> PrintableKey(pairs[i].0) && MinInt64 <= pairs[i].1 <= MaxInt64
  }

  /** The entries that printed pairs should parse to. */
  function Entries(pairs: seq<(string, int)>): (rs: seq<LineResult>)
    ensures |rs| == |pairs|
    decreases |pairs|
  {
    if pairs == [] then [] else [Entry(pairs[0].0, pairs[0].1)] + Entries(pairs[1..])
  }

  /** Each printed line parses to its own entry. */
  lemma {:induction false} RenderedResults(pairs: seq<(string, int)>)
    requires Printable(pairs)
    ensures LineResults(RenderLines(pairs)) == Entries(pairs)
    decreases |pairs|
  {
    if pairs != [] {
      var line := RenderLine(pairs[0].0, pairs[0].1);
      var tail := RenderLines(pairs[1..]);
      assert RenderLines(pairs) == [line] + tail;
      assert ([line] + tail)[0] == line && ([line] + tail)[1..] == tail;
      ParseLineRender(pairs[0].0, pairs[0].1);
      assert Printable(pairs[1..]) by {
        forall i | 0 <= i < |pairs[1..]| ensures PrintableKey(pairs[1..][i].0) && MinInt64 <= pairs[1..][i].1 <= MaxInt64 {
          assert pairs[1..][i] == pairs[i + 1];
        }
      }
      RenderedResults(pairs[1..]);
    }
  }

  /** Applying a run of entries stores them in order, last one winning. */
  lemma {:induction false} ApplyEntries(m: map<string, int>, pairs: seq<(string, int)>)
    ensures ApplyLines(m, Entries(pairs)) == Parsed(Apply(m, pairs), None)
    decreases |pairs|
  {
    if pairs != [] {
      var rs := Entries(pairs);
      assert rs[0] == Entry(pairs[0].0, pairs[0].1) && rs[1..] == Entries(pairs[1..]);
      ApplyEntries(m[pairs[0].0 := pairs[0].1], pairs[1..]);
    }
  }

  lemma ParseRenderedLines(m: map<string, int>, pairs: seq<(string, int)>)
    requires Printable(pairs)
    ensures ApplyLines(m, LineResults(RenderLines(pairs))) == Parsed(Apply(m, pairs), None)
  {
    RenderedResults(pairs);
    ApplyEntries(m, pairs);
  }

  lemma {:induction false} RenderLinesAt(pairs: seq<(string, int)>, i: nat)
    requires i < |pairs|
    ensures RenderLines(pairs)[i] == RenderLine(pairs[i].0, pairs[i].1)
    decreases i
  {
    if i > 0 {
      RenderLinesAt(pairs[1..], i - 1);
    }
  }

  lemma RenderLineOneLine(key: string, value: int)
    requires '\n' !in key
    ensures '\n' !in RenderLine(key, value)
  {
    var line, f := RenderLine(key, value), FormatInt(value);
    FormatIntChars(value);
    forall c | 0 <= c < |line| ensures line[c] != '\n' {
      if c >= |key| + 2 {
        assert line[c] == f[c - |key| - 2];
      }
    }
  }

  lemma RenderedLinesOneLine(pairs: seq<(string, int)>)
    requires Printable(pairs)
    ensures forall i :: 0 <= i < |pairs| ==> '\n' !in RenderLines(pairs)[i]
  {
    forall i | 0 <= i < |pairs| ensures '\n' !in RenderLines(pairs)[i] {
      RenderLinesAt(pairs, i);
      RenderLineOneLine(pairs[i].0, pairs[i].1);
    }
  }

  /** Output made of newline-free lines is parsed line by line. */
  lemma ParseOutputLines(m: map<string, int>, lines: seq<string>)
    requires lines != []
    requires forall i :: 0 <= i < |lines| ==> '\n' !in lines[i]
    ensures FaildStats(m, Some(Join(lines, '\n'))) == ApplyLines(m, LineResults(lines))
  {
    JoinSplit(lines, '\n');
  }

  /** Printed `key: value` lines followed by further lines: the printed
      entries are stored in order, then the further lines are parsed. */
  lemma ParseOutputAfterEntries(m: map<string, int>, pairs: seq<(string, int)>, tail: seq<string>)
    requires Printable(pairs)
    requires tail != []
    requires forall i :: 0 <= i < |tail| ==> '\n' !in tail[i]
    ensures FaildStats(m, Some(Join(RenderLines(pairs) + tail, '\n')))
         == ApplyLines(Apply(m, pairs), LineResults(tail))
  {
    var printed := RenderLines(pairs);
    assert forall i :: 0 <= i < |printed + tail| ==> '\n' !in (printed + tail)[i] by {
      RenderedLinesOneLine(pairs);
      NoNewlineAppend(printed, tail);
    }
    ParseOutputLines(m, printed + tail);
    assert LineResults(printed + tail) == Entries(pairs) + LineResults(tail) by {
      LineResultsAppend(printed, tail);
      RenderedResults(pairs);
    }
    ApplyEntries(m, pairs);
    ApplyLinesAppend(m, Entries(pairs), LineResults(tail));
  }

  /** Output printed as `key: value` lines, each ended by a newline, parses
      back to exactly those entries, applied in order and without error. */
  lemma ParseRenderedOutput(m: map<string, int>, pairs: seq<(string, int)>)
    requires Printable(pairs)
    ensures FaildStats(m, Some(Join(RenderLines(pairs) + [""], '\n'))) == Parsed(Apply(m, pairs), None)
  {
    ParseOutputAfterEntries(m, pairs, [""]);
    ParseLineSpec("");
    assert LineResults([""]) == [Skip];
  }

  /** When `faild -s` fails the map is untouched; otherwise every key keeps
      its value unless some output line writes it. */
  lemma FaildStatsKeeps(m: map<string, int>, out: Option<string>)
    ensures out.None? ==> FaildStats(m, out) == Parsed(m, Some(ExecFailed))
    ensures m.Keys <= FaildStats(m, out).stats.Keys
    ensures forall k :: k in m && (out.None? || k !in EntryKeys(LineResults(Split(out.value, '\n')))) ==>
      FaildStats(m, out).stats[k] == m[k]
  {
    if out.Some? {
      ApplyLinesKeys(m, LineResults(Split(out.value, '\n')));
    }
  }

  /** A line `key:text` with no further colon: the trimmed text decides
      between an entry under the trimmed key and a bad value. */
  lemma ParseLinePieces(key: string, text: string)
    requires ':' !in key && ':' !in text
    ensures ParseLine(key + ":" + text) ==
      match ParseInt(TrimSpace(text))
      case Success(v) => Entry(TrimSpace(key), v)
      case Failure(kind) => Bad(BadValue(TrimSpace(text), kind))
  {
    assert Join([key, text], ':') == key + ":" + text;
    JoinSplit([key, text], ':');
  }

  lemma NoNewlineAppend(a: seq<string>, b: seq<string>)
    requires forall i :: 0 <= i < |a| ==> '\n' !in a[i]
    requires forall i :: 0 <= i < |b| ==> '\n' !in b[i]
    ensures forall i :: 0 <= i < |a + b| ==> '\n' !in (a + b)[i]
  {
    forall i | 0 <= i < |a + b| ensures '\n' !in (a + b)[i] {
      if i >= |a| { assert (a + b)[i] == b[i - |a|]; }
    }
  }

  lemma {:induction false} LineResultsAppend(a: seq<string>, b: seq<string>)
    ensures LineResults(a + b) == LineResults(a) + LineResults(b)
    decreases |a|
  {
    if a == [] {
      assert a + b == b;
    } else {
      assert (a + b)[0] == a[0] && (a + b)[1..] == a[1..] + b;
      LineResultsAppend(a[1..], b);
    }
  }

  /** A line without a colon among the printed lines changes nothing:
      "a: 1\nb: 2\nmalformed\n" gives a = 1, b = 2 and no error. */
  lemma ParseOutputSkipsNoise(m: map<string, int>, before: seq<(string, int)>, noise: string,
                               after: seq<(string, int)>)
    requires Printable(before) && Printable(after)
    requires ':' !in noise && '\n' !in noise
    ensures FaildStats(m, Some(Join(RenderLines(before) + [noise] + RenderLines(after) + [""], '\n')))
         == Parsed(Apply(Apply(m, before), after), None)
  {
    var tail := [noise] + RenderLines(after) + [""];
    Associate(RenderLines(before), [noise], RenderLines(after), [""]);
    NoiseTail(noise, after);
    ParseOutputAfterEntries(m, before, tail);
    SkipAround(Apply(m, before), after);
  }

  lemma Associate<T>(a: seq<T>, b: seq<T>, c: seq<T>, d: seq<T>)
    ensures a + b + c + d == a + (b + c + d)
  {
  }

  lemma NoiseTail(noise: string, after: seq<(string, int)>)
    requires Printable(after)
    requires ':' !in noise && '\n' !in noise
    ensures var tail := [noise] + RenderLines(after) + [""];
      (forall i :: 0 <= i < |tail| ==> '\n' !in tail[i]) &&
      LineResults(tail) == [Skip] + Entries(after) + [Skip]
  {
    var later := RenderLines(after);
    RenderedLinesOneLine(after);
    NoNewlineAppend([noise], later);
    NoNewlineAppend([noise] + later, [""]);
    LineResultsAppend([noise] + later, [""]);
    LineResultsAppend([noise], later);
    RenderedResults(after);
    ParseLineSpec(noise);
    ParseLineSpec("");
    assert LineResults([noise]) == [Skip] && LineResults([""]) == [Skip];
  }

  lemma SkipAround(x: map<string, int>, after: seq<(string, int)>)
    ensures ApplyLines(x, [Skip] + Entries(after) + [Skip]) == Parsed(Apply(x, after), None)
  {
    var y := Apply(x, after);
    ApplyLinesAppend(x, [Skip] + Entries(after), [Skip]);
    ApplyLinesAppend(x, [Skip], Entries(after));
    ApplyEntries(x, after);
    assert ApplyLines(x, [Skip]) == Parsed(x, None);
    assert ApplyLines(y, [Skip]) == Parsed(y, None);
  }

  lemma ColonLineOneLine(key: string, text: string)
    requires '\n' !in key && '\n' !in text
    ensures '\n' !in key + ":" + text
  {
    var line := key + ":" + text;
    forall c | 0 <= c < |line| ensures line[c] != '\n' {
      if c > |key| { assert line[c] == text[c - |key| - 1]; }
    }
  }

  /** A value that does not parse stops the parse with its error, keeping
      the entries printed before it and ignoring every later line:
      "a: 1\nb: notanumber\n" gives a = 1 and an error. */
  lemma ParseOutputStopsAtBadValue(m: map<string, int>, pairs: seq<(string, int)>,
                                   key: string, text: string, rest: seq<string>)
    requires Printable(pairs)
    requires ':' !in key && ':' !in text && '\n' !in key && '\n' !in text
    requires forall i :: 0 <= i < |rest| ==> '\n' !in rest[i]
    requires ParseInt(TrimSpace(text)).Failure?
    ensures FaildStats(m, Some(Join(RenderLines(pairs) + ([key + ":" + text] + rest), '\n')))
         == Parsed(Apply(m, pairs), Some(BadValue(TrimSpace(text), ParseInt(TrimSpace(text)).error)))
  {
    ColonLineOneLine(key, text);
    ParseLinePieces(key, text);
    ParseOutputStopsAt(m, pairs, key + ":" + text, rest);
  }

  /** A bad line after the printed entries ends the parse with its error. */
  lemma ParseOutputStopsAt(m: map<string, int>, pairs: seq<(string, int)>, line: string, rest: seq<string>)
    requires Printable(pairs)
    requires ParseLine(line).Bad? && '\n' !in line
    requires forall i :: 0 <= i < |rest| ==> '\n' !in rest[i]
    ensures FaildStats(m, Some(Join(RenderLines(pairs) + ([line] + rest), '\n')))
         == Parsed(Apply(m, pairs), Some(ParseLine(line).error))
  {
    NoNewlineAppend([line], rest);
    ParseOutputAfterEntries(m, pairs, [line] + rest);
    assert ([line] + rest)[0] == line;
  }

  // ----- counting sessions

  /** The indices of the sessions that count. */
  function Matching(sessions: seq<Session>, vip: string): set<int>
  {
    set i | 0 <= i < |sessions| && Counts(sessions[i], vip)
  }

  /** The count is the number of sessions that count. */
  lemma {:induction false} CountMatching(sessions: seq<Session>, vip: string)
    ensures EstablishedCount(sessions, vip) == |Matching(sessions, vip)|
    decreases |sessions|
  {
    if sessions != [] {
      var n := |sessions| - 1;
      var pre := sessions[..n];
      CountMatching(pre, vip);
      forall i | 0 <= i < n ensures pre[i] == sessions[i] {}
      assert Matching(sessions, vip) == Matching(pre, vip) + (if Counts(sessions[n], vip) then {n} else {});
      assert n !in Matching(pre, vip);
    }
  }

  /** The address part of a VIP written with a prefix length counts. */
  lemma VipAddressCounts(ip: string, suffix: string)
    ensures Counts(Session("ESTABLISHED", ip), ip + suffix)
  {
    assert (ip + suffix)[0..|ip|] == ip;
    ContainsComplete(ip + suffix, ip, 0);
  }

  /** The substring test also counts other addresses: 10.0.0.1 for the VIP
      10.0.0.10/32, and an empty address for any VIP. */
  lemma SubstringCountsOthers()
    ensures Counts(Session("ESTABLISHED", "10.0.0.1"), "10.0.0.10/32")
    ensures Counts(Session("ESTABLISHED", ""), "10.0.0.10/32")
    ensures !Counts(Session("TIME_WAIT", "10.0.0.10"), "10.0.0.10/32")
    ensures forall vip :: Counts(Session("ESTABLISHED", ""), vip)
  {
    VipAddressCounts("10.0.0.1", "0/32");
    assert "10.0.0.1" + "0/32" == "10.0.0.10/32";
  }
}
