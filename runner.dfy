/** Run bookkeeping of `remote_runner.py`: the report-file name sanitiser of
    `save_report`, what `run_on_target` returns, the ok/failed classification
    and the `results` list built by `main`, the run-directory name, and the
    text of `_index.md` written by `write_index`.

    `isAlnum` stands for Python's Unicode `str.isalnum`; `decode` for
    `bytes.decode("utf-8", errors="replace")`.  File paths are kept as a
    directory name and a file name; nothing is written. */
module Runner {
  import opened Text
  import Relay
  import Config

  // ---------------------------------------------------------------------------
  // `save_report`'s sanitiser

  /** The characters a report file name keeps: `c.isalnum() or c in "-_."`. */
  predicate SafeChar(c: char, isAlnum: char -> bool)
  {
    isAlnum(c) || c == '-' || c == '_' || c == '.'
  }

  /** Every character that is not safe becomes `_`. */
  function Sanitise(name: string, isAlnum: char -> bool): (r: string)
    ensures |r| == |name|
    ensures forall i :: 0 <= i < |r| ==> SafeChar(r[i], isAlnum)
    ensures forall i :: 0 <= i < |r| && SafeChar(name[i], isAlnum) ==> r[i] == name[i]
    ensures forall i :: 0 <= i < |r| && !SafeChar(name[i], isAlnum) ==> r[i] == '_'
  {
    seq(|name|, i requires 0 <= i < |name| => if SafeChar(name[i], isAlnum) then name[i] else '_')
  }

  /** Sanitising a sanitised name changes nothing. */
  lemma SanitiseIdempotent(name: string, isAlnum: char -> bool)
    ensures Sanitise(Sanitise(name, isAlnum), isAlnum) == Sanitise(name, isAlnum)
  {
  }

  /** A name made only of safe characters is its own file name. */
  lemma SanitiseKeepsSafeNames(name: string, isAlnum: char -> bool)
    requires forall i :: 0 <= i < |name| ==> SafeChar(name[i], isAlnum)
    ensures Sanitise(name, isAlnum) == name
  {
  }

  /** `"my server #1"` becomes `"my_server__1"`. */
  lemma SanitiseExample(isAlnum: char -> bool)
    requires isAlnum('m') && isAlnum('y') && isAlnum('s') && isAlnum('e') && isAlnum('r')
    requires isAlnum('v') && isAlnum('1')
    requires !isAlnum(' ') && !isAlnum('#')
    ensures Sanitise("my server #1", isAlnum) == "my_server__1"
  {
  }

  // ---------------------------------------------------------------------------
  // What `run_on_target` returns

  /** How the SSH session ended; the network side is not modelled. */
  datatype Attempt =
    | ConnectError(reason: string)   // `client.connect` raised
    | NoTransport                    // `get_transport()` returned `None`
    | ExecError(reason: string)      // an exception while executing
    | Completed(chunks: seq<Relay.Bytes>, drain: seq<Relay.Bytes>, exitCode: int, stderr: Relay.Bytes)

  const ConnectErrorPrefix: string := "  ❌ Connection failed: "
  const NoTransportText: string := "  ❌ Transport not available"
  const ExecErrorPrefix: string := "  ❌ Execution error: "

  /** The message `run_on_target` returns when an attempt did not complete. */
  function ErrorText(a: Attempt): (r: string)
    requires !a.Completed?
    ensures StartsWith(r, "  ❌")
  {
    match a
    case ConnectError(e) =>
      assert (ConnectErrorPrefix + e)[..3] == ConnectErrorPrefix[..3];
      ConnectErrorPrefix + e
    case NoTransport => NoTransportText
    case ExecError(e) =>
      assert (ExecErrorPrefix + e)[..3] == ExecErrorPrefix[..3];
      ExecErrorPrefix + e
  }

  /** The text `run_on_target` returns for an attempt: an error message, or
      the relayed output lines joined with newlines. */
  function ReportText(a: Attempt, decode: Relay.Bytes -> string): (r: string)
    ensures !a.Completed? ==> StartsWith(r, "  ❌")
  {
    if a.Completed? then Join(Relay.OutputLines(a.chunks, a.drain, a.exitCode, a.stderr, decode), "\n")
    else ErrorText(a)
  }

  // ---------------------------------------------------------------------------
  // Classification

  const FailMark: string := "❌"
  const ConnectionFailed: string := "Connection failed"

  /** `report_text.strip().startswith("❌") or "Connection failed" in report_text`. */
  predicate IsFailed(text: string)
  {
    StartsWith(Strip(text), FailMark) || IsSubstring(ConnectionFailed, text)
  }

  /** The status recorded for a target. */
  function Status(text: string): (s: string)
    ensures s == "ok" || s == "failed"
    ensures s == "failed" <==> IsFailed(text)
  {
    if IsFailed(text) then "failed" else "ok"
  }

  /** The first character of a stripped string is the first non-whitespace
      character of the original. */
  lemma StripFirst(s: string, k: nat)
    requires k < |s| && !IsSpace(s[k])
    requires forall j :: 0 <= j < k ==> IsSpace(s[j])
    ensures Strip(s) != [] && Strip(s)[0] == s[k]
  {
    StripByFirst(s, IsSpace, k);
  }

  /** `s[k]` is the first character of `s` that is not whitespace. */
  predicate FirstNonSpaceAt(s: string, k: int)
  {
    0 <= k < |s| && !IsSpace(s[k]) && forall j :: 0 <= j < k ==> IsSpace(s[j])
  }

  /** The marker test is "the first non-whitespace character is ❌". */
  lemma MarkedExactly(s: string)
    ensures StartsWith(Strip(s), FailMark) <==> exists k :: FirstNonSpaceAt(s, k) && s[k] == '❌'
  {
    if StartsWith(Strip(s), FailMark) {
      MarkedHasFirst(s);
    }
    if exists k :: FirstNonSpaceAt(s, k) && s[k] == '❌' {
      var k :| FirstNonSpaceAt(s, k) && s[k] == '❌';
      StripFirst(s, k);
    }
  }

  lemma MarkedHasFirst(s: string)
    requires StartsWith(Strip(s), FailMark)
    ensures FirstNonSpaceAt(s, |s| - |LStrip(s, IsSpace)|) && s[|s| - |LStrip(s, IsSpace)|] == '❌'
  {
    assert Strip(s)[0] == FailMark[0];
    StripByHead(s, IsSpace);
  }

  /** A text that starts with two spaces and ❌ is classified failed. */
  lemma MarkedTextFails(p: string, e: string)
    requires |p| >= 3 && p[0] == ' ' && p[1] == ' ' && p[2] == '❌'
    ensures IsFailed(p + e)
  {
    var t := p + e;
    assert t[0] == ' ' && t[1] == ' ' && t[2] == '❌';
    StripFirst(t, 2);
  }

  /** Every error message is marked with ❌. */
  lemma ErrorTextFails(a: Attempt)
    requires !a.Completed?
    ensures IsFailed(ErrorText(a))
  {
    match a
    case ConnectError(e) =>
      MarkedTextFails(ConnectErrorPrefix, e);
    case NoTransport =>
      assert NoTransportText == NoTransportText + "";
      MarkedTextFails(NoTransportText, "");
    case ExecError(e) =>
      MarkedTextFails(ExecErrorPrefix, e);
  }

  /** Every error text of `run_on_target` is classified as failed. */
  lemma ErrorsAreFailed(a: Attempt, decode: Relay.Bytes -> string)
    requires !a.Completed?
    ensures IsFailed(ReportText(a, decode))
  {
    ErrorTextFails(a);
  }

  /** A `sub` found in one part is found in the joined text. */
  lemma {:induction false} JoinContains(parts: seq<string>, sep: string, i: nat, sub: string)
    requires i < |parts| && IsSubstring(sub, parts[i])
    ensures IsSubstring(sub, Join(parts, sep))
    decreases |parts|
  {
    IsSubstringAt(sub, parts[i]);
    var o :| OccursAt(sub, parts[i], o);
    var j := Join(parts, sep);
    if |parts| == 1 {
      IsSubstringAt(sub, j);
    } else if i == 0 {
      assert j == parts[0] + (sep + Join(parts[1..], sep));
      assert j[o..o + |sub|] == parts[0][o..o + |sub|];
      assert OccursAt(sub, j, o);
      IsSubstringAt(sub, j);
    } else {
      JoinContains(parts[1..], sep, i - 1, sub);
      var rest := Join(parts[1..], sep);
      IsSubstringAt(sub, rest);
      var p :| OccursAt(sub, rest, p);
      var off := |parts[0]| + |sep|;
      assert j == (parts[0] + sep) + rest;
      assert j[off + p..off + p + |sub|] == rest[p..p + |sub|];
      assert OccursAt(sub, j, off + p);
      IsSubstringAt(sub, j);
    }
  }

  /** A run that completed is still classified failed when any output line
      mentions "Connection failed" — the test looks at the whole text. */
  lemma OutputMentionFails(chunks: seq<Relay.Bytes>, drain: seq<Relay.Bytes>, exitCode: int,
                           stderr: Relay.Bytes, decode: Relay.Bytes -> string, i: nat)
    requires i < |Relay.OutputLines(chunks, drain, exitCode, stderr, decode)|
    requires IsSubstring(ConnectionFailed, Relay.OutputLines(chunks, drain, exitCode, stderr, decode)[i])
    ensures Status(ReportText(Completed(chunks, drain, exitCode, stderr), decode)) == "failed"
  {
    JoinContains(Relay.OutputLines(chunks, drain, exitCode, stderr, decode), "\n", i, ConnectionFailed);
  }

  // ---------------------------------------------------------------------------
  // The results loop of `main`

  /** A saved report's location: the run directory and the file name in it. */
  datatype Path = Path(dir: string, name: string)

  /** One entry of `results`: the target's name, its status and its report path. */
  datatype Entry = Entry(name: string, status: string, path: Path)

  /** `save_report`'s path: `run_dir / f"{safe_name}.md"`. */
  function ReportPath(runDir: string, name: string, isAlnum: char -> bool): (p: Path)
    ensures p.dir == runDir && |p.name| == |name| + 3
    ensures forall i :: 0 <= i < |name| ==> SafeChar(p.name[i], isAlnum)
    ensures p.name[..|name|] == Sanitise(name, isAlnum) && p.name[|name|..] == ".md"
  {
    Path(runDir, Sanitise(name, isAlnum) + ".md")
  }

  /** The entry appended for one target. */
  function EntryFor(name: string, a: Attempt, runDir: string, decode: Relay.Bytes -> string,
                    isAlnum: char -> bool): Entry
  {
    Entry(name, Status(ReportText(a, decode)), ReportPath(runDir, name, isAlnum))
  }

  /** Every target record carries a `name` field (as `load_config` and the
      single-host branch of `main` guarantee). */
  predicate AllNamed(targets: seq<Config.Record>)
  {
    forall i :: 0 <= i < |targets| ==> "name" in targets[i]
  }

  /** Every name is a string: iterating a non-string name in the sanitiser raises. */
  predicate NamesAreStrings(targets: seq<Config.Record>)
    requires AllNamed(targets)
  {
    forall i :: 0 <= i < |targets| ==> targets[i]["name"].Str?
  }

  /** What `run_on_target` reads before its `try` goes through: `host`,
      `port`, `user` and `auth` are present (else KeyError), `int()` accepts
      the port (else ValueError), and under key authentication a `key_path`
      is a string (else `os.path.expanduser` raises TypeError).
      `parsesAsInt` stands for `int()` applied to a string. */
  predicate Prepared(t: Config.Record, parsesAsInt: string -> bool)
  {
    && "host" in t && "port" in t && "user" in t && "auth" in t
    && (t["port"].Int? || parsesAsInt(t["port"].s))
    && !(t["auth"] == Config.Str("key") && "key_path" in t && t["key_path"].Int?)
  }

  /** A target is processed without raising: it is prepared and its name,
      which `save_report` iterates, is a string. */
  predicate Processed(t: Config.Record, parsesAsInt: string -> bool)
    requires "name" in t
  {
    Prepared(t, parsesAsInt) && t["name"].Str?
  }

  const PreambleError: string := "run_on_target raised before connecting"
  const NameError: string := "TypeError: target name is not a string"

  /** One pass of the loop: `run_on_target`, the status test and
      `save_report` for one target, or the exception that ends the run. */
  method ProcessTarget(t: Config.Record, a: Attempt, runDir: string,
                       decode: Relay.Bytes -> string, isAlnum: char -> bool,
                       parsesAsInt: string -> bool)
    returns (r: Config.Result<Entry>)
    requires "name" in t
    ensures r.Success? <==> Processed(t, parsesAsInt)
    ensures r.Success? ==> r.value == EntryFor(t["name"].s, a, runDir, decode, isAlnum)
    ensures r.Failure? ==> r.error == (if Prepared(t, parsesAsInt) then NameError else PreambleError)
  {
    if !Prepared(t, parsesAsInt) {
      return Config.Failure(PreambleError);
    }
    var reportText := ReportText(a, decode);
    var status := Status(reportText);
    if !t["name"].Str? {
      return Config.Failure(NameError);
    }
    var name := t["name"].s;
    var filepath := ReportPath(runDir, name, isAlnum);
    return Config.Success(Entry(name, status, filepath));
  }

  /** The loop over the targets, run sequentially; `attempts[i]` is how the
      session with `targets[i]` ended. An exception outside the `try` of
      `run_on_target`, or in `save_report`, ends the whole run. */
  method CollectResults(targets: seq<Config.Record>, attempts: seq<Attempt>, runDir: string,
                        decode: Relay.Bytes -> string, isAlnum: char -> bool,
                        parsesAsInt: string -> bool)
    returns (r: Config.Result<seq<Entry>>)
    requires |attempts| == |targets| && AllNamed(targets)
    ensures r.Success? <==> forall i :: 0 <= i < |targets| ==> Processed(targets[i], parsesAsInt)
    ensures r.Success? ==> NamesAreStrings(targets) && |r.value| == |targets|
    ensures r.Success? ==> forall i :: 0 <= i < |targets| ==>
      r.value[i] == EntryFor(targets[i]["name"].s, attempts[i], runDir, decode, isAlnum)
    ensures r.Failure? ==> exists i ::
      && 0 <= i < |targets|
      && (forall j :: 0 <= j < i ==> Processed(targets[j], parsesAsInt))
      && !Processed(targets[i], parsesAsInt)
      && r.error == (if Prepared(targets[i], parsesAsInt) then NameError else PreambleError)
  {
    var results: seq<Entry> := [];
    ghost var entry := (n, a) => EntryFor(n, a, runDir, decode, isAlnum);
    var i := 0;
    while i < |targets|
      invariant 0 <= i <= |targets| && |results| == i
      invariant Recorded(targets, attempts, entry, parsesAsInt, results)
    {
      var e := ProcessTarget(targets[i], attempts[i], runDir, decode, isAlnum, parsesAsInt);
      if e.Failure? {
        return Config.Failure(e.error);
      }
      RecordedSnoc(targets, attempts, entry, parsesAsInt, results, e.value);
      results := results + [e.value];
      i := i + 1;
    }
    return Config.Success(results);
  }

  /** The loop's invariant: `results` holds `entry` of each of the first
      `|results|` targets, each of which was processed without raising. */
  predicate Recorded(targets: seq<Config.Record>, attempts: seq<Attempt>,
                     entry: (string, Attempt) -> Entry, parsesAsInt: string -> bool, results: seq<Entry>)
    requires |attempts| == |targets| && AllNamed(targets)
  {
    && |results| <= |targets|
    && (forall j :: 0 <= j < |results| ==> Processed(targets[j], parsesAsInt))
    && (forall j :: 0 <= j < |results| ==> results[j] == entry(targets[j]["name"].s, attempts[j]))
  }

  /** Appending the next target's entry keeps the invariant. */
  lemma RecordedSnoc(targets: seq<Config.Record>, attempts: seq<Attempt>,
                     entry: (string, Attempt) -> Entry, parsesAsInt: string -> bool,
                     results: seq<Entry>, e: Entry)
    requires |attempts| == |targets| && AllNamed(targets)
    requires Recorded(targets, attempts, entry, parsesAsInt, results)
    requires |results| < |targets| && Processed(targets[|results|], parsesAsInt)
    requires e == entry(targets[|results|]["name"].s, attempts[|results|])
    ensures Recorded(targets, attempts, entry, parsesAsInt, results + [e])
  {
  }

  /** The results keep the target order and the status of each target's text. */
  lemma ResultsFollowTargets(targets: seq<Config.Record>, attempts: seq<Attempt>, runDir: string,
                             decode: Relay.Bytes -> string, isAlnum: char -> bool,
                             results: seq<Entry>, i: nat)
    requires |attempts| == |targets| && AllNamed(targets) && NamesAreStrings(targets)
    requires |results| == |targets|
    requires forall j :: 0 <= j < |targets| ==>
      results[j] == EntryFor(targets[j]["name"].s, attempts[j], runDir, decode, isAlnum)
    requires i < |targets|
    ensures results[i].name == targets[i]["name"].s
    ensures results[i].status == "failed" <==> IsFailed(ReportText(attempts[i], decode))
    ensures !attempts[i].Completed? ==> results[i].status == "failed"
    ensures results[i].path.dir == runDir
  {
    if !attempts[i].Completed? {
      ErrorsAreFailed(attempts[i], decode);
    }
  }

  // ---------------------------------------------------------------------------
  // Run directory

  /** `run_<ts>_<safe first name>` for a single target, `run_<ts>` otherwise. */
  function RunDirName(ts: string, targets: seq<Config.Record>, isAlnum: char -> bool): (r: Config.Result<string>)
    requires AllNamed(targets)
    ensures r.Failure? <==> |targets| == 1 && !targets[0]["name"].Str?
    ensures r.Success? ==> StartsWith(r.value, "run_" + ts)
    ensures r.Success? && |targets| != 1 ==> |r.value| == |ts| + 4
    ensures r.Success? && |targets| == 1 ==>
      |r.value| == |ts| + 5 + |targets[0]["name"].s|
      && r.value[|ts| + 4] == '_'
      && forall i :: |ts| + 5 <= i < |r.value| ==> SafeChar(r.value[i], isAlnum)
    ensures r.Success? && |targets| == 1 ==> r.value[|ts| + 5..] == Sanitise(targets[0]["name"].s, isAlnum)
  {
    if |targets| == 1 then
      match targets[0]["name"]
      case Str(n) =>
        var d := "run_" + ts + "_" + Sanitise(n, isAlnum);
        assert d[..|ts| + 4] == "run_" + ts;
        Config.Success(d)
      case Int(_) => Config.Failure("TypeError: target name is not a string")
    else Config.Success("run_" + ts)
  }

  /** Two runs at different timestamps of the fixed `%Y%m%d_%H%M%S` width
      never share a directory. */
  lemma RunDirsDiffer(ts1: string, ts2: string, t1: seq<Config.Record>, t2: seq<Config.Record>,
                      isAlnum: char -> bool)
    requires AllNamed(t1) && AllNamed(t2)
    requires |ts1| == |ts2| && ts1 != ts2
    requires RunDirName(ts1, t1, isAlnum).Success? && RunDirName(ts2, t2, isAlnum).Success?
    ensures RunDirName(ts1, t1, isAlnum).value != RunDirName(ts2, t2, isAlnum).value
  {
    var d1 := RunDirName(ts1, t1, isAlnum).value;
    var d2 := RunDirName(ts2, t2, isAlnum).value;
    assert d1[..|ts1| + 4] == "run_" + ts1;
    assert d2[..|ts2| + 4] == "run_" + ts2;
    assert ("run_" + ts1)[4..] == ts1;
    assert ("run_" + ts2)[4..] == ts2;
  }

  /** A single target's run directory ends in the same sanitised name as its report file. */
  lemma SingleRunDirMatchesReport(ts: string, target: Config.Record, runDir: string, isAlnum: char -> bool)
    requires "name" in target && target["name"].Str?
    ensures RunDirName(ts, [target], isAlnum).Success?
    ensures var d := RunDirName(ts, [target], isAlnum).value;
      var f := ReportPath(runDir, target["name"].s, isAlnum).name;
      d[|ts| + 5..] == f[..|f| - 3]
  {
    var n := target["name"].s;
    var d := RunDirName(ts, [target], isAlnum).value;
    assert d == "run_" + ts + "_" + Sanitise(n, isAlnum);
    assert d[|ts| + 5..] == Sanitise(n, isAlnum);
  }

  // ---------------------------------------------------------------------------
  // `_index.md`

  /** `sum(1 for _, s, _ in results if s == 'ok')`. */
  function CountOk(rs: seq<Entry>): nat
    decreases |rs|
  {
    if |rs| == 0 then 0 else (if rs[0].status == "ok" then 1 else 0) + CountOk(rs[1..])
  }

  /** `sum(1 for _, s, _ in results if s != 'ok')`. */
  function CountFailed(rs: seq<Entry>): nat
    decreases |rs|
  {
    if |rs| == 0 then 0 else (if rs[0].status != "ok" then 1 else 0) + CountFailed(rs[1..])
  }

  /** Success and Failed add up to Targets. */
  lemma {:induction false} CountsAddUp(rs: seq<Entry>)
    ensures CountOk(rs) + CountFailed(rs) == |rs|
    decreases |rs|
  {
    if |rs| > 0 {
      CountsAddUp(rs[1..]);
    }
  }

  function TargetsLine(n: nat): string { "**Targets:** " + NatToString(n) + "  " }

  function SuccessLine(n: nat): string { "**Success:** " + NatToString(n) + "  " }

  function FailedLine(n: nat): string { "**Failed:** " + NatToString(n) }

  /** The three summary lines: targets, successes, failures. */
  function CountLines(n: nat, ok: nat, failed: nat): seq<string>
  {
    [TargetsLine(n), SuccessLine(ok), FailedLine(failed)]
  }

  /** The eight lines before the table rows. */
  function IndexHeader(ts: string, rs: seq<Entry>): (h: seq<string>)
    ensures |h| == 8
    ensures h[2..5] == CountLines(|rs|, CountOk(rs), CountFailed(rs))
  {
    HeaderAround(ts, CountLines(|rs|, CountOk(rs), CountFailed(rs)))
  }

  /** The title and the table head around the three count lines `c`. */
  function HeaderAround(ts: string, c: seq<string>): seq<string>
  {
    ["# Collection Run — " + ts, ""] + c + ["", "| # | Server | Status | Report |", "| --- | --- | --- | --- |"]
  }

  const IndexFooter: seq<string> := ["", "---", "_Generated by tech-stack-collector v1.0_"]

  /** The link cell: the report's file name for `ok`, a dash otherwise. */
  function LinkCell(e: Entry): string
  {
    if e.status == "ok" then "[" + e.path.name + "](./" + e.path.name + ")" else "—"
  }

  function Icon(e: Entry): string
  {
    if e.status == "ok" then "✅" else "❌"
  }

  /** Table row number `k` for entry `e`. */
  function RowLine(k: nat, e: Entry): string
  {
    "| " + NatToString(k) + " | " + e.name + " | " + Icon(e) + " " + e.status + " | " + LinkCell(e) + " |"
  }

  /** The table rows, numbered from 1 in `results` order. */
  function Rows(rs: seq<Entry>): (ls: seq<string>)
    ensures |ls| == |rs|
  {
    seq(|rs|, i requires 0 <= i < |rs| => RowLine(i + 1, rs[i]))
  }

  /** All lines of `_index.md`. */
  function IndexLines(ts: string, rs: seq<Entry>): (ls: seq<string>)
    ensures |ls| == 8 + |rs| + 3
  {
    IndexHeader(ts, rs) + Rows(rs) + IndexFooter
  }

  /** `write_index` without the file write: the text of `_index.md`. */
  method WriteIndex(rs: seq<Entry>, ts: string) returns (text: string)
    ensures text == Join(IndexLines(ts, rs), "\n")
  {
    var lines := IndexHeader(ts, rs);
    var i := 0;
    while i < |rs|
      invariant 0 <= i <= |rs|
      invariant lines == IndexHeader(ts, rs) + Rows(rs[..i])
    {
      assert Rows(rs[..i + 1]) == Rows(rs[..i]) + [RowLine(i + 1, rs[i])];
      lines := lines + [RowLine(i + 1, rs[i])];
      i := i + 1;
    }
    assert rs[..i] == rs;
    lines := lines + IndexFooter;
    text := Join(lines, "\n");
  }

  /** The row of an `ok` entry shows ✅ and links its report file; any other
      status shows ❌ and a dash. */
  lemma RowShowsStatus(k: nat, e: Entry)
    ensures e.status == "ok" ==> IsSubstring("✅ ok | [" + e.path.name + "](./" + e.path.name + ") |", RowLine(k, e))
    ensures e.status != "ok" ==> IsSubstring("❌ " + e.status + " | — |", RowLine(k, e))
    ensures StartsWith(RowLine(k, e), "| " + NatToString(k) + " | " + e.name + " | ")
  {
    var pre := "| " + NatToString(k) + " | " + e.name + " | ";
    var tail := Icon(e) + " " + e.status + " | " + LinkCell(e) + " |";
    if e.status == "ok" {
      var n := e.path.name;
      calc {
        tail;
        "✅" + " " + "ok" + " | " + ("[" + n + "](./" + n + ")") + " |";
        "✅ ok | [" + n + "](./" + n + ") |";
      }
    } else {
      calc {
        tail;
        "❌" + " " + e.status + " | " + "—" + " |";
        "❌ " + e.status + " | — |";
      }
    }
    assert RowLine(k, e) == pre + tail;
    assert OccursAt(tail, RowLine(k, e), |pre|);
    IsSubstringAt(tail, RowLine(k, e));
    assert (pre + tail)[..|pre|] == pre;
  }

  /** The first eight lines are the header. */
  lemma IndexStartsWithHeader(ts: string, rs: seq<Entry>)
    ensures IndexLines(ts, rs)[..8] == IndexHeader(ts, rs)
  {
    var h := IndexHeader(ts, rs);
    assert IndexLines(ts, rs) == h + (Rows(rs) + IndexFooter);
  }

  /** Lines 3-5 report N targets and the ok and failed counts. */
  lemma IndexCounts(ts: string, rs: seq<Entry>)
    ensures IndexLines(ts, rs)[2..5] == CountLines(|rs|, CountOk(rs), CountFailed(rs))
  {
    IndexStartsWithHeader(ts, rs);
    SliceOfPrefix(IndexLines(ts, rs), IndexHeader(ts, rs), CountLines(|rs|, CountOk(rs), CountFailed(rs)));
  }

  lemma SliceOfPrefix(ls: seq<string>, h: seq<string>, c: seq<string>)
    requires |h| == 8 && |ls| >= 8 && ls[..8] == h && h[2..5] == c
    ensures ls[2..5] == c
  {
    assert ls[2..5] == ls[..8][2..5];
  }

  /** Table row `k` (from 1) is line `7 + k` and shows `results[k - 1]`. */
  lemma IndexRows(ts: string, rs: seq<Entry>)
    ensures forall i :: 0 <= i < |rs| ==> IndexLines(ts, rs)[8 + i] == RowLine(i + 1, rs[i])
  {
    var h := IndexHeader(ts, rs);
    var ls := IndexLines(ts, rs);
    assert ls == h + Rows(rs) + IndexFooter;
    forall i | 0 <= i < |rs| ensures ls[8 + i] == RowLine(i + 1, rs[i]) {
      assert ls[8 + i] == Rows(rs)[i];
    }
  }

  /** No newline in a field of an entry. */
  predicate PlainEntry(e: Entry)
  {
    '\n' !in e.name && '\n' !in e.status && '\n' !in e.path.name
  }

  lemma CountLinesPlain(n: nat, ok: nat, failed: nat)
    ensures forall i :: 0 <= i < 3 ==> '\n' !in CountLines(n, ok, failed)[i]
  {
    NatNoNewline(n);
    NatNoNewline(ok);
    NatNoNewline(failed);
  }

  lemma HeaderPlain(ts: string, rs: seq<Entry>)
    requires '\n' !in ts
    ensures forall i :: 0 <= i < 8 ==> '\n' !in IndexHeader(ts, rs)[i]
  {
    var c := CountLines(|rs|, CountOk(rs), CountFailed(rs));
    CountLinesPlain(|rs|, CountOk(rs), CountFailed(rs));
    AroundPlain(ts, c);
  }

  lemma AroundPlain(ts: string, c: seq<string>)
    requires '\n' !in ts && |c| == 3 && forall i :: 0 <= i < 3 ==> '\n' !in c[i]
    ensures forall i :: 0 <= i < 8 ==> '\n' !in HeaderAround(ts, c)[i]
  {
    var h := HeaderAround(ts, c);
    forall i | 0 <= i < 8 ensures '\n' !in h[i] {
      if i == 0 {
        assert h[0] == "# Collection Run — " + ts;
      } else if 2 <= i < 5 {
        assert h[i] == c[i - 2];
      } else if i == 6 {
        assert h[6] == "| # | Server | Status | Report |";
      } else if i == 7 {
        assert h[7] == "| --- | --- | --- | --- |";
      } else {
        assert h[i] == "";
      }
    }
  }

  lemma RowsPlain(rs: seq<Entry>)
    requires forall i :: 0 <= i < |rs| ==> PlainEntry(rs[i])
    ensures forall i :: 0 <= i < |rs| ==> '\n' !in Rows(rs)[i]
  {
    forall i | 0 <= i < |rs| ensures '\n' !in Rows(rs)[i] {
      NatNoNewline(i + 1);
      assert PlainEntry(rs[i]);
    }
  }

  /** When no timestamp, name, status or file name holds a newline, splitting
      `_index.md` at newlines gives back its lines. */
  lemma IndexLinesRecoverable(ts: string, rs: seq<Entry>)
    requires '\n' !in ts
    requires forall i :: 0 <= i < |rs| ==> PlainEntry(rs[i])
    ensures Split(Join(IndexLines(ts, rs), "\n"), '\n') == IndexLines(ts, rs)
  {
    var ls := IndexLines(ts, rs);
    var h := IndexHeader(ts, rs);
    HeaderPlain(ts, rs);
    RowsPlain(rs);
    assert forall i :: 0 <= i < 3 ==> '\n' !in IndexFooter[i];
    assert ls == h + Rows(rs) + IndexFooter;
    forall i | 0 <= i < |ls| ensures '\n' !in ls[i] {
      if i < 8 {
        assert ls[i] == h[i];
      } else if i < 8 + |rs| {
        assert ls[i] == Rows(rs)[i - 8];
      } else {
        assert ls[i] == IndexFooter[i - 8 - |rs|];
      }
    }
    SplitJoin(ls, '\n');
  }

  lemma NatNoNewline(n: nat)
    ensures '\n' !in NatToString(n)
  {
    var d := NatToString(n);
    assert forall i :: 0 <= i < |d| ==> d[i] != '\n';
  }
}
