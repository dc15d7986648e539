/** The pure post-processing of three parts of `collector.py`: the running
    services split into notable and standard ones (`collect_services`), the
    listening sockets parsed into a port table (`collect_ports`), and the
    order in which `build_report` puts the sections of the report. */
module Collectors {
  import opened Text
  import opened Markdown
  import TF = TagFormat

  // ---------------------------------------------------------------------------
  // `collect_services`

  /** Units starting with one of these are counted, not listed. */
  const BoringPrefixes: set<string> := {
    "accounts-daemon", "acpid", "apparmor", "auditd", "blk-availability",
    "console-setup", "cron", "dbus", "getty@", "ifup@", "irqbalance",
    "keyboard-setup", "kmod", "lvm2", "multipathd", "networking",
    "packagekit", "polkit", "rsyslog", "serial-getty@", "ssh", "sshd",
    "systemd-", "udev", "udisks2", "unattended-upgrades",
    "user@", "user-runtime-dir@"
  }

  /** `any(s.startswith(b) for b in boring_prefixes)`. */
  predicate IsBoring(s: string)
  {
    exists b :: b in BoringPrefixes && StartsWith(s, b)
  }

  predicate Notable(s: string)
  {
    !IsBoring(s)
  }

  /** `[s.strip() for s in lines if s.strip()]`. */
  function StrippedNonBlank(lines: seq<string>): seq<string>
    decreases |lines|
  {
    if |lines| == 0 then []
    else (if Strip(lines[0]) != "" then [Strip(lines[0])] else []) + StrippedNonBlank(lines[1..])
  }

  /** The service names of the `systemctl` listing, one per non-blank line. */
  function ServiceNames(raw: string): seq<string>
  {
    StrippedNonBlank(Split(raw, '\n'))
  }

  /** A stripped line that is not empty is not blank: it strips to itself
      being non-empty. */
  lemma StrippedFilled(line: string)
    requires Strip(line) != ""
    ensures Filled(Strip(line))
  {
    var s := Strip(line);
    StripByEnds(line, IsSpace);
    StripByEmpty(s, IsSpace);
  }

  /** Stripping only removes characters. */
  lemma StripKeeps(s: string, drop: char -> bool)
    ensures forall c :: c in StripBy(s, drop) ==> c in s
  {
    var l := LStrip(s, drop);
    assert forall c :: c in RStrip(l, drop) ==> c in l;
    assert forall c :: c in l ==> c in s;
  }

  lemma LineClean(line: string)
    requires '\n' !in line && Strip(line) != ""
    ensures '\n' !in Strip(line) && Filled(Strip(line))
  {
    StrippedFilled(line);
    StripKeeps(line, IsSpace);
  }

  lemma {:induction false} StrippedNonBlankClean(lines: seq<string>)
    requires forall i :: 0 <= i < |lines| ==> '\n' !in lines[i]
    ensures forall i :: 0 <= i < |StrippedNonBlank(lines)| ==>
      '\n' !in StrippedNonBlank(lines)[i] && Filled(StrippedNonBlank(lines)[i])
    decreases |lines|
  {
    if |lines| > 0 {
      var rest := StrippedNonBlank(lines[1..]);
      StrippedNonBlankClean(lines[1..]);
      var line := Strip(lines[0]);
      if line != "" {
        LineClean(lines[0]);
        assert StrippedNonBlank(lines) == [line] + rest;
        forall i | 0 <= i < |[line] + rest|
          ensures '\n' !in ([line] + rest)[i] && Filled(([line] + rest)[i])
        {
          if i > 0 {
            assert ([line] + rest)[i] == rest[i - 1];
          }
        }
      } else {
        assert StrippedNonBlank(lines) == rest;
      }
    }
  }

  /** Every service name is one non-blank line: no newline inside, and
      something other than whitespace in it. */
  lemma ServiceNamesClean(raw: string)
    ensures forall i :: 0 <= i < |ServiceNames(raw)| ==>
      '\n' !in ServiceNames(raw)[i] && Filled(ServiceNames(raw)[i])
  {
    SplitPiecesFree(raw, '\n');
    StrippedNonBlankClean(Split(raw, '\n'));
  }

  /** Every name is either boring or notable, never both. */
  lemma {:induction false} PartitionSizes(services: seq<string>)
    ensures |Filter(services, IsBoring)| + |Filter(services, Notable)| == |services|
    decreases |services|
  {
    if |services| > 0 {
      PartitionSizes(services[1..]);
    }
  }

  /** The loop of `collect_services`: boring names are counted, the others kept
      in their input order. */
  method PartitionServices(services: seq<string>) returns (notable: seq<string>, sysCount: nat)
    ensures notable == Filter(services, Notable)
    ensures forall s :: s in notable <==> s in services && !IsBoring(s)
    ensures sysCount == |Filter(services, IsBoring)|
    ensures sysCount + |notable| == |services|
  {
    notable, sysCount := [], 0;
    for i := 0 to |services|
      invariant notable == Filter(services[..i], Notable)
      invariant sysCount == |Filter(services[..i], IsBoring)|
    {
      var s := services[i];
      assert services[..i + 1] == services[..i] + [s];
      FilterAppend(services[..i], [s], Notable);
      FilterAppend(services[..i], [s], IsBoring);
      assert [s][1..] == [];
      if IsBoring(s) {
        sysCount := sysCount + 1;
      } else {
        notable := notable + [s];
      }
    }
    assert services[..|services|] == services;
    FilterMembers(services, Notable);
    PartitionSizes(services);
  }

  /** The last line of the section. */
  function OmittedLine(sysCount: nat): string
  {
    "_" + NatToString(sysCount) + " standard system services omitted_"
  }

  /** The section text: the notable list under a heading when there is one,
      then the count of omitted names, joined with newlines. */
  function ServicesText(notable: seq<string>, sysCount: nat): string
  {
    SectionParts(notable != [], MdBullets(notable), OmittedLine(sysCount))
  }

  /** `"\n".join(parts)` for the parts of the services section. */
  function SectionParts(listed: bool, bullets: string, omitted: string): string
  {
    var parts := (if listed then ["### Notable\n\n" + bullets] else []) + ["\n" + omitted];
    Join(parts, "\n")
  }

  /** `collect_services` after `run`: nothing for an empty listing, otherwise
      the notable names and the count of the others. */
  method CollectServices(raw: string) returns (content: string)
    ensures raw == "" ==> content == ""
    ensures raw != "" ==>
      content == ServicesText(Filter(ServiceNames(raw), Notable), |Filter(ServiceNames(raw), IsBoring)|)
  {
    if raw == "" {
      return "";
    }
    var services := ServiceNames(raw);
    var notable, sysCount := PartitionServices(services);
    content := ServicesText(notable, sysCount);
  }

  /** A filter that keeps every item is the identity. */
  lemma {:induction false} FilterAll(items: seq<string>, keep: string -> bool)
    requires forall i :: 0 <= i < |items| ==> keep(items[i])
    ensures Filter(items, keep) == items
    decreases |items|
  {
    if |items| > 0 {
      FilterAll(items[1..], keep);
    }
  }

  lemma OmittedLineFree(n: nat)
    ensures '\n' !in OmittedLine(n)
  {
    var d := NatToString(n);
    assert forall i :: 0 <= i < |d| ==> IsDigit(d[i]);
    assert forall c :: c in d ==> IsDigit(c);
  }

  /** The newlines before the omitted count. */
  lemma TailLines(last: string)
    requires '\n' !in last
    ensures Split("\n" + last, '\n') == ["", last]
    ensures Split("\n" + "\n" + last, '\n') == ["", "", last]
  {
    SplitFree(last, '\n');
    assert "\n" + last == [] + ['\n'] + last;
    SplitConcat([], last, '\n');
    assert "\n" + "\n" + last == [] + ['\n'] + ("\n" + last);
    SplitConcat([], "\n" + last, '\n');
  }

  /** Lines followed by a blank line and one more line. */
  lemma LinesThen(b: string, lines: seq<string>, last: string)
    requires Split(b, '\n') == lines
    requires '\n' !in last
    ensures Split(b + ("\n" + "\n" + last), '\n') == lines + ["", last]
  {
    TailLines(last);
    SplitAppend(b, "\n" + "\n" + last, '\n');
    var n := |lines|;
    assert lines[n - 1] + [] == lines[n - 1];
    assert lines == lines[..n - 1] + [lines[n - 1]];
  }

  lemma JoinPair(x: string, y: string)
    ensures Join([x, y], "\n") == x + "\n" + y
  {
    assert [x, y][1..] == [y];
  }

  /** The section text with a notable list, written out. */
  lemma SectionPartsListed(b: string, last: string)
    ensures SectionParts(true, b, last) ==
      "### Notable" + ['\n'] + ([] + ['\n'] + (b + ("\n" + "\n" + last)))
  {
    var x := "### Notable\n\n" + b;
    var y := "\n" + last;
    assert SectionParts(true, b, last) == Join([x, y], "\n");
    JoinPair(x, y);
    assert x + "\n" + y == "### Notable" + ['\n'] + ([] + ['\n'] + (b + ("\n" + "\n" + last))) by {
      assert "### Notable\n\n" == "### Notable" + ['\n'] + ['\n'];
    }
  }

  /** The lines of the section parts: the heading, a blank line and the
      list's lines when there is a list, then a blank line and the last line. */
  lemma SectionPartsLines(listed: bool, b: string, lines: seq<string>, last: string)
    requires listed ==> Split(b, '\n') == lines
    requires '\n' !in last
    ensures Split(SectionParts(listed, b, last), '\n') ==
      (if listed then ["### Notable", ""] + lines else []) + ["", last]
  {
    TailLines(last);
    if listed {
      var tail := "\n" + "\n" + last;
      LinesThen(b, lines, last);
      SectionPartsListed(b, last);
      SplitConcat("### Notable", [] + ['\n'] + (b + tail), '\n');
      SplitConcat([], b + tail, '\n');
    }
  }

  /** The lines of the section: a `### Notable` heading, a blank line and one
      `- name` bullet per notable name in input order (when there is one),
      then a blank line and the omitted count, which reads back as the count. */
  lemma ServicesLines(notable: seq<string>, sysCount: nat)
    requires forall i :: 0 <= i < |notable| ==> '\n' !in notable[i] && Filled(notable[i])
    ensures var bullets := seq(|notable|, i requires 0 <= i < |notable| => "- " + notable[i]);
      Split(ServicesText(notable, sysCount), '\n') ==
        (if notable == [] then [] else ["### Notable", ""] + bullets) + ["", OmittedLine(sysCount)]
    ensures DigitsValue(NatToString(sysCount)) == sysCount
  {
    OmittedLineFree(sysCount);
    FilterAll(notable, Filled);
    BulletText(notable);
    SectionPartsLines(notable != [], MdBullets(notable), Bullets(notable), OmittedLine(sysCount));
    DigitsValueOfNatToString(sysCount);
  }

  // ---------------------------------------------------------------------------
  // `collect_ports`

  /** The longest prefix of `s` with no `stop` character. */
  function TakeUntil(s: string, stop: char -> bool): (w: string)
    ensures |w| <= |s| && w == s[..|w|]
    ensures forall i :: 0 <= i < |w| ==> !stop(w[i])
    ensures |w| == |s| || stop(s[|w|])
    decreases |s|
  {
    if |s| == 0 || stop(s[0]) then [] else [s[0]] + TakeUntil(s[1..], stop)
  }

  /** A word: non-empty, with no separator character in it. */
  predicate IsWordBy(w: string, sep: char -> bool)
  {
    w != [] && forall j :: 0 <= j < |w| ==> !sep(w[j])
  }

  /** The words of `s` when `cur` holds the characters of the word in
      progress: a separator ends the current word, if there is one. */
  function WordsFrom(s: string, cur: string, sep: char -> bool): seq<string>
    decreases |s|
  {
    if |s| == 0 then (if cur == [] then [] else [cur])
    else if sep(s[0]) then (if cur == [] then [] else [cur]) + WordsFrom(s[1..], [], sep)
    else WordsFrom(s[1..], cur + [s[0]], sep)
  }

  /** `line.split()` with no argument: the maximal runs of non-whitespace. */
  function Words(s: string): seq<string>
  {
    WordsFrom(s, [], IsSpace)
  }

  /** Every word is non-empty and free of separators. */
  lemma {:induction false} WordsFromClean(s: string, cur: string, sep: char -> bool)
    requires forall j :: 0 <= j < |cur| ==> !sep(cur[j])
    ensures forall i :: 0 <= i < |WordsFrom(s, cur, sep)| ==> IsWordBy(WordsFrom(s, cur, sep)[i], sep)
    decreases |s|
  {
    if |s| > 0 {
      if sep(s[0]) {
        WordsFromClean(s[1..], [], sep);
      } else {
        WordsFromClean(s[1..], cur + [s[0]], sep);
      }
    }
  }

  /** Every column of `line.split()` is non-empty and holds no whitespace. */
  lemma WordsClean(s: string)
    ensures forall i :: 0 <= i < |Words(s)| ==> IsWordBy(Words(s)[i], IsSpace)
  {
    WordsFromClean(s, [], IsSpace);
  }

  /** Separator-free characters extend the word in progress. */
  lemma {:induction false} WordsFromRun(w: string, rest: string, cur: string, sep: char -> bool)
    requires forall j :: 0 <= j < |w| ==> !sep(w[j])
    ensures WordsFrom(w + rest, cur, sep) == WordsFrom(rest, cur + w, sep)
    decreases |w|
  {
    if |w| == 0 {
      assert w + rest == rest;
      assert cur + w == cur;
    } else {
      assert (w + rest)[1..] == w[1..] + rest;
      WordsFromRun(w[1..], rest, cur + [w[0]], sep);
      assert cur + [w[0]] + w[1..] == cur + w;
    }
  }

  /** Splitting words joined by one separator gives the words back. */
  lemma {:induction false} WordsByOfJoin(ws: seq<string>, c: char, sep: char -> bool)
    requires sep(c)
    requires forall i :: 0 <= i < |ws| ==> IsWordBy(ws[i], sep)
    ensures WordsFrom(Join(ws, [c]), [], sep) == ws
    decreases |ws|
  {
    if |ws| == 1 {
      WordsFromRun(ws[0], [], [], sep);
      assert ws[0] + [] == ws[0];
      assert [] + ws[0] == ws[0];
    } else if |ws| > 1 {
      var rest := Join(ws[1..], [c]);
      WordsByOfJoin(ws[1..], c, sep);
      assert ws[0] + [c] + rest == ws[0] + ([c] + rest);
      WordsFromRun(ws[0], [c] + rest, [], sep);
      assert [] + ws[0] == ws[0];
      assert ([c] + rest)[1..] == rest;
    }
  }

  /** Splitting on whitespace the words joined with single spaces gives the
      words back: `" ".join(ws).split() == ws`. */
  lemma WordsOfJoin(ws: seq<string>)
    requires forall i :: 0 <= i < |ws| ==> IsWordBy(ws[i], IsSpace)
    ensures Words(Join(ws, " ")) == ws
  {
    WordsByOfJoin(ws, ' ', IsSpace);
  }

  /** `TakeUntil` stops at the first `stop` character, or at the end. */
  lemma {:induction false} TakeUntilExact(s: string, stop: char -> bool, n: nat)
    requires n <= |s|
    requires forall j :: 0 <= j < n ==> !stop(s[j])
    requires n == |s| || stop(s[n])
    ensures TakeUntil(s, stop) == s[..n]
    decreases n
  {
    if n > 0 {
      TakeUntilExact(s[1..], stop, n - 1);
      assert s[..n] == [s[0]] + s[1..][..n - 1];
    }
  }

  /** `addr.rsplit(":", 1)[-1]`: what follows the last `c`. */
  function AfterLast(s: string, c: char): (r: string)
    ensures |r| <= |s| && r == s[|s| - |r|..]
    ensures c !in r
    ensures |r| == |s| || s[|s| - |r| - 1] == c
    decreases |s|
  {
    if |s| == 0 || s[|s| - 1] == c then []
    else AfterLast(s[..|s| - 1], c) + [s[|s| - 1]]
  }

  /** The port of a bind address: what follows its last colon, or the whole
      address when there is none. */
  function PortOf(addr: string): string
  {
    if ':' in addr then AfterLast(addr, ':') else addr
  }

  /** The port is the colon-free tail of the address that starts right after
      a colon or at the start of the address. */
  lemma PortOfTail(addr: string)
    ensures var p := PortOf(addr);
      |p| <= |addr| && p == addr[|addr| - |p|..] && ':' !in p
      && (|p| == |addr| || addr[|addr| - |p| - 1] == ':')
      && (':' in addr <==> |p| < |addr|)
  {
    if ':' in addr {
      var p := AfterLast(addr, ':');
      var k :| 0 <= k < |addr| && addr[k] == ':';
      assert k < |addr| - |p| by {
        assert forall j :: |addr| - |p| <= j < |addr| ==> addr[j] == p[j - (|addr| - |p|)];
      }
    }
  }

  /** The text before the process name in `ss -p` output: `users:(("`. */
  const UsersMarker: string := "users:((\""

  /** `users:\(\("([^"]+)"` matches at offset `i` with `name` as its group. */
  predicate MatchAt(line: string, i: int, name: string)
  {
    OccursAt(UsersMarker, line, i) && name != [] && '"' !in name
    && OccursAt(name + ['"'], line, i + |UsersMarker|)
  }

  function IsQuote(): char -> bool
  {
    c => c == '"'
  }

  /** The group of a match at offset `i`, if the pattern matches there. */
  function ProcAt(line: string, i: nat): (r: TF.Option<string>)
    ensures forall name :: MatchAt(line, i, name) <==> r == TF.Some(name)
  {
    if !OccursAt(UsersMarker, line, i) then TF.None
    else
      var rest := line[i + |UsersMarker|..];
      var name := TakeUntil(rest, IsQuote());
      assert forall name' :: MatchAt(line, i, name') ==> name' == name by {
        forall name' | MatchAt(line, i, name') ensures name' == name {
          assert rest[..|name'| + 1] == name' + ['"'];
          assert forall j :: 0 <= j < |name'| ==> rest[j] == name'[j] && name'[j] in name';
          TakeUntilExact(rest, IsQuote(), |name'|);
        }
      }
      if name != [] && |name| < |rest| then
        assert rest[..|name| + 1] == name + ['"'];
        assert forall c :: c in name ==> !IsQuote()(c);
        TF.Some(name)
      else TF.None
  }

  /** No match of the pattern starts in `[from, to)`. */
  ghost predicate NoMatchBetween(line: string, from: int, to: int)
  {
    forall j, name :: from <= j < to ==> !MatchAt(line, j, name)
  }

  /** `re.search` from offset `i`: the leftmost match wins. */
  function FindProc(line: string, i: nat): (r: TF.Option<string>)
    ensures r.Some? ==> exists k :: i <= k && MatchAt(line, k, r.value) && NoMatchBetween(line, i, k)
    ensures r.None? ==> NoMatchBetween(line, i, |line| + 1)
    decreases |line| - i
  {
    if i > |line| then TF.None
    else match ProcAt(line, i)
      case Some(name) => TF.Some(name)
      case None => FindProc(line, i + 1)
  }

  /** `proc_match.group(1) if proc_match else "—"`. */
  function ProcOf(line: string): string
  {
    match FindProc(line, 0)
    case Some(name) => name
    case None => Missing
  }

  /** The process is the group of the leftmost match, or `—` when the line
      has none. */
  lemma ProcOfLeftmost(line: string)
    ensures ProcOf(line) != Missing ==>
      exists k :: MatchAt(line, k, ProcOf(line)) && NoMatchBetween(line, 0, k)
    ensures (forall k, name :: !MatchAt(line, k, name)) ==> ProcOf(line) == Missing
  {
    var r := FindProc(line, 0);
    if r.Some? {
      var k :| 0 <= k && MatchAt(line, k, r.value) && NoMatchBetween(line, 0, k);
    }
  }

  /** One row of the port table. */
  datatype PortRow = PortRow(port: string, addr: string, proc: string)

  /** A line with at least five columns gives a row; shorter lines are skipped. */
  predicate Wide(line: string)
  {
    |Words(line)| >= 5
  }

  function RowFor(line: string): PortRow
    requires Wide(line)
  {
    var addr := Words(line)[3];
    PortRow(PortOf(addr), addr, ProcOf(line))
  }

  /** The rows of the lines with at least five columns, in line order. */
  function ParsedRows(lines: seq<string>): (rows: seq<PortRow>)
  {
    var wide := Filter(lines, Wide);
    FilterMembers(lines, Wide);
    seq(|wide|, k requires 0 <= k < |wide| => RowFor(wide[k]))
  }

  lemma ParsedRowsSnoc(lines: seq<string>, line: string)
    ensures ParsedRows(lines + [line]) ==
      ParsedRows(lines) + (if Wide(line) then [RowFor(line)] else [])
  {
    FilterAppend(lines, [line], Wide);
    assert [line][1..] == [];
  }

  /** The loop of `collect_ports` that turns lines into rows. */
  method ParsePorts(lines: seq<string>) returns (rows: seq<PortRow>)
    ensures rows == ParsedRows(lines)
  {
    rows := [];
    for i := 0 to |lines|
      invariant rows == ParsedRows(lines[..i])
    {
      var line := lines[i];
      assert lines[..i + 1] == lines[..i] + [line];
      ParsedRowsSnoc(lines[..i], line);
      var cols := Words(line);
      if |cols| >= 5 {
        var addr := cols[3];
        var port := PortOf(addr);
        var proc := ProcOf(line);
        rows := rows + [PortRow(port, addr, proc)];
      }
    }
    assert lines[..|lines|] == lines;
  }

  /** Every row comes from a line with at least five columns, and every such
      line gives a row: its fourth column is the address. */
  lemma ParsedRowsFrom(lines: seq<string>)
    ensures forall r :: r in ParsedRows(lines) <==>
      exists line :: line in lines && Wide(line) && r == RowFor(line)
    ensures |ParsedRows(lines)| <= |lines|
  {
    var rows := ParsedRows(lines);
    var wide := Filter(lines, Wide);
    FilterMembers(lines, Wide);
    forall r | r in rows ensures exists line :: line in lines && Wide(line) && r == RowFor(line) {
      var k :| 0 <= k < |rows| && rows[k] == r;
      assert wide[k] in wide;
    }
    forall line | line in lines && Wide(line) ensures RowFor(line) in rows {
      var k :| 0 <= k < |wide| && wide[k] == line;
      assert rows[k] == RowFor(line);
    }
  }

  /** The sort key: the port as a number when it is all digits, else 99999. */
  function PortKey(r: PortRow): nat
  {
    if AllDigits(r.port) then DigitsValue(r.port) else 99999
  }

  /** `x` placed after every row of `s` whose key is not greater. */
  function InsertBy(x: PortRow, s: seq<PortRow>, key: PortRow -> nat): seq<PortRow>
    decreases |s|
  {
    if |s| == 0 then [x]
    else if key(x) < key(s[0]) then [x] + s
    else [s[0]] + InsertBy(x, s[1..], key)
  }

  /** Insertion sort: each row, in input order, goes after the rows of the
      same key already placed. */
  function SortBy(rows: seq<PortRow>, key: PortRow -> nat): seq<PortRow>
    decreases |rows|
  {
    if |rows| == 0 then []
    else InsertBy(rows[|rows| - 1], SortBy(rows[..|rows| - 1], key), key)
  }

  /** `rows.sort(key=...)`: Python's sort is stable. */
  function SortRows(rows: seq<PortRow>): (r: seq<PortRow>)
    ensures multiset(r) == multiset(rows)
    ensures SortedBy(r, PortKey)
  {
    SortPerm(rows, PortKey);
    SortSorted(rows, PortKey);
    SortBy(rows, PortKey)
  }

  predicate SortedBy(s: seq<PortRow>, key: PortRow -> nat)
  {
    forall i, j :: 0 <= i < j < |s| ==> key(s[i]) <= key(s[j])
  }

  lemma {:induction false} InsertPerm(x: PortRow, s: seq<PortRow>, key: PortRow -> nat)
    ensures multiset(InsertBy(x, s, key)) == multiset(s) + multiset{x}
    decreases |s|
  {
    if |s| > 0 && key(x) >= key(s[0]) {
      InsertPerm(x, s[1..], key);
      assert s == [s[0]] + s[1..];
    }
  }

  /** Sorting only reorders the rows. */
  lemma {:induction false} SortPerm(rows: seq<PortRow>, key: PortRow -> nat)
    ensures multiset(SortBy(rows, key)) == multiset(rows)
    decreases |rows|
  {
    if |rows| > 0 {
      var init := rows[..|rows| - 1];
      SortPerm(init, key);
      InsertPerm(rows[|rows| - 1], SortBy(init, key), key);
      assert rows == init + [rows[|rows| - 1]];
    }
  }

  lemma {:induction false} InsertSorted(x: PortRow, s: seq<PortRow>, key: PortRow -> nat)
    requires SortedBy(s, key)
    ensures SortedBy(InsertBy(x, s, key), key)
    ensures |s| > 0 ==> InsertBy(x, s, key)[0] == x || InsertBy(x, s, key)[0] == s[0]
    decreases |s|
  {
    if |s| > 0 && key(x) >= key(s[0]) {
      InsertSorted(x, s[1..], key);
      var t := InsertBy(x, s[1..], key);
      if |s| > 1 {
        assert key(s[0]) <= key(s[1]);
      }
      assert key(s[0]) <= key(t[0]);
    }
  }

  /** The sorted rows are in ascending key order. */
  lemma {:induction false} SortSorted(rows: seq<PortRow>, key: PortRow -> nat)
    ensures SortedBy(SortBy(rows, key), key)
    decreases |rows|
  {
    if |rows| > 0 {
      SortSorted(rows[..|rows| - 1], key);
      InsertSorted(rows[|rows| - 1], SortBy(rows[..|rows| - 1], key), key);
    }
  }

  /** The rows with key `k`, in order. */
  function WithKey(s: seq<PortRow>, key: PortRow -> nat, k: nat): seq<PortRow>
    decreases |s|
  {
    if |s| == 0 then []
    else (if key(s[0]) == k then [s[0]] else []) + WithKey(s[1..], key, k)
  }

  lemma {:induction false} WithKeyAppend(a: seq<PortRow>, b: seq<PortRow>, key: PortRow -> nat, k: nat)
    ensures WithKey(a + b, key, k) == WithKey(a, key, k) + WithKey(b, key, k)
    decreases |a|
  {
    if |a| == 0 {
      assert a + b == b;
    } else {
      var head := if key(a[0]) == k then [a[0]] else [];
      assert (a + b)[0] == a[0] && (a + b)[1..] == a[1..] + b;
      WithKeyAppend(a[1..], b, key, k);
      assert WithKey(a + b, key, k) == head + (WithKey(a[1..], key, k) + WithKey(b, key, k));
      assert WithKey(a, key, k) == head + WithKey(a[1..], key, k);
      assert head + (WithKey(a[1..], key, k) + WithKey(b, key, k))
          == (head + WithKey(a[1..], key, k)) + WithKey(b, key, k);
    }
  }

  lemma {:induction false} WithKeyAbove(s: seq<PortRow>, key: PortRow -> nat, k: nat)
    requires SortedBy(s, key) && |s| > 0 && k < key(s[0])
    ensures WithKey(s, key, k) == []
    decreases |s|
  {
    if |s| > 1 {
      WithKeyAbove(s[1..], key, k);
    }
  }

  /** Inserting `x` puts it after every row of the same key. */
  lemma {:induction false} InsertStable(x: PortRow, s: seq<PortRow>, key: PortRow -> nat, k: nat)
    requires SortedBy(s, key)
    ensures WithKey(InsertBy(x, s, key), key, k) ==
      WithKey(s, key, k) + (if key(x) == k then [x] else [])
    decreases |s|
  {
    if |s| == 0 {
    } else if key(x) < key(s[0]) {
      if key(x) == k {
        WithKeyAbove(s, key, k);
      }
      assert ([x] + s)[1..] == s;
    } else {
      InsertStable(x, s[1..], key, k);
      var t := InsertBy(x, s[1..], key);
      assert ([s[0]] + t)[1..] == t;
    }
  }

  /** The sort is stable: the rows of every key keep their input order. */
  lemma {:induction false} SortStable(rows: seq<PortRow>, key: PortRow -> nat, k: nat)
    ensures WithKey(SortBy(rows, key), key, k) == WithKey(rows, key, k)
    decreases |rows|
  {
    if |rows| > 0 {
      var init := rows[..|rows| - 1];
      var x := rows[|rows| - 1];
      var s := SortBy(init, key);
      SortStable(init, key, k);
      SortSorted(init, key);
      InsertStable(x, s, key, k);
      assert rows == init + [x];
      WithKeyAppend(init, [x], key, k);
      assert [x][1..] == [];
    }
  }

  /** The port table's order: ascending `PortKey`, the same rows, and rows
      of equal key in their input order. */
  lemma SortRowsSpec(rows: seq<PortRow>)
    ensures SortedBy(SortRows(rows), PortKey)
    ensures multiset(SortRows(rows)) == multiset(rows)
    ensures forall k :: WithKey(SortRows(rows), PortKey, k) == WithKey(rows, PortKey, k)
  {
    SortSorted(rows, PortKey);
    SortPerm(rows, PortKey);
    forall k {
      SortStable(rows, PortKey, k);
    }
  }

  const PortHeaders: seq<string> := ["Port", "Bind Address", "Process"]

  function CellsOf(rows: seq<PortRow>): seq<seq<string>>
  {
    seq(|rows|, i requires 0 <= i < |rows| => [rows[i].port, rows[i].addr, rows[i].proc])
  }

  /** `collect_ports` after `run`: the parsed rows, sorted, as a table. */
  method CollectPorts(raw: string) returns (content: string)
    ensures var rows := SortRows(ParsedRows(Split(raw, '\n')));
      content == if raw == "" || rows == [] then "" else Join(TableLines(PortHeaders, CellsOf(rows)), "\n")
  {
    if raw == "" {
      return "";
    }
    var rows := ParsePorts(Split(raw, '\n'));
    var sorted := SortRows(rows);
    content := MdTable(PortHeaders, CellsOf(sorted));
  }

  // ---------------------------------------------------------------------------
  // `build_report`: section order

  /** `SECTION_ORDER`: the titles of the known sections, in report order. */
  const SectionOrder: seq<string> := [
    "System", "Docker / Containers", "Programming Languages", "Package Managers",
    "Key Directories", "Running Services", "Listening Ports", "Databases",
    "Web Servers", "Cloud & DevOps Tools", "CLI & Utility Tools", "Network & Security",
    "Git Repositories", "Scheduled Tasks", "Virtualization",
    "Monitoring & Observability", "Shell Environment"
  ]

  /** `f"\n## {title}\n\n{content}\n"`. */
  function SectionText(title: string, content: string): string
  {
    "\n## " + title + "\n\n" + content + "\n"
  }

  function InMap(m: map<string, string>): string -> bool
  {
    t => t in m
  }

  function IsExtra(order: seq<string>, m: map<string, string>): string -> bool
  {
    t => t !in order && t in m && m[t] != ""
  }

  /** The titles in report order: the known ones present in `m`, in `order`,
      then the other keys with content, in the dictionary's order `keys`. */
  function Titles(order: seq<string>, m: map<string, string>, keys: seq<string>): (ts: seq<string>)
    ensures forall i :: 0 <= i < |ts| ==> ts[i] in m
  {
    var a := Filter(order, InMap(m));
    var b := Filter(keys, IsExtra(order, m));
    FilterMembers(order, InMap(m));
    FilterMembers(keys, IsExtra(order, m));
    assert forall i :: 0 <= i < |a| ==> a[i] in a;
    assert forall i :: 0 <= i < |b| ==> b[i] in b;
    a + b
  }

  function SectionsOf(m: map<string, string>, titles: seq<string>): seq<string>
    requires forall i :: 0 <= i < |titles| ==> titles[i] in m
  {
    seq(|titles|, i requires 0 <= i < |titles| => SectionText(titles[i], m[titles[i]]))
  }

  lemma FilterSnoc(s: seq<string>, x: string, keep: string -> bool)
    ensures Filter(s + [x], keep) == Filter(s, keep) + (if keep(x) then [x] else [])
  {
    FilterAppend(s, [x], keep);
    assert [x][1..] == [];
  }

  /** The two loops of `build_report` that collect `body_parts`. */
  method AssembleIn(order: seq<string>, m: map<string, string>, keys: seq<string>)
    returns (parts: seq<string>)
    requires forall i :: 0 <= i < |keys| ==> keys[i] in m
    ensures parts == SectionsOf(m, Titles(order, m, keys))
  {
    parts := OrderedParts(order, m);
    parts := ExtraParts(order, m, keys, Filter(order, InMap(m)), parts);
  }

  /** The first loop: the sections of `order` that `m` holds, in that order. */
  method OrderedParts(order: seq<string>, m: map<string, string>) returns (parts: seq<string>)
    ensures Listed(m, Filter(order, InMap(m)), parts)
  {
    parts := [];
    ghost var done: seq<string> := [];
    for i := 0 to |order|
      invariant done == Filter(order[..i], InMap(m))
      invariant Listed(m, done, parts)
    {
      var title := order[i];
      assert order[..i + 1] == order[..i] + [title];
      FilterSnoc(order[..i], title, InMap(m));
      if title in m {
        SectionsSnoc(m, done, parts, title);
        parts := parts + [SectionText(title, m[title])];
        done := done + [title];
      }
    }
    assert order[..|order|] == order;
  }

  /** The second loop: the non-empty sections whose titles `order` lacks, in
      the order of `keys`, after the sections `known` already listed. */
  method ExtraParts(order: seq<string>, m: map<string, string>, keys: seq<string>,
                    ghost known: seq<string>, parts0: seq<string>)
    returns (parts: seq<string>)
    requires forall i :: 0 <= i < |keys| ==> keys[i] in m
    requires Listed(m, known, parts0)
    ensures Listed(m, known + Filter(keys, IsExtra(order, m)), parts)
  {
    parts := parts0;
    ghost var done := known;
    for i := 0 to |keys|
      invariant done == known + Filter(keys[..i], IsExtra(order, m))
      invariant Listed(m, done, parts)
    {
      var title := keys[i];
      assert keys[..i + 1] == keys[..i] + [title];
      FilterSnoc(keys[..i], title, IsExtra(order, m));
      if title !in order && m[title] != "" {
        SectionsSnoc(m, done, parts, title);
        parts := parts + [SectionText(title, m[title])];
        assert known + Filter(keys[..i], IsExtra(order, m)) + [title]
          == known + (Filter(keys[..i], IsExtra(order, m)) + [title]);
        done := done + [title];
      }
    }
    assert keys[..|keys|] == keys;
  }

  /** `parts` holds the sections of `titles`, all of which are keys of `m`. */
  predicate Listed(m: map<string, string>, titles: seq<string>, parts: seq<string>)
  {
    (forall j :: 0 <= j < |titles| ==> titles[j] in m) && parts == SectionsOf(m, titles)
  }

  lemma SectionsSnoc(m: map<string, string>, titles: seq<string>, parts: seq<string>, t: string)
    requires Listed(m, titles, parts) && t in m
    ensures Listed(m, titles + [t], parts + [SectionText(t, m[t])])
  {
  }

  /** `body_parts` for the report's own section order. */
  method AssembleSections(m: map<string, string>, keys: seq<string>) returns (parts: seq<string>)
    requires forall i :: 0 <= i < |keys| ==> keys[i] in m
    ensures parts == SectionsOf(m, Titles(SectionOrder, m, keys))
  {
    parts := AssembleIn(SectionOrder, m, keys);
  }

  predicate Distinct(s: seq<string>)
  {
    forall i, j :: 0 <= i < j < |s| ==> s[i] != s[j]
  }

  lemma {:induction false} FilterDistinct(s: seq<string>, keep: string -> bool)
    requires Distinct(s)
    ensures Distinct(Filter(s, keep))
    decreases |s|
  {
    if |s| > 0 {
      FilterDistinct(s[1..], keep);
      FilterMembers(s[1..], keep);
      var f := Filter(s[1..], keep);
      if keep(s[0]) {
        assert s[0] !in s[1..];
        assert s[0] !in f;
        forall i, j | 0 <= i < j < |[s[0]] + f| ensures ([s[0]] + f)[i] != ([s[0]] + f)[j] {
          if i == 0 {
            assert ([s[0]] + f)[j] == f[j - 1];
            assert f[j - 1] in f;
          }
        }
      }
    }
  }

  lemma {:induction false} FilterSubseq(s: seq<string>, keep: string -> bool)
    ensures TF.IsSubseq(Filter(s, keep), s)
    decreases |s|
  {
    if |s| > 0 {
      FilterSubseq(s[1..], keep);
      var f := Filter(s[1..], keep);
      if keep(s[0]) {
        assert ([s[0]] + f)[1..] == f;
      } else {
        assert Filter(s, keep) == f;
        TF.SubseqDropHead(f, s);
      }
    }
  }

  /** Every key with a title from `order`, and every other key with content,
      becomes a section; nothing else does. */
  lemma SectionsCover(order: seq<string>, m: map<string, string>, keys: seq<string>)
    requires forall t :: t in m <==> t in keys
    ensures forall t :: t in Titles(order, m, keys) <==> t in m && (t in order || m[t] != "")
  {
    FilterMembers(order, InMap(m));
    FilterMembers(keys, IsExtra(order, m));
  }

  /** No section appears twice. */
  lemma SectionsOnce(order: seq<string>, m: map<string, string>, keys: seq<string>)
    requires Distinct(order) && Distinct(keys)
    ensures Distinct(Titles(order, m, keys))
  {
    var a := Filter(order, InMap(m));
    var b := Filter(keys, IsExtra(order, m));
    var ts := a + b;
    FilterMembers(order, InMap(m));
    FilterMembers(keys, IsExtra(order, m));
    FilterDistinct(order, InMap(m));
    FilterDistinct(keys, IsExtra(order, m));
    forall i, j | 0 <= i < |a| <= j < |ts| ensures ts[i] != ts[j] {
      assert ts[i] in a;
      assert ts[j] == b[j - |a|];
      assert b[j - |a|] in b;
    }
    forall i, j | |a| <= i < j < |ts| ensures ts[i] != ts[j] {
      assert ts[i] == b[i - |a|] && ts[j] == b[j - |a|];
    }
  }

  /** The known sections come first, in `order`; the others follow, none of
      them with a title from `order`. */
  lemma SectionsOrdered(order: seq<string>, m: map<string, string>, keys: seq<string>)
    ensures var ts := Titles(order, m, keys);
      var known := Filter(order, InMap(m));
      TF.IsSubseq(known, order)
      && known == ts[..|known|]
      && forall i :: |known| <= i < |ts| ==> ts[i] !in order
  {
    var a := Filter(order, InMap(m));
    var b := Filter(keys, IsExtra(order, m));
    var ts := a + b;
    FilterMembers(keys, IsExtra(order, m));
    FilterSubseq(order, InMap(m));
    forall i | |a| <= i < |ts| ensures ts[i] !in order {
      assert ts[i] == b[i - |a|];
      assert b[i - |a|] in b;
    }
    assert ts[..|a|] == a;
  }

  /** The titles of the report's own order are all different. */
  lemma SectionOrderDistinct()
    ensures Distinct(SectionOrder)
  {
  }
}
