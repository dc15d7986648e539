/** Target-list loading of `remote_runner.py`: the minimal YAML-subset parser
    used when `pyyaml` is missing (`_basic_yaml_parse`, `_yaml_val`) and the
    validate-and-default loop of `load_config`.

    `isWord` stands for the `\w` class of Python's `re` on `str` patterns
    (Unicode letters, digits and `_`); `\s` is `Text.IsSpace`.  The regular
    expressions are written as matchers over maximal runs of each class, which
    is what Python's backtracking finds because `\w`, `\s`, `-` and `:` are
    disjoint classes. */
module Config {
  import opened Text

  /** A scalar of a target record: what `_yaml_val` can return. */
  datatype Value = Str(s: string) | Int(n: int)

  /** One target: a dictionary from field names to scalars. */
  type Record = map<string, Value>

  datatype Option<T> = None | Some(value: T)

  datatype Result<T> = Success(value: T) | Failure(error: string)

  predicate IsDoubleQuote(c: char) { c == '"' }

  predicate IsSingleQuote(c: char) { c == '\'' }

  /** `_yaml_val`: strip whitespace, then double quotes, then single quotes;
      an all-digit result becomes an integer. */
  function YamlVal(s: string): (v: Value)
    ensures v.Int? <==> AllDigits(Unquoted(s))
    ensures v.Int? ==> v.n == DigitsValue(Unquoted(s)) && v.n >= 0
    ensures v.Str? ==> v.s == Unquoted(s) && !AllDigits(v.s)
    ensures v.Str? && v.s != [] ==> !IsSingleQuote(v.s[0]) && !IsSingleQuote(v.s[|v.s| - 1])
  {
    var t := Unquoted(s);
    if AllDigits(t) then Int(DigitsValue(t)) else Str(t)
  }

  /** `s.strip().strip('"').strip("'")`: whitespace, then double quotes, then
      single quotes are removed from both ends. */
  function Unquoted(s: string): (t: string)
    ensures t != [] ==> !IsSingleQuote(t[0]) && !IsSingleQuote(t[|t| - 1])
  {
    var u := StripBy(Strip(s), IsDoubleQuote);
    StripByEnds(u, IsSingleQuote);
    StripBy(u, IsSingleQuote)
  }

  /** `Unquoted(s)` is what remains after removing the whitespace ends of `s`,
      then the double-quote ends of that, then the single-quote ends. */
  lemma UnquotedStrips(s: string)
    ensures exists w, u ::
      IsStripOf(w, s, IsSpace) && IsStripOf(u, w, IsDoubleQuote) && IsStripOf(Unquoted(s), u, IsSingleQuote)
  {
    var w := Strip(s);
    var u := StripBy(w, IsDoubleQuote);
    StripByIsStripOf(s, IsSpace);
    StripByIsStripOf(w, IsDoubleQuote);
    StripByIsStripOf(u, IsSingleQuote);
  }

  /** The three strips determine the value: any string obtained by removing
      whitespace, then double quotes, then single quotes is `Unquoted(s)`. */
  lemma UnquotedUnique(s: string, w: string, u: string, t: string)
    requires IsStripOf(w, s, IsSpace) && IsStripOf(u, w, IsDoubleQuote) && IsStripOf(t, u, IsSingleQuote)
    ensures t == Unquoted(s)
  {
    StripByIsStripOf(s, IsSpace);
    StripOfUnique(w, Strip(s), s, IsSpace);
    StripByIsStripOf(w, IsDoubleQuote);
    StripOfUnique(u, StripBy(w, IsDoubleQuote), w, IsDoubleQuote);
    StripByIsStripOf(u, IsSingleQuote);
    StripOfUnique(t, StripBy(u, IsSingleQuote), u, IsSingleQuote);
  }

  /** `str(n)` read back by `_yaml_val` is the integer `n`. */
  lemma YamlValOfNumber(n: nat)
    ensures YamlVal(NatToString(n)) == Int(n)
  {
    var d := NatToString(n);
    forall i | 0 <= i < |d| ensures !IsSpace(d[i]) && !IsDoubleQuote(d[i]) && !IsSingleQuote(d[i]) {
      assert IsDigit(d[i]);
    }
    NoneDropped(d, IsSpace);
    NoneDropped(d, IsDoubleQuote);
    NoneDropped(d, IsSingleQuote);
    assert Unquoted(d) == d;
    DigitsValueOfNatToString(n);
  }

  /** Quoting a clean scalar (no surrounding whitespace or quotes) in double
      quotes does not change what `_yaml_val` reads. */
  lemma YamlValDoubleQuoted(t: string)
    requires t != [] && !IsSpace(t[0]) && !IsSpace(t[|t| - 1])
    requires !IsDoubleQuote(t[0]) && !IsDoubleQuote(t[|t| - 1])
    requires !IsSingleQuote(t[0]) && !IsSingleQuote(t[|t| - 1])
    ensures YamlVal("\"" + t + "\"") == YamlVal(t)
  {
    var dq := "\"" + t + "\"";
    EndsKept(dq, IsSpace);
    StripOnePair(t, '"', IsDoubleQuote);
    assert StripBy(Strip(dq), IsDoubleQuote) == t;
    EndsKept(t, IsSpace);
    EndsKept(t, IsDoubleQuote);
    assert StripBy(Strip(t), IsDoubleQuote) == t;
  }

  /** The same for single quotes. */
  lemma YamlValSingleQuoted(t: string)
    requires t != [] && !IsSpace(t[0]) && !IsSpace(t[|t| - 1])
    requires !IsDoubleQuote(t[0]) && !IsDoubleQuote(t[|t| - 1])
    requires !IsSingleQuote(t[0]) && !IsSingleQuote(t[|t| - 1])
    ensures YamlVal("'" + t + "'") == YamlVal(t)
  {
    var sq := "'" + t + "'";
    EndsKept(sq, IsSpace);
    EndsKept(sq, IsDoubleQuote);
    StripOnePair(t, '\'', IsSingleQuote);
    assert StripBy(StripBy(Strip(sq), IsDoubleQuote), IsSingleQuote) == t;
    EndsKept(t, IsSpace);
    EndsKept(t, IsDoubleQuote);
    EndsKept(t, IsSingleQuote);
    assert StripBy(StripBy(Strip(t), IsDoubleQuote), IsSingleQuote) == t;
  }

  lemma NoneDropped(s: string, drop: char -> bool)
    requires forall i :: 0 <= i < |s| ==> !drop(s[i])
    ensures StripBy(s, drop) == s
  {
  }

  /** A string whose two ends are kept is unchanged by stripping. */
  lemma EndsKept(s: string, drop: char -> bool)
    requires s != [] && !drop(s[0]) && !drop(s[|s| - 1])
    ensures StripBy(s, drop) == s
  {
  }

  /** Stripping a quote character from a quoted clean string removes exactly the quotes. */
  lemma StripOnePair(t: string, q: char, drop: char -> bool)
    requires t != [] && !drop(t[0]) && !drop(t[|t| - 1]) && drop(q)
    ensures StripBy([q] + t + [q], drop) == t
  {
    var s := [q] + t + [q];
    assert s[1..] == t + [q];
    assert LStrip(s, drop) == LStrip(t + [q], drop);
    assert (t + [q])[..|t|] == t;
  }

  // ---------------------------------------------------------------------------
  // The line matchers

  /** A `key: value` pair matched on one line. */
  datatype KeyVal = KeyVal(key: string, val: string)

  /** `s` starts with a non-empty maximal run of word characters ending at
      `k`, followed by `:`: the shape `(\w+):` matches.  (For Python's `\w`,
      `!isWord(':')` always holds.) */
  predicate KeyEndsAt(s: string, isWord: char -> bool, k: int)
  {
    0 < k < |s| && s[k] == ':' && !isWord(s[k]) && forall i :: 0 <= i < k ==> isWord(s[i])
  }

  /** `(\w+):\s*(.*)` anchored at the start of `s`: the key is the run of word
      characters, which must be non-empty and followed by `:`; the value is
      the rest of the line after the whitespace that follows the colon. */
  function MatchKeyVal(s: string, isWord: char -> bool): (m: Option<KeyVal>)
    ensures m.Some? ==> 0 < |m.value.key| < |s| && s[..|m.value.key|] == m.value.key
    ensures m.Some? ==> s[|m.value.key|] == ':'
    ensures m.Some? ==> forall i :: 0 <= i < |m.value.key| ==> isWord(m.value.key[i])
    ensures m.Some? ==> m.value.val == [] || !IsSpace(m.value.val[0])
  {
    var k := RunEnd(s, isWord, 0);
    if 0 < k < |s| && s[k] == ':' then
      var key := s[..k];
      assert forall i :: 0 <= i < |key| ==> isWord(key[i]) by {
        forall i | 0 <= i < |key| ensures isWord(key[i]) { assert key[i] == s[i]; }
      }
      Some(KeyVal(key, LStrip(s[k + 1..], IsSpace)))
    else None
  }

  /** The matcher succeeds exactly on the shape `(\w+):`, with the key that
      shape gives and the rest of the line after `\s*` as the value. */
  lemma MatchKeyValExactly(s: string, isWord: char -> bool)
    ensures MatchKeyVal(s, isWord).Some? <==> exists k :: KeyEndsAt(s, isWord, k)
    ensures forall k :: KeyEndsAt(s, isWord, k) ==>
      MatchKeyVal(s, isWord) == Some(KeyVal(s[..k], LStrip(s[k + 1..], IsSpace)))
  {
    forall k | KeyEndsAt(s, isWord, k)
      ensures MatchKeyVal(s, isWord) == Some(KeyVal(s[..k], LStrip(s[k + 1..], IsSpace)))
    {
      MatchKeyValAt(s, isWord, k);
    }
    var m := MatchKeyVal(s, isWord);
    if m.Some? {
      assert KeyEndsAt(s, isWord, |m.value.key|);
    }
  }

  lemma MatchKeyValAt(s: string, isWord: char -> bool, k: int)
    requires KeyEndsAt(s, isWord, k)
    ensures MatchKeyVal(s, isWord) == Some(KeyVal(s[..k], LStrip(s[k + 1..], IsSpace)))
  {
    RunEndIs(s, isWord, 0, k);
  }

  /** `line[..b]` is a maximal whitespace run, `-`, and a non-empty maximal
      whitespace run: the shape `\s*-\s+` matches, leaving `line[b..]`. */
  predicate ItemLead(line: string, a: int, b: int)
  {
    && 0 <= a && a + 1 < b <= |line|
    && (forall i :: 0 <= i < a ==> IsSpace(line[i]))
    && line[a] == '-'
    && (forall i :: a < i < b ==> IsSpace(line[i]))
    && (b < |line| ==> !IsSpace(line[b]))
  }

  /** `re.match(r"\s*-\s+(\w+):\s*(.*)", line)`: a list item that opens a record. */
  function MatchItem(line: string, isWord: char -> bool): Option<KeyVal>
  {
    var a := RunEnd(line, IsSpace, 0);
    if a < |line| && line[a] == '-' then
      var b := RunEnd(line, IsSpace, a + 1);
      if b > a + 1 then MatchKeyVal(line[b..], isWord) else None
    else None
  }

  /** An item match has the lead `\s*-\s+`, and is the key-value match of
      what follows it. */
  lemma MatchItemLead(line: string, isWord: char -> bool)
    ensures MatchItem(line, isWord).Some? ==>
      exists a, b :: ItemLead(line, a, b) && MatchItem(line, isWord) == MatchKeyVal(line[b..], isWord)
  {
    if MatchItem(line, isWord).Some? {
      var a := RunEnd(line, IsSpace, 0);
      var b := RunEnd(line, IsSpace, a + 1);
      assert a < |line| && line[a] == '-' && b > a + 1;
      ItemLeadOfRuns(line, a, b);
      assert MatchItem(line, isWord) == MatchKeyVal(line[b..], isWord);
    }
  }

  lemma ItemLeadOfRuns(line: string, a: nat, b: nat)
    requires a == RunEnd(line, IsSpace, 0) && a < |line| && line[a] == '-'
    requires b == RunEnd(line, IsSpace, a + 1) && b > a + 1
    ensures ItemLead(line, a, b)
  {
    assert forall i :: a < i < b ==> IsSpace(line[i]) by {
      forall i | a < i < b ensures IsSpace(line[i]) { assert a + 1 <= i; }
    }
  }

  /** Wherever the shape `\s*-\s+` matches, the item matcher is the key-value
      matcher on the rest of the line. */
  lemma MatchItemExactly(line: string, isWord: char -> bool)
    ensures forall a, b :: ItemLead(line, a, b) ==> MatchItem(line, isWord) == MatchKeyVal(line[b..], isWord)
  {
    forall a, b | ItemLead(line, a, b) ensures MatchItem(line, isWord) == MatchKeyVal(line[b..], isWord) {
      ItemLeadAt(line, a, b);
    }
  }

  /** The runs of an item's lead are the ones `RunEnd` finds. */
  lemma ItemLeadAt(line: string, a: int, b: int)
    requires ItemLead(line, a, b)
    ensures a == RunEnd(line, IsSpace, 0) && b == RunEnd(line, IsSpace, a + 1)
  {
    assert !IsSpace('-');
    RunEndIs(line, IsSpace, 0, a);
    RunEndIs(line, IsSpace, a + 1, b);
  }

  /** `line[..b]` is a non-empty maximal whitespace run: the shape `\s+` matches. */
  predicate ContLead(line: string, b: int)
  {
    0 < b <= |line| && (forall i :: 0 <= i < b ==> IsSpace(line[i])) && (b < |line| ==> !IsSpace(line[b]))
  }

  /** `re.match(r"\s+(\w+):\s*(.*)", line)`: an indented continuation key. */
  function MatchCont(line: string, isWord: char -> bool): (m: Option<KeyVal>)
    ensures m.Some? ==> exists b :: ContLead(line, b) && m == MatchKeyVal(line[b..], isWord)
  {
    var a := RunEnd(line, IsSpace, 0);
    if a > 0 then
      assert ContLead(line, a);
      MatchKeyVal(line[a..], isWord)
    else None
  }

  /** Wherever the shape `\s+` matches, the continuation matcher is the
      key-value matcher on the rest of the line. */
  lemma MatchContExactly(line: string, isWord: char -> bool)
    ensures forall b :: ContLead(line, b) ==> MatchCont(line, isWord) == MatchKeyVal(line[b..], isWord)
  {
    ContLeadUnique(line);
  }

  lemma ContLeadUnique(line: string)
    ensures forall b :: ContLead(line, b) ==> b == RunEnd(line, IsSpace, 0)
  {
    forall b | ContLead(line, b) ensures b == RunEnd(line, IsSpace, 0) {
      RunEndIs(line, IsSpace, 0, b);
    }
  }

  /** What the loop body makes of one line: the tests run in the source's
      order, so an item match wins over a continuation match. */
  datatype LineKind =
    | Blank             // empty after `rstrip`, or a `#` comment
    | Item(kv: KeyVal)  // `- key: value`
    | Cont(kv: KeyVal)  // indented `key: value`
    | Other             // anything else: ignored

  /** The tests of the loop body, in the order the source makes them. */
  function Classify(line: string, isWord: char -> bool): (k: LineKind)
    ensures var l := RStrip(line, IsSpace);
      k.Blank? <==> l == [] || StartsWith(LStrip(l, IsSpace), "#")
    ensures var l := RStrip(line, IsSpace);
      && (k.Item? ==> MatchItem(l, isWord) == Some(k.kv))
      && (k.Cont? ==> MatchItem(l, isWord).None? && MatchCont(l, isWord) == Some(k.kv))
      && (k.Other? ==> MatchItem(l, isWord).None? && MatchCont(l, isWord).None?)
  {
    var l := RStrip(line, IsSpace);
    if l == [] || StartsWith(LStrip(l, IsSpace), "#") then Blank
    else match MatchItem(l, isWord)
      case Some(kv) => Item(kv)
      case None =>
        match MatchCont(l, isWord)
        case Some(kv) => Cont(kv)
        case None => Other
  }

  function Kinds(lines: seq<string>, isWord: char -> bool): (ks: seq<LineKind>)
    ensures |ks| == |lines|
  {
    seq(|lines|, i requires 0 <= i < |lines| => Classify(lines[i], isWord))
  }

  // ---------------------------------------------------------------------------
  // `_basic_yaml_parse` as a fold over the lines

  /** The parser's state: the closed records and the record being filled. */
  datatype ParseState = ParseState(targets: seq<Record>, current: Record)

  /** One line of the loop body: an item closes a non-empty current record
      and opens a new one; a continuation sets a key of the current record. */
  function Step(st: ParseState, k: LineKind): ParseState
  {
    match k
    case Item(kv) =>
      ParseState(Finish(st), map[kv.key := YamlVal(kv.val)])
    case Cont(kv) => ParseState(st.targets, st.current[kv.key := YamlVal(kv.val)])
    case _ => st
  }

  /** The loop over the classified lines from state `st`. */
  function Run(st: ParseState, ks: seq<LineKind>): ParseState
    decreases |ks|
  {
    if |ks| == 0 then st else Run(Step(st, ks[0]), ks[1..])
  }

  /** One round of the loop, as one step of the fold. */
  lemma RunStep(st: ParseState, ks: seq<LineKind>, i: nat)
    requires i < |ks|
    ensures Run(st, ks[i..]) == Run(Step(st, ks[i]), ks[i + 1..])
  {
    assert ks[i..][1..] == ks[i + 1..];
  }

  /** Closing the current record, if it is non-empty: done by every item
      line and after the loop. */
  function Finish(st: ParseState): seq<Record>
  {
    if st.current != map[] then st.targets + [st.current] else st.targets
  }

  /** What `_basic_yaml_parse(text)["targets"]` holds. */
  function ParsedTargets(text: string, isWord: char -> bool): seq<Record>
  {
    Finish(Run(ParseState([], map[]), Kinds(Split(text, '\n'), isWord)))
  }

  /** The body of the loop of `_basic_yaml_parse` for one line. */
  method ParseLine(targets: seq<Record>, current: Record, text: string, isWord: char -> bool)
    returns (targets': seq<Record>, current': Record)
    ensures ParseState(targets', current') == Step(ParseState(targets, current), Classify(text, isWord))
  {
    ghost var k := Classify(text, isWord);
    targets', current' := targets, current;
    var line := RStrip(text, IsSpace);
    if line == [] || StartsWith(LStrip(line, IsSpace), "#") {
      // a blank or comment line is skipped
      assert k == Blank;
    } else {
      var m := MatchItem(line, isWord);
      if m.Some? {
        assert k == Item(m.value);
        if current != map[] {
          targets' := targets + [current];
        }
        current' := map[m.value.key := YamlVal(m.value.val)];
      } else {
        var c := MatchCont(line, isWord);
        if c.Some? {
          assert k == Cont(c.value);
          current' := current[c.value.key := YamlVal(c.value.val)];
        } else {
          assert k == Other;
        }
      }
    }
  }

  /** `_basic_yaml_parse`, line by line, returning its `targets` list. */
  method BasicYamlParse(text: string, isWord: char -> bool) returns (targets: seq<Record>)
    ensures targets == ParsedTargets(text, isWord)
  {
    var lines := Split(text, '\n');
    ghost var ks := Kinds(lines, isWord);
    targets := [];
    var current: Record := map[];
    var i := 0;
    while i < |lines|
      invariant 0 <= i <= |lines|
      invariant Run(ParseState(targets, current), ks[i..]) == Run(ParseState([], map[]), ks)
    {
      ghost var st := ParseState(targets, current);
      RunStep(st, ks, i);
      assert ks[i] == Classify(lines[i], isWord);
      targets, current := ParseLine(targets, current, lines[i], isWord);
      i := i + 1;
    }
    if current != map[] {
      targets := targets + [current];
    }
  }

  /** No parsed record is empty. */
  lemma {:induction false} RunKeepsRecordsNonEmpty(st: ParseState, ks: seq<LineKind>)
    requires forall i :: 0 <= i < |st.targets| ==> st.targets[i] != map[]
    ensures forall i :: 0 <= i < |Finish(Run(st, ks))| ==> Finish(Run(st, ks))[i] != map[]
    decreases |ks|
  {
    if |ks| > 0 {
      StepKeepsRecordsNonEmpty(st, ks[0]);
      RunKeepsRecordsNonEmpty(Step(st, ks[0]), ks[1..]);
    }
  }

  lemma StepKeepsRecordsNonEmpty(st: ParseState, k: LineKind)
    requires forall i :: 0 <= i < |st.targets| ==> st.targets[i] != map[]
    ensures forall i :: 0 <= i < |Step(st, k).targets| ==> Step(st, k).targets[i] != map[]
  {
    FinishKeepsRecordsNonEmpty(st);
    match k
    case Item(kv) => assert Step(st, k).targets == Finish(st);
    case _ => assert Step(st, k).targets == st.targets;
  }

  lemma FinishKeepsRecordsNonEmpty(st: ParseState)
    requires forall i :: 0 <= i < |st.targets| ==> st.targets[i] != map[]
    ensures forall i :: 0 <= i < |Finish(st)| ==> Finish(st)[i] != map[]
  {
  }

  /** Once a record is open, it stays open. */
  lemma StepKeepsOpen(st: ParseState, k: LineKind)
    requires st.current != map[]
    ensures Step(st, k).current != map[]
  {
    match k
    case Item(kv) => assert kv.key in Step(st, k).current;
    case Cont(kv) => assert kv.key in Step(st, k).current;
    case _ =>
  }

  lemma ParsedRecordsNonEmpty(text: string, isWord: char -> bool)
    ensures forall i :: 0 <= i < |ParsedTargets(text, isWord)| ==> ParsedTargets(text, isWord)[i] != map[]
  {
    RunKeepsRecordsNonEmpty(ParseState([], map[]), Kinds(Split(text, '\n'), isWord));
  }

  function CountItems(ks: seq<LineKind>): nat
    decreases |ks|
  {
    if |ks| == 0 then 0 else (if ks[0].Item? then 1 else 0) + CountItems(ks[1..])
  }

  /** Once a record is open, every later item line closes one record and the
      end of input closes the last. */
  lemma {:induction false} RunCount(st: ParseState, ks: seq<LineKind>)
    requires st.current != map[]
    ensures |Finish(Run(st, ks))| == |st.targets| + 1 + CountItems(ks)
    decreases |ks|
  {
    if |ks| > 0 {
      StepKeepsOpen(st, ks[0]);
      RunCount(Step(st, ks[0]), ks[1..]);
    }
  }

  /** A document whose first key line (after blank, comment and unmatched
      lines) is a list item yields exactly one record per `- key: value` line. */
  lemma {:induction false} OneRecordPerItem(ks: seq<LineKind>, k: nat)
    requires k < |ks| && ks[k].Item?
    requires forall j :: 0 <= j < k ==> ks[j] == Blank || ks[j] == Other
    ensures |Finish(Run(ParseState([], map[]), ks))| == CountItems(ks)
    decreases k
  {
    var st0 := ParseState([], map[]);
    if k == 0 {
      assert ks[0].kv.key in Step(st0, ks[0]).current;
      RunCount(Step(st0, ks[0]), ks[1..]);
    } else {
      assert Step(st0, ks[0]) == st0;
      OneRecordPerItem(ks[1..], k - 1);
    }
  }

  // ---------------------------------------------------------------------------
  // `load_config`: validate and fill defaults

  /** `t.setdefault(key, v)`. */
  function SetDefault(t: Record, key: string, v: Value): Record
  {
    if key in t then t else t[key := v]
  }

  /** The defaults of one target with a `host`: present fields are kept,
      `port`, `user`, `auth` and `name` are always present afterwards, and
      `key_path` is present exactly when it was already or auth is `key`. */
  function WithDefaults(t: Record, defaultKeyPath: string): (r: Record)
    requires "host" in t
    ensures forall k :: k in t ==> k in r && r[k] == t[k]
    ensures "port" in r && "user" in r && "auth" in r && "name" in r
    ensures "key_path" in r <==> "key_path" in t || r["auth"] == Str("key")
  {
    var t1 := SetDefault(t, "port", Int(22));
    var t2 := SetDefault(t1, "user", Str("root"));
    var t3 := SetDefault(t2, "auth", Str("key"));
    var t4 := SetDefault(t3, "name", t["host"]);
    if t4["auth"] == Str("key") then SetDefault(t4, "key_path", Str(defaultKeyPath)) else t4
  }

  /** The field names `load_config` touches are pairwise different. */
  lemma FieldNamesDistinct()
    ensures var names := ["host", "port", "user", "auth", "name", "key_path"];
      forall i, j :: 0 <= i < j < |names| ==> names[i] != names[j]
  {
    var names := ["host", "port", "user", "auth", "name", "key_path"];
    forall i, j | 0 <= i < j < |names| ensures names[i] != names[j] {
      assert names[i][0] != names[j][0];
    }
  }

  /** `port`, `user`, `auth` and `name` are present afterwards, with their
      defaults 22, `root`, `key` and the host when they were missing. */
  lemma WithDefaultsValues(t: Record, defaultKeyPath: string)
    requires "host" in t
    ensures var r := WithDefaults(t, defaultKeyPath);
      && r["port"] == (if "port" in t then t["port"] else Int(22))
      && r["user"] == (if "user" in t then t["user"] else Str("root"))
      && r["auth"] == (if "auth" in t then t["auth"] else Str("key"))
      && r["name"] == (if "name" in t then t["name"] else t["host"])
  {
    FieldNamesDistinct();
    var names := ["host", "port", "user", "auth", "name", "key_path"];
    assert names[1] != names[2] && names[1] != names[3] && names[2] != names[3];
    assert names[1] != names[4] && names[2] != names[4] && names[3] != names[4];
    assert names[1] != names[5] && names[2] != names[5] && names[4] != names[5];
    assert names[3] != names[5];
  }

  /** `key_path` is present afterwards exactly when it was already there or
      the (defaulted) `auth` is `key`; a filled-in `key_path` is the default one. */
  lemma WithDefaultsKeyPath(t: Record, defaultKeyPath: string)
    requires "host" in t
    ensures var r := WithDefaults(t, defaultKeyPath);
      && ("key_path" in r <==> "key_path" in t || r["auth"] == Str("key"))
      && ("key_path" in r && "key_path" !in t ==> r["key_path"] == Str(defaultKeyPath))
  {
    FieldNamesDistinct();
    var names := ["host", "port", "user", "auth", "name", "key_path"];
    assert names[1] != names[5] && names[2] != names[5] && names[3] != names[5] && names[4] != names[5];
    assert names[3] != names[4];
  }

  /** The fields afterwards: the original ones, the four defaulted ones, and
      `key_path` when `auth` is `key`. */
  lemma WithDefaultsKeys(t: Record, defaultKeyPath: string)
    requires "host" in t
    ensures var r := WithDefaults(t, defaultKeyPath);
      r.Keys == t.Keys + {"port", "user", "auth", "name"} + (if r["auth"] == Str("key") then {"key_path"} else {})
  {
    FieldNamesDistinct();
    var names := ["host", "port", "user", "auth", "name", "key_path"];
    assert names[3] != names[4];
  }

  /** Every target has a `host`. */
  predicate AllHaveHost(targets: seq<Record>)
  {
    forall i :: 0 <= i < |targets| ==> "host" in targets[i]
  }

  /** `targets[i]` is the first target without `host`. */
  predicate FirstWithoutHost(targets: seq<Record>, i: int)
  {
    0 <= i < |targets| && "host" !in targets[i] && forall j :: 0 <= j < i ==> "host" in targets[j]
  }

  /** `load_config`'s loop over the targets: the first target without `host`
      raises; otherwise every target gets its defaults. */
  method Normalise(targets: seq<Record>, defaultKeyPath: string) returns (r: Result<seq<Record>>)
    ensures r.Success? <==> AllHaveHost(targets)
    ensures r.Success? ==> |r.value| == |targets|
    ensures r.Success? ==> forall i :: 0 <= i < |targets| ==> r.value[i] == WithDefaults(targets[i], defaultKeyPath)
    ensures r.Failure? ==>
      exists i :: FirstWithoutHost(targets, i) && r.error == "Target #" + NatToString(i) + " missing 'host'"
  {
    var out: seq<Record> := [];
    var i := 0;
    while i < |targets|
      invariant 0 <= i <= |targets|
      invariant forall j :: 0 <= j < i ==> "host" in targets[j]
      invariant |out| == i
      invariant forall j :: 0 <= j < i ==> out[j] == WithDefaults(targets[j], defaultKeyPath)
    {
      var t := targets[i];
      if "host" !in t {
        assert FirstWithoutHost(targets, i);
        return Failure("Target #" + NatToString(i) + " missing 'host'");
      }
      t := SetDefault(t, "port", Int(22));
      t := SetDefault(t, "user", Str("root"));
      t := SetDefault(t, "auth", Str("key"));
      assert "host" in t && t["host"] == targets[i]["host"];
      t := SetDefault(t, "name", t["host"]);
      if t["auth"] == Str("key") {
        t := SetDefault(t, "key_path", Str(defaultKeyPath));
      }
      assert t == WithDefaults(targets[i], defaultKeyPath);
      out := out + [t];
      i := i + 1;
    }
    return Success(out);
  }

  /** `load_config` on a YAML file read by the fallback parser. */
  method LoadBasicYaml(text: string, isWord: char -> bool, defaultKeyPath: string)
    returns (r: Result<seq<Record>>)
    ensures r.Success? <==> AllHaveHost(ParsedTargets(text, isWord))
    ensures r.Success? ==> |r.value| == |ParsedTargets(text, isWord)|
    ensures r.Success? ==> forall i :: 0 <= i < |r.value| ==> "name" in r.value[i] && "host" in r.value[i]
    ensures r.Success? ==> forall i :: 0 <= i < |r.value| ==>
      r.value[i] == WithDefaults(ParsedTargets(text, isWord)[i], defaultKeyPath)
    ensures r.Failure? ==> exists i ::
      && FirstWithoutHost(ParsedTargets(text, isWord), i)
      && r.error == "Target #" + NatToString(i) + " missing 'host'"
  {
    var parsed := BasicYamlParse(text, isWord);
    r := Normalise(parsed, defaultKeyPath);
    if r.Success? {
      forall i | 0 <= i < |r.value| ensures "name" in r.value[i] && "host" in r.value[i] {
        WithDefaultsKeys(parsed[i], defaultKeyPath);
      }
    }
  }
}
