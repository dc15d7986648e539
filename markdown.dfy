/** The Markdown renderers of `collector.py`: `md_table`, which turns rows of
    cells into a pipe table, and `md_bullets`, a bullet list of the non-blank
    items. */
module Markdown {
  import opened Text

  /** Longest cell kept: `[:120]`. */
  const MaxCell: nat := 120

  /** The stand-in for a pipe inside a cell (U+2223 DIVIDES). */
  const PipeStandIn: char := '∣'

  /** The filler for a cell a short row lacks. */
  const Missing: string := "—"

  /** `s.replace(a, b)` for one character by one character. */
  function Replace(s: string, a: char, b: char): (r: string)
    ensures |r| == |s|
    ensures a != b ==> a !in r
  {
    seq(|s|, i requires 0 <= i < |s| => if s[i] == a then b else s[i])
  }

  /** `str(c).replace("|", "∣").replace("\n", " ")[:120]`. */
  function Cell(c: string): (r: string)
    ensures |r| == if |c| < MaxCell then |c| else MaxCell
    ensures '|' !in r && '\n' !in r
  {
    var t := Replace(Replace(c, '|', PipeStandIn), '\n', ' ');
    if |t| < MaxCell then t else t[..MaxCell]
  }

  /** A cell that is already short and free of pipes and newlines is kept as it is. */
  lemma CellKeepsPlainText(c: string)
    requires |c| <= MaxCell && '|' !in c && '\n' !in c
    ensures Cell(c) == c
  {
    assert Replace(c, '|', PipeStandIn) == c;
    assert Replace(c, '\n', ' ') == c;
  }

  /** Only pipes and newlines change, and only the first 120 characters stay. */
  lemma CellCharacters(c: string)
    ensures forall i :: 0 <= i < |Cell(c)| ==>
      Cell(c)[i] == (if c[i] == '|' then PipeStandIn else if c[i] == '\n' then ' ' else c[i])
  {
  }

  /** `"| " + " | ".join(cells) + " |"`. */
  function TableLine(cells: seq<string>): string
  {
    "| " + Join(cells, " | ") + " |"
  }

  /** The cells of one row: every value rendered, then `—` up to the header
      width; a longer row keeps all its cells. */
  function RowCells(row: seq<string>, width: nat): (cells: seq<string>)
  {
    seq(if |row| < width then width else |row|,
        i requires 0 <= i < (if |row| < width then width else |row|) =>
          if i < |row| then Cell(row[i]) else Missing)
  }

  function HeaderLine(headers: seq<string>): string
  {
    TableLine(headers)
  }

  function SeparatorLine(width: nat): string
  {
    TableLine(seq(width, _ => "---"))
  }

  function RowLine(width: nat, row: seq<string>): string
  {
    TableLine(RowCells(row, width))
  }

  /** The lines of a table with at least one row. */
  function TableLines(headers: seq<string>, rows: seq<seq<string>>): (ls: seq<string>)
    ensures |ls| == 2 + |rows|
  {
    [HeaderLine(headers), SeparatorLine(|headers|)]
    + seq(|rows|, i requires 0 <= i < |rows| => RowLine(|headers|, rows[i]))
  }

  /** `md_table`: the empty string for no rows, otherwise the header line, the
      `---` line and one line per row, joined with newlines. */
  method MdTable(headers: seq<string>, rows: seq<seq<string>>) returns (text: string)
    ensures rows == [] ==> text == ""
    ensures rows != [] ==> text == Join(TableLines(headers, rows), "\n")
  {
    if |rows| == 0 {
      return "";
    }
    var lines := [HeaderLine(headers), SeparatorLine(|headers|)];
    var k := 0;
    while k < |rows|
      invariant 0 <= k <= |rows|
      invariant lines == TableLines(headers, rows[..k])
    {
      var row := rows[k];
      var cells := seq(|row|, i requires 0 <= i < |row| => Cell(row[i]));
      while |cells| < |headers|
        invariant |row| <= |cells| <= (if |row| < |headers| then |headers| else |row|)
        invariant forall i :: 0 <= i < |cells| ==> cells[i] == if i < |row| then Cell(row[i]) else Missing
        decreases |headers| - |cells|
      {
        cells := cells + [Missing];
      }
      assert cells == RowCells(row, |headers|);
      assert TableLines(headers, rows[..k + 1]) == TableLines(headers, rows[..k]) + [RowLine(|headers|, row)];
      lines := lines + [TableLine(cells)];
      k := k + 1;
    }
    assert rows[..k] == rows;
    text := Join(lines, "\n");
  }

  /** A row shorter than the headers is padded with `—` to the header width;
      a longer one is not cut. */
  lemma RowWidth(row: seq<string>, width: nat)
    ensures |RowCells(row, width)| == if |row| < width then width else |row|
    ensures forall i :: 0 <= i < |row| ==> RowCells(row, width)[i] == Cell(row[i])
    ensures forall i :: |row| <= i < |RowCells(row, width)| ==> RowCells(row, width)[i] == Missing
  {
  }

  /** No rendered cell of a row holds a pipe or a newline. */
  lemma RowCellsPlain(row: seq<string>, width: nat)
    ensures forall i :: 0 <= i < |RowCells(row, width)| ==>
      '|' !in RowCells(row, width)[i] && '\n' !in RowCells(row, width)[i]
  {
    var cells := RowCells(row, width);
    forall i | 0 <= i < |cells| ensures '|' !in cells[i] && '\n' !in cells[i] {
      if i >= |row| {
        assert cells[i] == "—";
      }
    }
  }

  /** Each cell between its spaces: `" " + c + " "`. */
  function Spaced(cells: seq<string>): (r: seq<string>)
    ensures |r| == |cells|
  {
    seq(|cells|, i requires 0 <= i < |cells| => " " + cells[i] + " ")
  }

  lemma {:induction false} JoinSpaced(cells: seq<string>)
    requires |cells| >= 1
    ensures Join(Spaced(cells), "|") == " " + Join(cells, " | ") + " "
    decreases |cells|
  {
    if |cells| > 1 {
      JoinSpaced(cells[1..]);
      assert Spaced(cells)[1..] == Spaced(cells[1..]);
    }
  }

  /** A table line is its spaced cells between pipes, so splitting it at the
      pipes gives the cells back when none of them holds a pipe. */
  lemma TableLineCells(cells: seq<string>)
    requires |cells| >= 1
    requires forall i :: 0 <= i < |cells| ==> '|' !in cells[i]
    ensures Split(TableLine(cells), '|') == [""] + Spaced(cells) + [""]
  {
    var parts := [""] + Spaced(cells) + [""];
    JoinSpaced(cells);
    JoinAppend([""] + Spaced(cells), "", "|");
    assert ([""] + Spaced(cells))[1..] == Spaced(cells);
    assert Join([""] + Spaced(cells), "|") == "|" + Join(Spaced(cells), "|");
    assert TableLine(cells) == Join(parts, "|");
    forall i | 0 <= i < |parts| ensures '|' !in parts[i] {
      if 1 <= i <= |cells| {
        assert parts[i] == " " + cells[i - 1] + " ";
      }
    }
    SplitJoin(parts, '|');
  }

  /** The cells of any row can be read back from its line: the pipes the
      renderer emits are the only pipes in it. */
  lemma RowLineCells(row: seq<string>, width: nat)
    requires |row| >= 1 || width >= 1
    ensures Split(RowLine(width, row), '|') == [""] + Spaced(RowCells(row, width)) + [""]
  {
    RowCellsPlain(row, width);
    TableLineCells(RowCells(row, width));
  }

  /** The separator line has one `---` per header. */
  lemma SeparatorCells(width: nat)
    requires width >= 1
    ensures Split(SeparatorLine(width), '|') == [""] + Spaced(seq(width, _ => "---")) + [""]
  {
    TableLineCells(seq(width, _ => "---"));
  }

  /** With newline-free headers, the text splits back into exactly
      `2 + len(rows)` lines: header, separator, then the rows in order. */
  lemma TableTextLines(headers: seq<string>, rows: seq<seq<string>>)
    requires forall i :: 0 <= i < |headers| ==> '\n' !in headers[i]
    ensures Split(Join(TableLines(headers, rows), "\n"), '\n') == TableLines(headers, rows)
    ensures forall k :: 0 <= k < |rows| ==> TableLines(headers, rows)[2 + k] == RowLine(|headers|, rows[k])
  {
    var ls := TableLines(headers, rows);
    JoinAvoids(headers, " | ", '\n');
    JoinAvoids(seq(|headers|, _ => "---"), " | ", '\n');
    forall k | 0 <= k < |ls| ensures '\n' !in ls[k] {
      if k >= 2 {
        RowCellsPlain(rows[k - 2], |headers|);
        JoinAvoids(RowCells(rows[k - 2], |headers|), " | ", '\n');
      }
    }
    SplitJoin(ls, '\n');
  }

  // ---------------------------------------------------------------------------
  // `md_bullets`

  /** `s.strip()` is truthy: something other than whitespace is in `s`. */
  predicate Filled(s: string)
  {
    Strip(s) != ""
  }

  /** The items `keep` accepts, in order. */
  function Filter(items: seq<string>, keep: string -> bool): (r: seq<string>)
    ensures |r| <= |items|
    decreases |items|
  {
    if |items| == 0 then []
    else (if keep(items[0]) then [items[0]] else []) + Filter(items[1..], keep)
  }

  /** The items with something other than whitespace in them, in order. */
  function NonBlank(items: seq<string>): seq<string>
  {
    Filter(items, Filled)
  }

  /** The bullet lines: `"- " + item` for every non-blank item. */
  function Bullets(items: seq<string>): (ls: seq<string>)
  {
    Prefixed(NonBlank(items))
  }

  /** `"- " + item` for every item. */
  function Prefixed(kept: seq<string>): (ls: seq<string>)
  {
    seq(|kept|, i requires 0 <= i < |kept| => "- " + kept[i])
  }

  lemma PrefixedAppend(x: seq<string>, y: seq<string>)
    ensures Prefixed(x + y) == Prefixed(x) + Prefixed(y)
  {
    var l, r := Prefixed(x + y), Prefixed(x) + Prefixed(y);
    forall i | 0 <= i < |l| ensures l[i] == r[i] {
      if i < |x| {
        assert l[i] == "- " + x[i];
      } else {
        assert l[i] == "- " + y[i - |x|];
      }
    }
  }

  /** `md_bullets`. */
  function MdBullets(items: seq<string>): (r: string)
    ensures r == "" <==> NonBlank(items) == []
    ensures NonBlank(items) != [] ==> StartsWith(r, "- " + NonBlank(items)[0])
  {
    BulletsHead(items);
    Join(Bullets(items), "\n")
  }

  lemma BulletsHead(items: seq<string>)
    ensures Bullets(items) == [] <==> NonBlank(items) == []
    ensures NonBlank(items) != [] ==> StartsWith(Join(Bullets(items), "\n"), "- " + NonBlank(items)[0])
  {
    var ls := Bullets(items);
    if ls != [] {
      assert ls[0] == "- " + NonBlank(items)[0];
      JoinHead(ls, "\n");
    }
  }

  /** A join starts with its first part. */
  lemma JoinHead(parts: seq<string>, sep: string)
    requires parts != []
    ensures StartsWith(Join(parts, sep), parts[0])
  {
    if |parts| > 1 {
      assert (parts[0] + sep + Join(parts[1..], sep))[..|parts[0]|] == parts[0];
    }
  }

  /** The kept items are exactly the accepted ones. */
  lemma {:induction false} FilterMembers(items: seq<string>, keep: string -> bool)
    ensures forall x :: x in Filter(items, keep) <==> x in items && keep(x)
    decreases |items|
  {
    if |items| > 0 {
      FilterMembers(items[1..], keep);
      assert items == [items[0]] + items[1..];
    }
  }

  /** Filtering commutes with concatenation, so the kept items keep their order. */
  lemma {:induction false} FilterAppend(a: seq<string>, b: seq<string>, keep: string -> bool)
    ensures Filter(a + b, keep) == Filter(a, keep) + Filter(b, keep)
    decreases |a|
  {
    if |a| == 0 {
      assert a + b == b;
    } else {
      var head := if keep(a[0]) then [a[0]] else [];
      assert (a + b)[0] == a[0] && (a + b)[1..] == a[1..] + b;
      FilterAppend(a[1..], b, keep);
      assert Filter(a + b, keep) == head + (Filter(a[1..], keep) + Filter(b, keep));
      assert Filter(a, keep) == head + Filter(a[1..], keep);
      assert head + (Filter(a[1..], keep) + Filter(b, keep)) == (head + Filter(a[1..], keep)) + Filter(b, keep);
    }
  }

  /** The bullets are exactly the non-blank items; blank ones are skipped. */
  lemma NonBlankMembers(items: seq<string>)
    ensures forall x :: x in NonBlank(items) <==> x in items && Strip(x) != ""
  {
    FilterMembers(items, Filled);
  }

  /** Bullets of concatenated lists are the concatenated bullets: input order is kept. */
  lemma BulletsAppend(a: seq<string>, b: seq<string>)
    ensures Bullets(a + b) == Bullets(a) + Bullets(b)
  {
    FilterAppend(a, b, Filled);
    PrefixedAppend(NonBlank(a), NonBlank(b));
  }

  /** One item gives one bullet exactly when it is not blank. */
  lemma BulletsSingle(x: string)
    ensures Bullets([x]) == if Strip(x) != "" then ["- " + x] else []
  {
    assert [x][1..] == [];
  }

  /** No bullets: the empty string. With newline-free items the text splits
      back into one `"- "` line per non-blank item. */
  lemma BulletText(items: seq<string>)
    requires forall i :: 0 <= i < |items| ==> '\n' !in items[i]
    ensures NonBlank(items) == [] ==> MdBullets(items) == ""
    ensures NonBlank(items) != [] ==> Split(MdBullets(items), '\n') == Bullets(items)
    ensures forall k :: 0 <= k < |Bullets(items)| ==>
      Bullets(items)[k][..2] == "- " && Strip(Bullets(items)[k][2..]) != ""
  {
    var bs := Bullets(items);
    var kept := NonBlank(items);
    NonBlankMembers(items);
    forall k | 0 <= k < |bs| ensures '\n' !in bs[k] && bs[k][..2] == "- " && Strip(bs[k][2..]) != "" {
      assert kept[k] in kept;
      assert bs[k][2..] == kept[k];
    }
    if kept != [] {
      SplitJoin(bs, '\n');
    }
  }
}
