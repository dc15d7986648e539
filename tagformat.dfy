/** What `TagStore.format_tags` in `collector.py` renders, stated on the
    store's contents (category -> set of tags): categories sharing a display
    label are merged, the labels of `_CAT_ORDER` come first in that order,
    the remaining categories follow sorted by label, and a closing
    `**All (n):**` line lists every tag once. */
module TagFormat {
  import opened Text

  datatype Option<T> = None | Some(value: T)

  /** The store's contents: category -> tags. */
  type Tags = map<string, set<string>>

  /** `d.get(k, set())`. */
  function Get(m: Tags, k: string): set<string>
  {
    if k in m then m[k] else {}
  }

  /** Every (category, tag) pair the store holds. */
  function Pairs(tags: Tags): set<(string, string)>
  {
    set c, t | c in tags && t in tags[c] :: (c, t)
  }

  /** Every tag the store holds, whatever its category. */
  function AllTags(tags: Tags): set<string>
  {
    set c, t | c in tags && t in tags[c] :: t
  }

  /** `_CAT_ORDER`: each category with its display label. */
  const CatOrder: seq<(string, string)> := [
    ("Containers",     "\U{1F433} Containers & Orchestration"),
    ("Orchestration",  "\U{1F433} Containers & Orchestration"),
    ("Languages",      "\U{1F4BB} Programming Languages"),
    ("Databases",      "\U{1F5C4}\U{FE0F} Databases"),
    ("Caching",        "\U{26A1} Caching & KV Stores"),
    ("MessageBrokers", "\U{1F4E8} Message Brokers & IoT"),
    ("ReverseProxy",   "\U{1F310} Web & Reverse Proxy"),
    ("WebServers",     "\U{1F310} Web & Reverse Proxy"),
    ("Cloud",          "\U{2601}\U{FE0F} Cloud Platforms"),
    ("DevOps",         "\U{1F527} DevOps & IaC"),
    ("IaC",            "\U{1F527} DevOps & IaC"),
    ("CI_CD",          "\U{1F680} CI/CD"),
    ("Monitoring",     "\U{1F4CA} Monitoring & Observability"),
    ("Networking",     "\U{1F517} Networking & DNS"),
    ("Security",       "\U{1F6E1}\U{FE0F} Security"),
    ("Virtualization", "\U{1F5A5}\U{FE0F} Virtualization"),
    ("Storage",        "\U{1F4BE} Storage"),
    ("Applications",   "\U{1F4E6} Self-Hosted Applications"),
    ("CLI",            "\U{1F528} CLI Tooling")
  ]

  /** The label of a category `_CAT_ORDER` does not know: `f"🏷️ {cat}"`. */
  const UntaggedPrefix: string := "\U{1F3F7}\U{FE0F} "

  function Untagged(cat: string): (l: string)
    ensures |l| == |UntaggedPrefix| + |cat|
    ensures l[..|UntaggedPrefix|] == UntaggedPrefix && l[|UntaggedPrefix|..] == cat
  {
    UntaggedPrefix + cat
  }

  /** The categories an order names. */
  function CatsOf(order: seq<(string, string)>): set<string>
  {
    set j | 0 <= j < |order| :: order[j].0
  }

  /** The labels an order names, in order. */
  function LabelsOf(order: seq<(string, string)>): (ls: seq<string>)
    ensures |ls| == |order|
  {
    seq(|order|, j requires 0 <= j < |order| => order[j].1)
  }

  /** The label of the first pair of `order` naming `cat`. */
  function FindLabel(order: seq<(string, string)>, cat: string): (r: Option<string>)
    ensures r.None? <==> cat !in CatsOf(order)
    decreases |order|
  {
    if |order| == 0 then None
    else if order[0].0 == cat then Some(order[0].1)
    else
      var r := FindLabel(order[1..], cat);
      assert CatsOf(order) == {order[0].0} + CatsOf(order[1..]) by {
        forall c | c in CatsOf(order) ensures c in {order[0].0} + CatsOf(order[1..]) {
          var j :| 0 <= j < |order| && order[j].0 == c;
          if j > 0 {
            assert order[1..][j - 1].0 == c;
          }
        }
        forall c | c in CatsOf(order[1..]) ensures c in CatsOf(order) {
          var j :| 0 <= j < |order| - 1 && order[1..][j].0 == c;
          assert order[j + 1].0 == c;
        }
      }
      r
  }

  /** The label a category is shown under, given the order of labels. */
  function LabelIn(order: seq<(string, string)>, cat: string): string
  {
    match FindLabel(order, cat)
    case Some(l) => l
    case None => Untagged(cat)
  }

  /** The label a category is shown under. */
  function LabelOf(cat: string): string
  {
    LabelIn(CatOrder, cat)
  }

  /** The label at the first pair naming a category is its label. */
  lemma {:induction false} FindLabelAt(order: seq<(string, string)>, i: nat)
    requires i < |order| && order[i].0 !in CatsOf(order[..i])
    ensures FindLabel(order, order[i].0) == Some(order[i].1)
    decreases i
  {
    if i > 0 {
      assert order[0].0 in CatsOf(order[..i]);
      assert order[1..][..i - 1] == order[..i][1..];
      forall c | c in CatsOf(order[1..][..i - 1]) ensures c in CatsOf(order[..i]) {
        var j :| 0 <= j < i - 1 && order[1..][..i - 1][j].0 == c;
        assert order[..i][j + 1].0 == c;
      }
      FindLabelAt(order[1..], i - 1);
    }
  }

  /** `FindLabel` answers with a label of the order. */
  lemma {:induction false} FindLabelIn(order: seq<(string, string)>, cat: string)
    requires FindLabel(order, cat).Some?
    ensures FindLabel(order, cat).value in LabelsOf(order)
    decreases |order|
  {
    if order[0].0 != cat {
      FindLabelIn(order[1..], cat);
      var j :| 0 <= j < |order| - 1 && LabelsOf(order[1..])[j] == FindLabel(order, cat).value;
      assert LabelsOf(order)[j + 1] == LabelsOf(order[1..])[j];
    } else {
      assert LabelsOf(order)[0] == order[0].1;
    }
  }

  /** No label of `_CAT_ORDER` looks like the label of an unknown category. */
  lemma CatLabelsNotUntagged()
    ensures forall j :: 0 <= j < |CatOrder| ==> |CatOrder[j].1| > 0 && CatOrder[j].1[0] != UntaggedPrefix[0]
  {
  }

  /** An unknown category's label is not a label of `_CAT_ORDER`. */
  lemma UntaggedNotInOrder(cat: string)
    ensures Untagged(cat) !in LabelsOf(CatOrder)
  {
    CatLabelsNotUntagged();
    forall j | 0 <= j < |CatOrder| ensures LabelsOf(CatOrder)[j] != Untagged(cat) {
      assert Untagged(cat)[0] == UntaggedPrefix[0];
    }
  }

  // ---------------------------------------------------------------------------
  // Merging categories that share a label

  /** The labels of the categories in `done`. */
  function MergedLabels(tags: Tags, done: set<string>, lab: string -> string): set<string>
  {
    set c | c in tags && c in done :: lab(c)
  }

  /** The tags of the categories in `done` that carry label `l`. */
  function LabelTags(tags: Tags, done: set<string>, lab: string -> string, l: string): set<string>
  {
    set c, t | c in tags && c in done && lab(c) == l && t in tags[c] :: t
  }

  /** The `merged` dictionary once the categories in `done` are folded in:
      each label maps to the union of the tags of its categories. */
  function MergedOver(tags: Tags, done: set<string>, lab: string -> string): Tags
  {
    var labels := MergedLabels(tags, done, lab);
    map l | l in labels :: LabelTags(tags, done, lab, l)
  }

  /** `merged` after both loops of `format_tags`. */
  function MergedTags(tags: Tags): Tags
  {
    MergedOver(tags, tags.Keys, LabelOf)
  }

  /** Folding one more category adds its tags under its label. */
  lemma MergedStep(tags: Tags, done: set<string>, lab: string -> string, c: string)
    requires c in tags && c !in done
    ensures MergedOver(tags, done + {c}, lab)
      == MergedOver(tags, done, lab)[lab(c) := Get(MergedOver(tags, done, lab), lab(c)) + tags[c]]
  {
    var a := MergedOver(tags, done, lab);
    var b := MergedOver(tags, done + {c}, lab);
    var e := a[lab(c) := Get(a, lab(c)) + tags[c]];
    assert MergedLabels(tags, done + {c}, lab) == MergedLabels(tags, done, lab) + {lab(c)};
    assert b.Keys == e.Keys;
    forall l | l in b ensures b[l] == e[l] {
      if l == lab(c) {
        assert LabelTags(tags, done + {c}, lab, l) == LabelTags(tags, done, lab, l) + tags[c];
      } else {
        assert LabelTags(tags, done + {c}, lab, l) == LabelTags(tags, done, lab, l);
      }
    }
  }

  /** Only the categories of the store matter. */
  lemma MergedOverCovers(tags: Tags, done: set<string>, lab: string -> string)
    requires tags.Keys <= done
    ensures MergedOver(tags, done, lab) == MergedOver(tags, tags.Keys, lab)
  {
    assert MergedLabels(tags, done, lab) == MergedLabels(tags, tags.Keys, lab);
    forall l ensures LabelTags(tags, done, lab, l) == LabelTags(tags, tags.Keys, lab, l) {
    }
  }

  /** Folding a category already folded changes nothing. */
  lemma MergedAgain(tags: Tags, done: set<string>, lab: string -> string, c: string)
    requires c in done
    ensures MergedOver(tags, done + {c}, lab) == MergedOver(tags, done, lab)
  {
    assert done + {c} == done;
  }

  /** A label is merged exactly when some category of the store carries it,
      and its tags are exactly the tags of the categories carrying it. */
  lemma MergedMembers(tags: Tags, lab: string -> string)
    ensures var m := MergedOver(tags, tags.Keys, lab);
      forall l :: l in m <==> exists c :: c in tags && lab(c) == l
    ensures var m := MergedOver(tags, tags.Keys, lab);
      forall c, t :: c in tags && t in tags[c] ==> t in m[lab(c)]
    ensures var m := MergedOver(tags, tags.Keys, lab);
      forall l, t :: l in m && t in m[l] ==> exists c :: c in tags && lab(c) == l && t in tags[c]
  {
  }

  // ---------------------------------------------------------------------------
  // Emitting the blocks

  /** One `**label**` block: its label and its sorted tags. */
  datatype Block = Block(heading: string, tags: seq<string>)

  function BlockLabels(bs: seq<Block>): (ls: seq<string>)
    ensures |ls| == |bs|
  {
    seq(|bs|, k requires 0 <= k < |bs| => bs[k].heading)
  }

  /** `a` is `b` with some elements left out. */
  predicate IsSubseq(a: seq<string>, b: seq<string>)
    decreases |b|
  {
    if |a| == 0 then true
    else if |b| == 0 then false
    else if a[0] == b[0] then IsSubseq(a[1..], b[1..])
    else IsSubseq(a, b[1..])
  }

  /** The loop over `_CAT_ORDER` that pops every label with tags: the blocks
      it emits and what stays in `merged`. */
  ghost function Emit(order: seq<(string, string)>, m: Tags): (seq<Block>, Tags)
    decreases |order|
  {
    if |order| == 0 then ([], m)
    else
      var l := order[0].1;
      if l in m && m[l] != {} then
        var r := Emit(order[1..], m - {l});
        ([Block(l, SortedSet(m[l]))] + r.0, r.1)
      else Emit(order[1..], m)
  }

  /** What stays in `merged` is part of it, and holds no label of the order
      with tags; every label that left it was emitted. */
  lemma {:induction false} EmitRest(order: seq<(string, string)>, m: Tags)
    ensures var e := Emit(order, m);
      forall l :: l in e.1 ==> l in m && e.1[l] == m[l]
    ensures var e := Emit(order, m);
      forall l :: l in m && l !in e.1 ==> exists k :: 0 <= k < |e.0| && e.0[k].heading == l
    ensures var e := Emit(order, m);
      forall j :: 0 <= j < |order| && order[j].1 in e.1 ==> e.1[order[j].1] == {}
    decreases |order|
  {
    if |order| > 0 {
      var l := order[0].1;
      var e := Emit(order, m);
      if l in m && m[l] != {} {
        var m' := m - {l};
        var r := Emit(order[1..], m');
        EmitRest(order[1..], m');
        assert e.0 == [Block(l, SortedSet(m[l]))] + r.0 && e.1 == r.1;
        assert e.0[0].heading == l;
        forall x | x in m && x !in e.1 ensures exists k :: 0 <= k < |e.0| && e.0[k].heading == x {
          if x != l {
            var k :| 0 <= k < |r.0| && r.0[k].heading == x;
            assert e.0[k + 1].heading == x;
          }
        }
        forall j | 0 <= j < |order| && order[j].1 in e.1 ensures e.1[order[j].1] == {} {
          if j > 0 {
            assert order[1..][j - 1].1 == order[j].1;
          }
        }
      } else {
        EmitRest(order[1..], m);
        forall j | 0 <= j < |order| && order[j].1 in e.1 ensures e.1[order[j].1] == {} {
          if j > 0 {
            assert order[1..][j - 1].1 == order[j].1;
          }
        }
      }
    }
  }

  /** Each block shows a label of `m` with tags, its tags sorted, and the
      label is no longer in `rest`. */
  ghost predicate BlocksFrom(bs: seq<Block>, m: Tags, rest: Tags)
  {
    forall k :: 0 <= k < |bs| ==>
      bs[k].heading in m && m[bs[k].heading] != {}
      && bs[k].tags == SortedSet(m[bs[k].heading]) && bs[k].heading !in rest
  }

  /** No label heads two blocks. */
  predicate DistinctHeadings(bs: seq<Block>)
  {
    forall k1, k2 :: 0 <= k1 < k2 < |bs| ==> bs[k1].heading != bs[k2].heading
  }

  /** Every emitted block is a label of `merged` with tags, shown with its
      tags sorted, and it has left `merged`. */
  lemma {:induction false} EmitBlocks(order: seq<(string, string)>, m: Tags)
    ensures BlocksFrom(Emit(order, m).0, m, Emit(order, m).1)
    decreases |order|
  {
    if |order| > 0 {
      var l := order[0].1;
      var e := Emit(order, m);
      if l in m && m[l] != {} {
        var m' := m - {l};
        var r := Emit(order[1..], m');
        EmitBlocks(order[1..], m');
        EmitRest(order[1..], m');
        assert e.0 == [Block(l, SortedSet(m[l]))] + r.0 && e.1 == r.1;
        forall k | 0 <= k < |e.0| ensures e.0[k].heading in m && m[e.0[k].heading] != {}
          && e.0[k].tags == SortedSet(m[e.0[k].heading]) && e.0[k].heading !in e.1
        {
          if k > 0 {
            assert e.0[k] == r.0[k - 1];
          }
        }
      } else {
        assert e == Emit(order[1..], m);
        EmitBlocks(order[1..], m);
      }
    }
  }

  /** No label is emitted twice. */
  lemma {:induction false} EmitDistinct(order: seq<(string, string)>, m: Tags)
    ensures DistinctHeadings(Emit(order, m).0)
    decreases |order|
  {
    if |order| > 0 {
      var l := order[0].1;
      var e := Emit(order, m);
      if l in m && m[l] != {} {
        var m' := m - {l};
        var r := Emit(order[1..], m');
        EmitDistinct(order[1..], m');
        EmitBlocks(order[1..], m');
        assert e.0 == [Block(l, SortedSet(m[l]))] + r.0;
        forall k1, k2 | 0 <= k1 < k2 < |e.0| ensures e.0[k1].heading != e.0[k2].heading {
          assert e.0[k2] == r.0[k2 - 1];
          assert r.0[k2 - 1].heading in m';
          if k1 > 0 {
            assert e.0[k1] == r.0[k1 - 1];
          }
        }
      } else {
        assert e == Emit(order[1..], m);
        EmitDistinct(order[1..], m);
      }
    }
  }

  /** The emitted labels come in the order's order. */
  lemma {:induction false} EmitInOrder(order: seq<(string, string)>, m: Tags)
    ensures IsSubseq(BlockLabels(Emit(order, m).0), LabelsOf(order))
    decreases |order|
  {
    if |order| > 0 {
      var l := order[0].1;
      var e := Emit(order, m);
      var b := LabelsOf(order);
      assert b[1..] == LabelsOf(order[1..]);
      if l in m && m[l] != {} {
        var r := Emit(order[1..], m - {l});
        EmitInOrder(order[1..], m - {l});
        assert e.0 == [Block(l, SortedSet(m[l]))] + r.0;
        var a := BlockLabels(e.0);
        assert a[0] == b[0];
        assert a[1..] == BlockLabels(r.0);
      } else {
        assert e == Emit(order[1..], m);
        EmitInOrder(order[1..], m);
        SubseqDropHead(BlockLabels(e.0), b);
      }
    }
  }

  /** A subsequence of the tail is a subsequence of the whole. */
  lemma {:induction false} SubseqDropHead(a: seq<string>, b: seq<string>)
    requires |b| > 0 && IsSubseq(a, b[1..])
    ensures IsSubseq(a, b)
    decreases |b|, 0
  {
    if |a| > 0 && a[0] == b[0] {
      SubseqTail(a, b[1..]);
    }
  }

  /** Dropping the head of a subsequence keeps it a subsequence. */
  lemma {:induction false} SubseqTail(a: seq<string>, b: seq<string>)
    requires |a| > 0 && IsSubseq(a, b)
    ensures IsSubseq(a[1..], b)
    decreases |b|, 1
  {
    if a[0] != b[0] {
      SubseqTail(a, b[1..]);
    }
    SubseqDropHead(a[1..], b);
  }

  // ---------------------------------------------------------------------------
  // The leftover labels

  /** `sorted(s)` lists exactly the members of `s`. */
  lemma SortedSetMembers(s: set<string>)
    ensures forall x :: x in SortedSet(s) <==> x in s
  {
    var xs := SortedSet(s);
    assert (set x | x in xs) == s;
  }

  /** The loop over `sorted(merged.items())`: a block for each remaining
      label with tags, in the given order. */
  ghost function Leftover(rest: Tags, labels: seq<string>): seq<Block>
    requires forall j :: 0 <= j < |labels| ==> labels[j] in rest
    decreases |labels|
  {
    if |labels| == 0 then []
    else
      var n := |labels| - 1;
      Leftover(rest, labels[..n])
      + (if rest[labels[n]] != {} then [Block(labels[n], SortedSet(rest[labels[n]]))] else [])
  }

  /** Each block shows a label of the list with tags, its tags sorted. */
  ghost predicate LeftoverFrom(bs: seq<Block>, rest: Tags, labels: seq<string>)
  {
    forall k :: 0 <= k < |bs| ==>
      bs[k].heading in labels && bs[k].heading in rest && rest[bs[k].heading] != {}
      && bs[k].tags == SortedSet(rest[bs[k].heading])
  }

  /** Every leftover block is a listed label with tags. */
  lemma {:induction false} LeftoverBlocks(rest: Tags, labels: seq<string>)
    requires forall j :: 0 <= j < |labels| ==> labels[j] in rest
    ensures LeftoverFrom(Leftover(rest, labels), rest, labels)
    decreases |labels|
  {
    if |labels| > 0 {
      var n := |labels| - 1;
      var p := Leftover(rest, labels[..n]);
      var bs := Leftover(rest, labels);
      LeftoverBlocks(rest, labels[..n]);
      forall k | 0 <= k < |bs| ensures bs[k].heading in labels && bs[k].heading in rest
        && rest[bs[k].heading] != {} && bs[k].tags == SortedSet(rest[bs[k].heading])
      {
        if k < |p| {
          assert bs[k] == p[k];
          var j :| 0 <= j < n && labels[..n][j] == p[k].heading;
          assert labels[j] == p[k].heading;
        }
      }
    }
  }

  /** Every listed label with tags gets a leftover block. */
  lemma {:induction false} LeftoverComplete(rest: Tags, labels: seq<string>)
    requires forall j :: 0 <= j < |labels| ==> labels[j] in rest
    ensures forall j :: 0 <= j < |labels| && rest[labels[j]] != {} ==>
      labels[j] in BlockLabels(Leftover(rest, labels))
    decreases |labels|
  {
    if |labels| > 0 {
      var n := |labels| - 1;
      var p := Leftover(rest, labels[..n]);
      var bs := Leftover(rest, labels);
      LeftoverComplete(rest, labels[..n]);
      assert bs == p + (if rest[labels[n]] != {} then [Block(labels[n], SortedSet(rest[labels[n]]))] else []);
      assert BlockLabels(bs)[..|p|] == BlockLabels(p);
      forall j | 0 <= j < |labels| && rest[labels[j]] != {}
        ensures labels[j] in BlockLabels(bs)
      {
        if j < n {
          assert labels[..n][j] == labels[j];
          assert labels[j] in BlockLabels(p);
        } else {
          assert BlockLabels(bs)[|p|] == labels[n];
        }
      }
    }
  }

  /** Sorted labels give sorted blocks. */
  lemma {:induction false} LeftoverSorted(rest: Tags, labels: seq<string>)
    requires forall j :: 0 <= j < |labels| ==> labels[j] in rest
    requires StrictlySorted(labels)
    ensures StrictlySorted(BlockLabels(Leftover(rest, labels)))
    decreases |labels|
  {
    if |labels| > 0 {
      var n := |labels| - 1;
      var p := Leftover(rest, labels[..n]);
      var bs := Leftover(rest, labels);
      LeftoverSorted(rest, labels[..n]);
      LeftoverBlocks(rest, labels[..n]);
      var hs := BlockLabels(bs);
      forall k1, k2 | 0 <= k1 < k2 < |hs| ensures LexLess(hs[k1], hs[k2]) {
        assert bs[k1] == p[k1];
        if k2 < |p| {
          assert bs[k2] == p[k2];
          assert BlockLabels(p)[k1] == hs[k1] && BlockLabels(p)[k2] == hs[k2];
        } else {
          var j :| 0 <= j < n && labels[..n][j] == p[k1].heading;
          assert hs[k1] == labels[j] && hs[k2] == labels[n];
        }
      }
    }
  }

  // ---------------------------------------------------------------------------
  // The rendered text

  /** `", ".join(f"`{t}`" for t in ts)`. */
  function TagList(ts: seq<string>): string
  {
    Join(seq(|ts|, i requires 0 <= i < |ts| => "`" + ts[i] + "`"), ", ")
  }

  /** The three lines of a block: bold label, tag list, blank line. */
  function BlockLines(b: Block): seq<string>
  {
    ["**" + b.heading + "**", TagList(b.tags), ""]
  }

  /** The lines of a sequence of blocks. */
  function LinesOf(bs: seq<Block>): (ls: seq<string>)
    ensures |ls| == 3 * |bs|
    decreases |bs|
  {
    if |bs| == 0 then [] else LinesOf(bs[..|bs| - 1]) + BlockLines(bs[|bs| - 1])
  }

  /** `flat_all`: the tags of the blocks one after the other. */
  function FlatOf(bs: seq<Block>): seq<string>
    decreases |bs|
  {
    if |bs| == 0 then [] else FlatOf(bs[..|bs| - 1]) + bs[|bs| - 1].tags
  }

  /** `**All (n):**` with `n = len(flat_all)`, then every tag once, sorted. */
  ghost function SummaryLine(flat: seq<string>): string
  {
    "**All (" + NatToString(|flat|) + "):** " + TagList(SortedSet(set t | t in flat))
  }

  /** The blocks for a merged map: the labels of `order` first, then the
      rest by label. */
  ghost function BlocksOf(order: seq<(string, string)>, m: Tags): seq<Block>
  {
    var e := Emit(order, m);
    SortedSetMembers(e.1.Keys);
    e.0 + Leftover(e.1, SortedSet(e.1.Keys))
  }

  /** All blocks: the labels of `_CAT_ORDER` first, then the rest by label. */
  ghost function Blocks(tags: Tags): seq<Block>
  {
    BlocksOf(CatOrder, MergedTags(tags))
  }

  /** The lines of the blocks, the rule and the closing line, joined. */
  ghost function TextOf(bs: seq<Block>): string
  {
    Join(LinesOf(bs) + ["---", SummaryLine(FlatOf(bs))], "\n")
  }

  /** The text `format_tags` returns. */
  ghost function FormatText(tags: Tags): string
  {
    if tags == map[] then "" else TextOf(Blocks(tags))
  }

  // ---------------------------------------------------------------------------
  // What the rendering promises

  /** An unknown category is shown under its own label, with its own tags. */
  lemma MergedUnknown(tags: Tags, c: string)
    requires c in tags && c !in CatsOf(CatOrder)
    ensures Untagged(c) in MergedTags(tags) && MergedTags(tags)[Untagged(c)] == tags[c]
  {
    assert LabelOf(c) == Untagged(c);
    MergedMembers(tags, LabelOf);
    forall c' | c' in tags && LabelOf(c') == Untagged(c) ensures c' == c {
      UntaggedNotInOrder(c);
      if FindLabel(CatOrder, c').Some? {
        FindLabelIn(CatOrder, c');
      } else {
        assert Untagged(c')[|UntaggedPrefix|..] == c';
      }
    }
  }

  /** The tags of the blocks, one after the other, are the tags of all blocks. */
  lemma {:induction false} FlatMembers(bs: seq<Block>)
    ensures forall t :: t in FlatOf(bs) <==> exists k :: 0 <= k < |bs| && t in bs[k].tags
    decreases |bs|
  {
    if |bs| > 0 {
      var n := |bs| - 1;
      FlatMembers(bs[..n]);
      forall t | t in FlatOf(bs) ensures exists k :: 0 <= k < |bs| && t in bs[k].tags {
        if t in FlatOf(bs[..n]) {
          var k :| 0 <= k < n && t in bs[..n][k].tags;
          assert bs[k] == bs[..n][k];
        }
      }
      forall t, k | 0 <= k < |bs| && t in bs[k].tags ensures t in FlatOf(bs) {
        if k < n {
          assert bs[..n][k] == bs[k];
        }
      }
    }
  }

  /** Every tag of any label of a map. */
  function Values(m: Tags): set<string>
  {
    set l, t | l in m && t in m[l] :: t
  }

  /** Merging keeps every tag and invents none. */
  lemma MergedValues(tags: Tags, lab: string -> string)
    ensures Values(MergedOver(tags, tags.Keys, lab)) == AllTags(tags)
  {
    var m := MergedOver(tags, tags.Keys, lab);
    forall t | t in AllTags(tags) ensures t in Values(m) {
      var c :| c in tags && t in tags[c];
      assert lab(c) in MergedLabels(tags, tags.Keys, lab);
      assert t in LabelTags(tags, tags.Keys, lab, lab(c));
      assert t in m[lab(c)];
    }
  }

  /** Every block shows a label of `m` with tags, and its tags sorted. */
  lemma BlocksTags(order: seq<(string, string)>, m: Tags)
    ensures var bs := BlocksOf(order, m);
      forall k :: 0 <= k < |bs| ==>
        bs[k].heading in m && m[bs[k].heading] != {} && bs[k].tags == SortedSet(m[bs[k].heading])
  {
    var e := Emit(order, m);
    SortedSetMembers(e.1.Keys);
    var labels := SortedSet(e.1.Keys);
    var lo := Leftover(e.1, labels);
    var bs := BlocksOf(order, m);
    assert bs == e.0 + lo;
    EmitBlocks(order, m);
    EmitRest(order, m);
    LeftoverBlocks(e.1, labels);
    forall k | 0 <= k < |bs|
      ensures bs[k].heading in m && m[bs[k].heading] != {} && bs[k].tags == SortedSet(m[bs[k].heading])
    {
      if k < |e.0| {
        assert bs[k] == e.0[k];
      } else {
        assert bs[k] == lo[k - |e.0|];
      }
    }
  }

  /** Every label of `m` with tags gets a block. */
  lemma BlocksComplete(order: seq<(string, string)>, m: Tags)
    ensures forall l :: l in m && m[l] != {} ==> l in BlockLabels(BlocksOf(order, m))
  {
    var e := Emit(order, m);
    SortedSetMembers(e.1.Keys);
    var labels := SortedSet(e.1.Keys);
    var lo := Leftover(e.1, labels);
    var bs := BlocksOf(order, m);
    assert bs == e.0 + lo;
    EmitRest(order, m);
    LeftoverComplete(e.1, labels);
    forall l | l in m && m[l] != {} ensures l in BlockLabels(bs) {
      if l in e.1 {
        var j :| 0 <= j < |labels| && labels[j] == l;
        var k :| 0 <= k < |lo| && BlockLabels(lo)[k] == l;
        assert BlockLabels(bs)[|e.0| + k] == l;
      } else {
        var k :| 0 <= k < |e.0| && e.0[k].heading == l;
        assert BlockLabels(bs)[k] == l;
      }
    }
  }

  /** The blocks show every tag of `m` and no other. */
  lemma BlocksShowValues(order: seq<(string, string)>, m: Tags)
    ensures (set t | t in FlatOf(BlocksOf(order, m))) == Values(m)
  {
    var bs := BlocksOf(order, m);
    FlatMembers(bs);
    BlocksTags(order, m);
    BlocksComplete(order, m);
    forall t | t in FlatOf(bs) ensures t in Values(m) {
      var k :| 0 <= k < |bs| && t in bs[k].tags;
      SortedSetMembers(m[bs[k].heading]);
    }
    forall t | t in Values(m) ensures t in FlatOf(bs) {
      var l :| l in m && t in m[l];
      var k :| 0 <= k < |bs| && BlockLabels(bs)[k] == l;
      SortedSetMembers(m[l]);
      assert t in bs[k].tags;
    }
  }

  /** Every tag of the store is shown in some block, and no other tag is. */
  lemma TagsShown(tags: Tags)
    ensures (set t | t in FlatOf(Blocks(tags))) == AllTags(tags)
  {
    BlocksShowValues(CatOrder, MergedTags(tags));
    MergedValues(tags, LabelOf);
  }

  /** The labels of `order` come first, in that order; the other labels
      follow, sorted. */
  lemma BlocksOrder(order: seq<(string, string)>, m: Tags)
    ensures var bs := BlocksOf(order, m);
      exists n :: 0 <= n <= |bs| && IsSubseq(BlockLabels(bs[..n]), LabelsOf(order))
        && StrictlySorted(BlockLabels(bs[n..]))
        && forall k :: n <= k < |bs| ==> bs[k].heading !in LabelsOf(order)
  {
    var e := Emit(order, m);
    SortedSetMembers(e.1.Keys);
    var labels := SortedSet(e.1.Keys);
    var lo := Leftover(e.1, labels);
    var bs := BlocksOf(order, m);
    var n := |e.0|;
    assert bs == e.0 + lo;
    assert bs[..n] == e.0 && bs[n..] == lo;
    EmitInOrder(order, m);
    LeftoverSorted(e.1, labels);
    LeftoverBlocks(e.1, labels);
    EmitRest(order, m);
    forall k | n <= k < |bs| ensures bs[k].heading !in LabelsOf(order) {
      assert bs[k] == lo[k - n];
      forall j | 0 <= j < |order| ensures LabelsOf(order)[j] != bs[k].heading {
      }
    }
  }

  /** No label heads two blocks. */
  lemma BlocksDistinct(order: seq<(string, string)>, m: Tags)
    ensures DistinctHeadings(BlocksOf(order, m))
  {
    var e := Emit(order, m);
    SortedSetMembers(e.1.Keys);
    var labels := SortedSet(e.1.Keys);
    var lo := Leftover(e.1, labels);
    var bs := BlocksOf(order, m);
    var n := |e.0|;
    assert bs == e.0 + lo;
    EmitDistinct(order, m);
    EmitBlocks(order, m);
    LeftoverSorted(e.1, labels);
    LeftoverBlocks(e.1, labels);
    forall k1, k2 | 0 <= k1 < k2 < |bs| ensures bs[k1].heading != bs[k2].heading {
      if k2 < n {
        assert bs[k1] == e.0[k1] && bs[k2] == e.0[k2];
      } else if k1 < n {
        assert bs[k1] == e.0[k1] && bs[k2] == lo[k2 - n];
      } else {
        assert bs[k1] == lo[k1 - n] && bs[k2] == lo[k2 - n];
        assert BlockLabels(lo)[k1 - n] == bs[k1].heading && BlockLabels(lo)[k2 - n] == bs[k2].heading;
        LexLessIrreflexive(bs[k1].heading);
      }
    }
  }

  /** The closing line counts the shown tags with repeats and lists each
      tag of the store once, sorted. */
  lemma SummaryCounts(tags: Tags)
    ensures var flat := FlatOf(Blocks(tags));
      SummaryLine(flat) == "**All (" + NatToString(|flat|) + "):** " + TagList(SortedSet(AllTags(tags)))
      && |flat| >= |AllTags(tags)|
  {
    var flat := FlatOf(Blocks(tags));
    TagsShown(tags);
    DistinctAtMostLength(flat);
  }

  /** `format_tags` returns the empty text exactly when the store has no
      category. */
  lemma FormatEmptyIff(tags: Tags)
    ensures FormatText(tags) == "" <==> tags == map[]
  {
    if tags != map[] {
      var bs := Blocks(tags);
      JoinTwoOrMore(LinesOf(bs) + ["---", SummaryLine(FlatOf(bs))], "\n");
    }
  }

  /** A non-empty store's text ends with the rule and the closing line. */
  lemma FormatEnds(tags: Tags)
    requires tags != map[]
    ensures var s := SummaryLine(FlatOf(Blocks(tags))); var t := FormatText(tags);
      var w := "---" + "\n" + s;
      |t| >= |w| && t[|t| - |w|..] == w
  {
    var bs := Blocks(tags);
    assert FormatText(tags) == TextOf(bs);
    JoinLastTwo(LinesOf(bs), "---", SummaryLine(FlatOf(bs)), "\n");
  }

  // ---------------------------------------------------------------------------
  // Steps of the loops of `format_tags`

  /** One more pair of the order: its category is named, and gets its
      label when no earlier pair names it. */
  lemma OrderStep(order: seq<(string, string)>, i: nat)
    requires i < |order|
    ensures CatsOf(order[..i + 1]) == CatsOf(order[..i]) + {order[i].0}
    ensures order[i].0 !in CatsOf(order[..i]) ==> LabelIn(order, order[i].0) == order[i].1
  {
    var a, b := order[..i], order[..i + 1];
    forall c | c in CatsOf(b) ensures c in CatsOf(a) + {order[i].0} {
      var j :| 0 <= j <= i && b[j].0 == c;
      if j < i {
        assert a[j].0 == c;
      }
    }
    forall c | c in CatsOf(a) ensures c in CatsOf(b) {
      var j :| 0 <= j < i && a[j].0 == c;
      assert b[j].0 == c;
    }
    if order[i].0 !in CatsOf(a) {
      FindLabelAt(order, i);
    }
  }

  /** One round of the loop over `_CAT_ORDER` that pops the labels. */
  lemma EmitStep(order: seq<(string, string)>, m: Tags, i: nat)
    requires i < |order|
    ensures var l := order[i].1;
      Emit(order[i..], m) ==
        if l in m && m[l] != {} then
          ([Block(l, SortedSet(m[l]))] + Emit(order[i + 1..], m - {l}).0, Emit(order[i + 1..], m - {l}).1)
        else Emit(order[i + 1..], m)
  {
    assert order[i..][0] == order[i];
    assert order[i..][1..] == order[i + 1..];
  }

  /** The lines and tags of one more block. */
  lemma BlocksSnoc(bs: seq<Block>, b: Block)
    ensures LinesOf(bs + [b]) == LinesOf(bs) + BlockLines(b)
    ensures FlatOf(bs + [b]) == FlatOf(bs) + b.tags
  {
    assert (bs + [b])[..|bs|] == bs;
  }

  /** One round of the loop over the sorted leftover labels. */
  lemma LeftoverStep(rest: Tags, labels: seq<string>, j: nat)
    requires j < |labels| && forall k :: 0 <= k < |labels| ==> labels[k] in rest
    ensures Leftover(rest, labels[..j + 1]) == Leftover(rest, labels[..j])
      + (if rest[labels[j]] != {} then [Block(labels[j], SortedSet(rest[labels[j]]))] else [])
  {
    assert labels[..j + 1][..j] == labels[..j];
  }

  /** The blocks emitted so far, extended by the block of label `j`. */
  lemma LeftoverEmitStep(rest: Tags, labels: seq<string>, j: nat, bs0: seq<Block>, bs: seq<Block>)
    requires j < |labels| && forall k :: 0 <= k < |labels| ==> labels[k] in rest
    requires bs == bs0 + Leftover(rest, labels[..j])
    ensures rest[labels[j]] != {} ==>
      bs + [Block(labels[j], SortedSet(rest[labels[j]]))] == bs0 + Leftover(rest, labels[..j + 1])
    ensures rest[labels[j]] == {} ==> bs == bs0 + Leftover(rest, labels[..j + 1])
  {
    LeftoverStep(rest, labels, j);
  }

  /** The state of the loop over the order that fills `merged`. */
  predicate MappedSoFar(tags: Tags, order: seq<(string, string)>, lab: string -> string,
                        i: nat, seen: set<string>, merged: Tags)
  {
    i <= |order| && seen == CatsOf(order[..i]) * tags.Keys && merged == MergedOver(tags, seen, lab)
  }

  lemma MappedStep(tags: Tags, order: seq<(string, string)>, lab: string -> string,
                   i: nat, seen: set<string>, merged: Tags)
    requires forall c :: lab(c) == LabelIn(order, c)
    requires MappedSoFar(tags, order, lab, i, seen, merged) && i < |order|
    ensures order[i].0 in tags && order[i].0 !in seen ==>
      MappedSoFar(tags, order, lab, i + 1, seen + {order[i].0},
        merged[order[i].1 := Get(merged, order[i].1) + tags[order[i].0]])
    ensures !(order[i].0 in tags && order[i].0 !in seen) ==>
      MappedSoFar(tags, order, lab, i + 1, seen, merged)
  {
    var cat := order[i].0;
    OrderStep(order, i);
    if cat in tags && cat !in seen {
      MergedStep(tags, seen, lab, cat);
    }
  }

  /** The state of the loop over the store that adds the categories the
      order does not name. */
  predicate RestSoFar(tags: Tags, order: seq<(string, string)>, lab: string -> string,
                      seen: set<string>, visited: set<string>, todo: set<string>, merged: Tags)
  {
    seen == CatsOf(order) * tags.Keys && todo + visited == tags.Keys && todo !! visited
    && merged == MergedOver(tags, seen + visited, lab)
  }

  lemma RestStart(tags: Tags, order: seq<(string, string)>, lab: string -> string,
                  seen: set<string>, merged: Tags)
    requires MappedSoFar(tags, order, lab, |order|, seen, merged)
    ensures RestSoFar(tags, order, lab, seen, {}, tags.Keys, merged)
  {
    assert order[..|order|] == order;
    assert seen + {} == seen;
  }

  lemma RestStep(tags: Tags, order: seq<(string, string)>, lab: string -> string,
                 seen: set<string>, visited: set<string>, todo: set<string>, merged: Tags, cat: string)
    requires forall c :: lab(c) == LabelIn(order, c)
    requires RestSoFar(tags, order, lab, seen, visited, todo, merged) && cat in todo
    ensures cat !in seen ==> RestSoFar(tags, order, lab, seen, visited + {cat}, todo - {cat},
      merged[Untagged(cat) := Get(merged, Untagged(cat)) + tags[cat]])
    ensures cat in seen ==> RestSoFar(tags, order, lab, seen, visited + {cat}, todo - {cat}, merged)
  {
    assert seen + (visited + {cat}) == seen + visited + {cat};
    if cat !in seen {
      assert lab(cat) == Untagged(cat);
      MergedStep(tags, seen + visited, lab, cat);
    } else {
      MergedAgain(tags, seen + visited, lab, cat);
    }
  }

  lemma RestDone(tags: Tags, order: seq<(string, string)>, lab: string -> string,
                 seen: set<string>, visited: set<string>, merged: Tags)
    requires RestSoFar(tags, order, lab, seen, visited, {}, merged)
    ensures merged == MergedOver(tags, tags.Keys, lab)
  {
    assert seen + visited == tags.Keys;
  }

  /** The state of the loop over the order that pops the labels. */
  ghost predicate EmittedSoFar(order: seq<(string, string)>, m0: Tags, i: nat, merged: Tags, bs: seq<Block>)
  {
    i <= |order| && Emit(order, m0) == (bs + Emit(order[i..], merged).0, Emit(order[i..], merged).1)
  }

  lemma EmittedStart(order: seq<(string, string)>, m0: Tags)
    ensures EmittedSoFar(order, m0, 0, m0, [])
  {
    assert order[0..] == order;
    var e := Emit(order, m0);
    assert [] + e.0 == e.0;
  }

  lemma EmittedStep(order: seq<(string, string)>, m0: Tags, i: nat, merged: Tags, bs: seq<Block>)
    requires EmittedSoFar(order, m0, i, merged, bs) && i < |order|
    ensures order[i].1 in merged && merged[order[i].1] != {} ==>
      EmittedSoFar(order, m0, i + 1, merged - {order[i].1}, bs + [Block(order[i].1, SortedSet(merged[order[i].1]))])
    ensures !(order[i].1 in merged && merged[order[i].1] != {}) ==> EmittedSoFar(order, m0, i + 1, merged, bs)
  {
    var l := order[i].1;
    EmitStep(order, merged, i);
    if l in merged && merged[l] != {} {
      var b := Block(l, SortedSet(merged[l]));
      var r := Emit(order[i + 1..], merged - {l});
      assert Emit(order[i..], merged) == ([b] + r.0, r.1);
      assert bs + ([b] + r.0) == (bs + [b]) + r.0;
    }
  }

  lemma EmittedDone(order: seq<(string, string)>, m0: Tags, merged: Tags, bs: seq<Block>)
    requires EmittedSoFar(order, m0, |order|, merged, bs)
    ensures Emit(order, m0) == (bs, merged)
  {
    assert order[|order|..] == [];
    assert bs + [] == bs;
  }
}
