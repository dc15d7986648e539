/** Text primitives shared by the collector and the remote runner: Python's
    `sep.join`, `s.split(c)`, the `strip` family, `startswith`, `in` on strings,
    decimal conversion and the code-point order that `sorted` uses on `str`. */
module Text {

  /** Python's `sep.join(parts)`. */
  function Join<T>(parts: seq<seq<T>>, sep: seq<T>): seq<T>
    decreases |parts|
  {
    if |parts| == 0 then []
    else if |parts| == 1 then parts[0]
    else parts[0] + sep + Join(parts[1..], sep)
  }

  /** Python's `s.split(sep)` for a one-element separator: the pieces between
      separators, always at least one (the empty input gives one empty piece). */
  function Split<T(==)>(s: seq<T>, sep: T): (r: seq<seq<T>>)
    ensures |r| >= 1
    decreases |s|
  {
    if |s| == 0 then [[]]
    else
      var rest := Split(s[1..], sep);
      if s[0] == sep then [[]] + rest
      else [[s[0]] + rest[0]] + rest[1..]
  }

  /** No piece of a split holds the separator. */
  lemma {:induction false} SplitPiecesFree<T>(s: seq<T>, sep: T)
    ensures forall i :: 0 <= i < |Split(s, sep)| ==> sep !in Split(s, sep)[i]
    decreases |s|
  {
    if |s| > 0 {
      SplitPiecesFree(s[1..], sep);
      var rest := Split(s[1..], sep);
      var r := Split(s, sep);
      forall i | 0 <= i < |r| ensures sep !in r[i] {
        if s[0] == sep {
          assert r[i] == if i == 0 then [] else rest[i - 1];
        } else if i == 0 {
          assert sep !in rest[0];
          assert r[0] == [s[0]] + rest[0];
        } else {
          assert r[i] == rest[i];
        }
      }
    }
  }

  lemma JoinAppend<T>(parts: seq<seq<T>>, x: seq<T>, sep: seq<T>)
    requires |parts| >= 1
    ensures Join(parts + [x], sep) == Join(parts, sep) + sep + x
    decreases |parts|
  {
    if |parts| == 1 {
      assert parts + [x] == [parts[0], x];
    } else {
      assert (parts + [x])[1..] == parts[1..] + [x];
      JoinAppend(parts[1..], x, sep);
    }
  }

  /** An element in neither the pieces nor the separator is not in their join. */
  lemma {:induction false} JoinAvoids<T>(parts: seq<seq<T>>, sep: seq<T>, x: T)
    requires x !in sep
    requires forall i :: 0 <= i < |parts| ==> x !in parts[i]
    ensures x !in Join(parts, sep)
    decreases |parts|
  {
    if |parts| > 1 {
      JoinAvoids(parts[1..], sep, x);
    }
  }

  /** Joining two or more pieces puts the separator after the first. */
  lemma JoinTwoOrMore<T>(parts: seq<seq<T>>, sep: seq<T>)
    requires |parts| >= 2
    ensures Join(parts, sep)[..|parts[0]| + |sep|] == parts[0] + sep
  {
  }

  /** A join ends with its last two pieces and the separator between them. */
  lemma JoinLastTwo<T>(parts: seq<seq<T>>, a: seq<T>, b: seq<T>, sep: seq<T>)
    ensures var t := Join(parts + [a, b], sep); var w := a + sep + b;
      |t| >= |w| && t[|t| - |w|..] == w
  {
    var t := Join(parts + [a, b], sep);
    assert parts + [a, b] == (parts + [a]) + [b];
    JoinAppend(parts + [a], b, sep);
    if parts == [] {
      assert t == a + sep + b;
    } else {
      JoinAppend(parts, a, sep);
      assert t == Join(parts, sep) + sep + (a + sep + b);
    }
  }

  /** The join of a tail of the pieces is a suffix of the join of all. */
  lemma {:induction false} JoinSuffix<T>(parts: seq<seq<T>>, sep: seq<T>, k: nat)
    requires k < |parts|
    ensures var t := Join(parts, sep); var u := Join(parts[k..], sep);
      |u| <= |t| && t[|t| - |u|..] == u
    decreases k
  {
    if k > 0 {
      JoinSuffix(parts[1..], sep, k - 1);
      assert parts[1..][k - 1..] == parts[k..];
    } else {
      assert parts[k..] == parts;
    }
  }

  /** The pieces from `k` on, joined back, are a suffix of the split input. */
  lemma SplitSuffix<T>(s: seq<T>, sep: T, k: nat)
    requires k < |Split(s, sep)|
    ensures var u := Join(Split(s, sep)[k..], [sep]); |u| <= |s| && s[|s| - |u|..] == u
  {
    JoinSplit(s, sep);
    JoinSuffix(Split(s, sep), [sep], k);
  }

  /** The last piece holds no separator and is a suffix of the input. */
  lemma SplitLastSuffix<T>(s: seq<T>, sep: T)
    ensures var p := Split(s, sep); var l := p[|p| - 1];
      sep !in l && |l| <= |s| && s[|s| - |l|..] == l
  {
    var p := Split(s, sep);
    SplitPiecesFree(s, sep);
    SplitSuffix(s, sep, |p| - 1);
    assert p[|p| - 1..] == [p[|p| - 1]];
  }

  /** A sequence lists no more distinct elements than it has positions. */
  lemma {:induction false} DistinctAtMostLength<T>(s: seq<T>)
    ensures |set x | x in s| <= |s|
    decreases |s|
  {
    if |s| > 0 {
      var n := |s| - 1;
      DistinctAtMostLength(s[..n]);
      assert (set x | x in s) == (set x | x in s[..n]) + {s[n]};
    }
  }

  /** Joining the pieces of a split with the separator gives back the input. */
  lemma {:induction false} JoinSplit<T>(s: seq<T>, sep: T)
    ensures Join(Split(s, sep), [sep]) == s
    decreases |s|
  {
    if |s| > 0 {
      var rest := Split(s[1..], sep);
      JoinSplit(s[1..], sep);
      if s[0] == sep {
        assert Split(s, sep) == [[]] + rest;
        assert ([[]] + rest)[1..] == rest;
      } else {
        var r := [[s[0]] + rest[0]] + rest[1..];
        assert Split(s, sep) == r;
        if |rest| == 1 {
          assert Join(rest, [sep]) == rest[0];
        } else {
          assert r[1..] == rest[1..];
          assert Join(rest, [sep]) == rest[0] + [sep] + Join(rest[1..], [sep]);
        }
      }
    }
  }

  /** Splitting a join of separator-free pieces gives back the pieces. */
  lemma {:induction false} SplitJoin<T>(parts: seq<seq<T>>, sep: T)
    requires |parts| >= 1
    requires forall i :: 0 <= i < |parts| ==> sep !in parts[i]
    ensures Split(Join(parts, [sep]), sep) == parts
    decreases |parts|
  {
    if |parts| == 1 {
      SplitFree(parts[0], sep);
    } else {
      assert forall i :: 0 <= i < |parts[1..]| ==> sep !in parts[1..][i] by {
        forall i | 0 <= i < |parts[1..]| ensures sep !in parts[1..][i] { assert parts[1..][i] == parts[i + 1]; }
      }
      SplitJoin(parts[1..], sep);
      assert Join(parts, [sep]) == parts[0] + [sep] + Join(parts[1..], [sep]);
      SplitConcat(parts[0], Join(parts[1..], [sep]), sep);
      assert [parts[0]] + parts[1..] == parts;
    }
  }

  /** A separator-free sequence splits into itself. */
  lemma {:induction false} SplitFree<T>(s: seq<T>, sep: T)
    requires sep !in s
    ensures Split(s, sep) == [s]
    decreases |s|
  {
    if |s| > 0 {
      SplitFree(s[1..], sep);
      assert [s[0]] + s[1..] == s;
    }
  }

  /** Splitting `a + [sep] + b` for separator-free `a`. */
  lemma {:induction false} SplitConcat<T>(a: seq<T>, b: seq<T>, sep: T)
    requires sep !in a
    ensures Split(a + [sep] + b, sep) == [a] + Split(b, sep)
    decreases |a|
  {
    if |a| == 0 {
      assert a + [sep] + b == [sep] + b;
      assert ([sep] + b)[1..] == b;
    } else {
      assert (a + [sep] + b)[1..] == a[1..] + [sep] + b;
      SplitConcat(a[1..], b, sep);
      assert [a[0]] + a[1..] == a;
    }
  }

  /** The pieces of `a + b` from the pieces of `a` and of `b`: the last piece
      of `a` is glued to the first piece of `b`. */
  function Glue<T>(pa: seq<seq<T>>, pb: seq<seq<T>>): seq<seq<T>>
    requires |pa| >= 1 && |pb| >= 1
  {
    pa[..|pa| - 1] + [pa[|pa| - 1] + pb[0]] + pb[1..]
  }

  lemma GlueEmptyFirst<T>(pt: seq<seq<T>>, pb: seq<seq<T>>)
    requires |pt| >= 1 && |pb| >= 1
    ensures Glue([[]] + pt, pb) == [[]] + Glue(pt, pb)
  {
    assert ([[]] + pt)[..|pt|] == [[]] + pt[..|pt| - 1];
  }

  lemma GlueConsFirst<T>(x: T, pt: seq<seq<T>>, pb: seq<seq<T>>)
    requires |pt| >= 1 && |pb| >= 1
    ensures var g := Glue(pt, pb);
      Glue([[x] + pt[0]] + pt[1..], pb) == [[x] + g[0]] + g[1..]
  {
    var g := Glue(pt, pb);
    var pa := [[x] + pt[0]] + pt[1..];
    if |pt| == 1 {
      assert pa[..|pa| - 1] == [];
      assert [x] + (pt[0] + pb[0]) == [x] + pt[0] + pb[0];
    } else {
      assert pa[..|pa| - 1] == [[x] + pt[0]] + pt[1..|pt| - 1];
      assert g[0] == pt[0];
      assert g[1..] == pt[1..|pt| - 1] + [pt[|pt| - 1] + pb[0]] + pb[1..];
    }
  }

  /** The split of a concatenation: the last piece of `a` is glued to the
      first piece of `b`; splitting does not depend on where `a` ends. */
  lemma {:induction false} SplitAppend<T>(a: seq<T>, b: seq<T>, sep: T)
    ensures Split(a + b, sep) == Glue(Split(a, sep), Split(b, sep))
    decreases |a|
  {
    var pb := Split(b, sep);
    if |a| == 0 {
      assert a + b == b;
      assert [] + pb[0] == pb[0];
      assert pb == [pb[0]] + pb[1..];
    } else {
      assert (a + b)[1..] == a[1..] + b;
      SplitAppend(a[1..], b, sep);
      var pt := Split(a[1..], sep);
      if a[0] == sep {
        GlueEmptyFirst(pt, pb);
      } else {
        GlueConsFirst(a[0], pt, pb);
      }
    }
  }

  /** Python's `str.isspace`, the character class used by `strip()`,
      `split()` and the `\s` of `re` on `str` patterns. */
  predicate IsSpace(c: char)
  {
    c == ' ' || c == '\t' || c == '\n' || c == '\r' || c == '\U{B}' || c == '\U{C}'
    || ('\U{1C}' <= c <= '\U{1F}') || c == '\U{85}' || c == '\U{A0}' || c == '\U{1680}'
    || ('\U{2000}' <= c <= '\U{200A}') || c == '\U{2028}' || c == '\U{2029}' || c == '\U{202F}'
    || c == '\U{205F}' || c == '\U{3000}'
  }

  /** Where the longest run of characters satisfying `p` that starts at
      position `i` of `s` ends: how far a greedy `\s*` or `\w+` advances. */
  function RunEnd(s: string, p: char -> bool, i: nat): (k: nat)
    requires i <= |s|
    ensures i <= k <= |s|
    ensures forall j :: i <= j < k ==> p(s[j])
    ensures k < |s| ==> !p(s[k])
    decreases |s| - i
  {
    if i < |s| && p(s[i]) then RunEnd(s, p, i + 1) else i
  }

  /** A maximal run is the one `RunEnd` finds. */
  lemma RunEndIs(s: string, p: char -> bool, i: nat, k: nat)
    requires i <= k <= |s| && (forall j :: i <= j < k ==> p(s[j])) && (k < |s| ==> !p(s[k]))
    ensures RunEnd(s, p, i) == k
  {
    var r := RunEnd(s, p, i);
    assert r <= k && k <= r;
  }

  /** Where the longest run of characters satisfying `p` that ends just
      before position `j` of `s` starts. */
  function RunStart(s: string, p: char -> bool, j: nat): (k: nat)
    requires j <= |s|
    ensures k <= j
    ensures forall i :: k <= i < j ==> p(s[i])
    ensures 0 < k ==> !p(s[k - 1])
    decreases j
  {
    if 0 < j && p(s[j - 1]) then RunStart(s, p, j - 1) else j
  }

  /** `s.lstrip(chars)`: drops the longest prefix made of dropped characters. */
  function LStrip(s: string, drop: char -> bool): (r: string)
    ensures |r| <= |s| && r == s[|s| - |r|..]
    ensures forall i :: 0 <= i < |s| - |r| ==> drop(s[i])
    ensures r == [] || !drop(r[0])
  {
    s[RunEnd(s, drop, 0)..]
  }

  /** `s.rstrip(chars)`: drops the longest suffix made of dropped characters. */
  function RStrip(s: string, drop: char -> bool): (r: string)
    ensures |r| <= |s| && r == s[..|r|]
    ensures forall i :: |r| <= i < |s| ==> drop(s[i])
    ensures r == [] || !drop(r[|r| - 1])
  {
    s[..RunStart(s, drop, |s|)]
  }

  /** `s.strip(chars)`. */
  function StripBy(s: string, drop: char -> bool): string
  {
    RStrip(LStrip(s, drop), drop)
  }

  /** `s.strip()` with no argument: whitespace on both ends. */
  function Strip(s: string): string
  {
    StripBy(s, IsSpace)
  }

  /** A stripped string neither starts nor ends with a dropped character. */
  lemma StripByEnds(s: string, drop: char -> bool)
    ensures var r := StripBy(s, drop);
      r == [] || (!drop(r[0]) && !drop(r[|r| - 1]))
  {
    var l := LStrip(s, drop);
    var r := RStrip(l, drop);
    if r != [] {
      assert r[0] == l[0];
    }
  }

  /** A non-empty stripped string starts with the first kept character. */
  lemma StripByHead(s: string, drop: char -> bool)
    requires StripBy(s, drop) != []
    ensures var l := LStrip(s, drop);
      l != [] && StripBy(s, drop)[0] == l[0] == s[|s| - |l|]
      && forall j :: 0 <= j < |s| - |l| ==> drop(s[j])
  {
    var l := LStrip(s, drop);
    var r := RStrip(l, drop);
    assert r[0] == l[0];
  }

  /** The first kept character of a string heads its stripped form. */
  lemma StripByFirst(s: string, drop: char -> bool, k: nat)
    requires k < |s| && !drop(s[k])
    requires forall j :: 0 <= j < k ==> drop(s[j])
    ensures StripBy(s, drop) != [] && StripBy(s, drop)[0] == s[k]
  {
    var l := LStrip(s, drop);
    var m := |s| - |l|;
    assert l == s[m..];
    assert m == k;
    var r := RStrip(l, drop);
    assert r != [];
    assert r[0] == l[0];
  }

  /** `s[i..j]` is what `strip` keeps of `s`: everything outside it is
      dropped, and a non-empty kept part starts and ends with a kept character. */
  predicate StripBounds(s: string, drop: char -> bool, i: int, j: int)
  {
    && 0 <= i <= j <= |s|
    && (forall k :: 0 <= k < i ==> drop(s[k]))
    && (forall k :: j <= k < |s| ==> drop(s[k]))
    && (i < j ==> !drop(s[i]) && !drop(s[j - 1]))
  }

  /** `t` is `s` with its dropped ends removed. */
  ghost predicate IsStripOf(t: string, s: string, drop: char -> bool)
  {
    exists i, j :: StripBounds(s, drop, i, j) && t == s[i..j]
  }

  /** `StripBy` removes exactly the dropped ends. */
  lemma StripByIsStripOf(s: string, drop: char -> bool)
    ensures IsStripOf(StripBy(s, drop), s, drop)
  {
    var i := |s| - |LStrip(s, drop)|;
    var j := i + |StripBy(s, drop)|;
    StripBySlice(s, drop);
    StripByTail(s, drop);
    StripBySliceEnds(s, drop);
    assert StripBounds(s, drop, i, j);
  }

  lemma StripBySlice(s: string, drop: char -> bool)
    ensures var i := |s| - |LStrip(s, drop)|;
      i + |StripBy(s, drop)| <= |s| && StripBy(s, drop) == s[i..i + |StripBy(s, drop)|]
  {
    var l := LStrip(s, drop);
    var r := StripBy(s, drop);
    var i := |s| - |l|;
    assert r == l[..|r|];
    assert l[..|r|] == s[i..i + |r|];
  }

  lemma StripByTail(s: string, drop: char -> bool)
    ensures var j := |s| - |LStrip(s, drop)| + |StripBy(s, drop)|;
      forall k :: j <= k < |s| ==> drop(s[k])
  {
    var l := LStrip(s, drop);
    var r := StripBy(s, drop);
    var i := |s| - |l|;
    forall k | i + |r| <= k < |s| ensures drop(s[k]) {
      assert s[k] == l[k - i];
    }
  }

  lemma StripBySliceEnds(s: string, drop: char -> bool)
    ensures var i := |s| - |LStrip(s, drop)|;
      var j := i + |StripBy(s, drop)|;
      i < j ==> !drop(s[i]) && !drop(s[j - 1])
  {
    var r := StripBy(s, drop);
    var i := |s| - |LStrip(s, drop)|;
    StripBySlice(s, drop);
    StripByEnds(s, drop);
    if r != [] {
      assert s[i] == r[0] && s[i + |r| - 1] == r[|r| - 1];
    }
  }

  /** The dropped ends are determined by the string: at most one `t` is the
      strip of `s`. */
  lemma StripOfUnique(t1: string, t2: string, s: string, drop: char -> bool)
    requires IsStripOf(t1, s, drop) && IsStripOf(t2, s, drop)
    ensures t1 == t2
  {
    var i1, j1 :| StripBounds(s, drop, i1, j1) && t1 == s[i1..j1];
    var i2, j2 :| StripBounds(s, drop, i2, j2) && t2 == s[i2..j2];
    BoundsUnique(s, drop, i1, j1, i2, j2);
  }

  lemma BoundsUnique(s: string, drop: char -> bool, i1: int, j1: int, i2: int, j2: int)
    requires StripBounds(s, drop, i1, j1) && StripBounds(s, drop, i2, j2)
    ensures s[i1..j1] == s[i2..j2]
  {
    if i1 < j1 && i2 < j2 {
      assert i1 <= i2 && i2 <= i1 && j1 <= j2 && j2 <= j1;
    } else {
      assert i1 == j1 && i2 == j2;
    }
  }


  /** A string strips to the empty string exactly when every character is dropped. */
  lemma StripByEmpty(s: string, drop: char -> bool)
    ensures StripBy(s, drop) == [] <==> forall i :: 0 <= i < |s| ==> drop(s[i])
  {
    var l := LStrip(s, drop);
    assert l == [] || l[0] == s[|s| - |l|];
  }

  predicate StartsWith<T(==)>(s: seq<T>, prefix: seq<T>)
  {
    |prefix| <= |s| && s[..|prefix|] == prefix
  }

  /** Python's `sub in s` on strings, by a left-to-right scan. */
  predicate IsSubstring<T(==)>(sub: seq<T>, s: seq<T>)
    decreases |s|
  {
    StartsWith(s, sub) || (|s| > 0 && IsSubstring(sub, s[1..]))
  }

  /** `sub` occurs in `s` at offset `i`. */
  predicate OccursAt<T(==)>(sub: seq<T>, s: seq<T>, i: int)
  {
    0 <= i <= |s| - |sub| && s[i..i + |sub|] == sub
  }

  /** The scan agrees with "occurs at some offset". */
  lemma {:induction false} IsSubstringAt<T>(sub: seq<T>, s: seq<T>)
    ensures IsSubstring(sub, s) <==> exists i :: OccursAt(sub, s, i)
    decreases |s|
  {
    if IsSubstring(sub, s) {
      if StartsWith(s, sub) {
        assert OccursAt(sub, s, 0);
      } else {
        IsSubstringAt(sub, s[1..]);
        var i :| OccursAt(sub, s[1..], i);
        assert s[1..][i..i + |sub|] == s[i + 1..i + 1 + |sub|];
        assert OccursAt(sub, s, i + 1);
      }
    }
    if exists i :: OccursAt(sub, s, i) {
      var i :| OccursAt(sub, s, i);
      if i > 0 {
        assert s[1..][i - 1..i - 1 + |sub|] == s[i..i + |sub|];
        assert OccursAt(sub, s[1..], i - 1);
        IsSubstringAt(sub, s[1..]);
      }
    }
  }

  predicate IsDigit(c: char)
  {
    '0' <= c <= '9'
  }

  /** `s.isdigit()` (for ASCII digits): non-empty and digits only. */
  predicate AllDigits(s: string)
  {
    |s| > 0 && forall i :: 0 <= i < |s| ==> IsDigit(s[i])
  }

  /** `int(s)` for a string of decimal digits. */
  function DigitsValue(s: string): (n: nat)
    requires forall i :: 0 <= i < |s| ==> IsDigit(s[i])
    decreases |s|
  {
    if |s| == 0 then 0
    else assert IsDigit(s[|s| - 1]); 10 * DigitsValue(s[..|s| - 1]) + (s[|s| - 1] as int - '0' as int)
  }

  function DigitChar(d: nat): (c: char)
    requires d < 10
    ensures IsDigit(c) && c as int - '0' as int == d
  {
    ('0' as int + d) as char
  }

  /** `str(n)` for a natural number: the decimal digits, no leading zero. */
  function NatToString(n: nat): (r: string)
    ensures AllDigits(r)
    ensures |r| > 1 ==> r[0] != '0'
    decreases n
  {
    if n < 10 then [DigitChar(n)]
    else NatToString(n / 10) + [DigitChar(n % 10)]
  }

  /** Reading back the decimal digits of `n` gives `n`. */
  lemma {:induction false} DigitsValueOfNatToString(n: nat)
    ensures DigitsValue(NatToString(n)) == n
    decreases n
  {
    var r := NatToString(n);
    if n >= 10 {
      DigitsValueOfNatToString(n / 10);
      assert r[..|r| - 1] == NatToString(n / 10);
    }
  }

  /** Python's `<` on `str`: lexicographic by code point. */
  predicate LexLess(a: string, b: string)
    decreases |a|
  {
    if |a| == 0 then |b| > 0
    else if |b| == 0 then false
    else if a[0] != b[0] then a[0] < b[0]
    else LexLess(a[1..], b[1..])
  }

  lemma {:induction false} LexLessIrreflexive(a: string)
    ensures !LexLess(a, a)
    decreases |a|
  {
    if |a| > 0 {
      LexLessIrreflexive(a[1..]);
    }
  }

  lemma {:induction false} LexLessTransitive(a: string, b: string, c: string)
    requires LexLess(a, b) && LexLess(b, c)
    ensures LexLess(a, c)
    decreases |a|
  {
    if |a| > 0 && a[0] == b[0] && b[0] == c[0] {
      LexLessTransitive(a[1..], b[1..], c[1..]);
    }
  }

  /** Any two different strings are ordered one way or the other. */
  lemma {:induction false} LexLessTotal(a: string, b: string)
    requires a != b
    ensures LexLess(a, b) || LexLess(b, a)
    decreases |a|
  {
    if |a| > 0 && |b| > 0 && a[0] == b[0] {
      assert a == [a[0]] + a[1..] && b == [b[0]] + b[1..];
      LexLessTotal(a[1..], b[1..]);
    }
  }

  lemma {:induction false} LexLessAsymmetric(a: string, b: string)
    requires LexLess(a, b)
    ensures !LexLess(b, a)
  {
    if LexLess(b, a) {
      LexLessTransitive(a, b, a);
      LexLessIrreflexive(a);
    }
  }

  /** `xs` is strictly increasing in code-point order (so it has no repeats). */
  predicate StrictlySorted(xs: seq<string>)
  {
    forall i, j :: 0 <= i < j < |xs| ==> LexLess(xs[i], xs[j])
  }

  /** `xs` lists exactly the set `s`, in increasing order: `sorted(s)`. */
  predicate IsSortedListOf(xs: seq<string>, s: set<string>)
  {
    StrictlySorted(xs) && (set x | x in xs) == s
  }

  /** `m` is the least element of `s`. */
  predicate IsLeast(m: string, s: set<string>)
  {
    m in s && forall x :: x in s && x != m ==> LexLess(m, x)
  }

  /** Every finite non-empty set of strings has a least element. */
  lemma {:induction false} LeastExists(s: set<string>)
    requires s != {}
    ensures exists m :: IsLeast(m, s)
    decreases |s|
  {
    var y :| y in s;
    if s == {y} {
      assert IsLeast(y, s);
    } else {
      var t := s - {y};
      LeastExists(t);
      var m :| IsLeast(m, t);
      if LexLess(m, y) {
        forall x | x in s && x != m ensures LexLess(m, x) {
          if x != y {
            assert x in t;
          }
        }
        assert IsLeast(m, s);
      } else {
        LexLessTotal(m, y);
        forall x | x in s && x != y ensures LexLess(y, x) {
          if x != m {
            assert x in t;
            LexLessTransitive(y, m, x);
          }
        }
        assert IsLeast(y, s);
      }
    }
  }

  /** Putting the least element in front of a sorted listing of the rest. */
  lemma SortedCons(m: string, ys: seq<string>, s: set<string>)
    requires IsLeast(m, s) && IsSortedListOf(ys, s - {m})
    ensures IsSortedListOf([m] + ys, s)
  {
    var xs := [m] + ys;
    forall i, j | 0 <= i < j < |xs| ensures LexLess(xs[i], xs[j]) {
      assert xs[j] == ys[j - 1];
      if i > 0 {
        assert xs[i] == ys[i - 1];
      } else {
        assert xs[j] in s - {m};
      }
    }
    assert (set x | x in xs) == {m} + (set x | x in ys);
  }

  /** Every finite set of strings has a sorted listing. */
  lemma {:induction false} SortedListExists(s: set<string>)
    ensures exists xs :: IsSortedListOf(xs, s)
    decreases |s|
  {
    if s == {} {
      assert IsSortedListOf([], s);
    } else {
      LeastExists(s);
      var m :| IsLeast(m, s);
      SortedListExists(s - {m});
      var ys :| IsSortedListOf(ys, s - {m});
      SortedCons(m, ys, s);
    }
  }

  lemma EmptyListing(xs: seq<string>, s: set<string>)
    requires (set x | x in xs) == s
    ensures xs == [] <==> s == {}
  {
    if xs != [] {
      assert xs[0] in s;
    }
  }

  /** The sorted listing of a set is unique. */
  lemma {:induction false} SortedListUnique(xs: seq<string>, ys: seq<string>, s: set<string>)
    requires IsSortedListOf(xs, s) && IsSortedListOf(ys, s)
    ensures xs == ys
    decreases |xs|
  {
    if xs != [] && ys != [] {
      var a, b := xs[0], ys[0];
      if a != b {
        assert b in s && a in s;
        var i :| 0 <= i < |xs| && xs[i] == b;
        var j :| 0 <= j < |ys| && ys[j] == a;
        assert i > 0 && j > 0;
        LexLessAsymmetric(a, b);
      }
      var s' := s - {a};
      forall i | 1 <= i < |xs| ensures xs[i] != a { LexLessIrreflexive(a); }
      forall i | 1 <= i < |ys| ensures ys[i] != a { LexLessIrreflexive(a); }
      assert (set x | x in xs[1..]) == s';
      assert (set x | x in ys[1..]) == s';
      SortedListUnique(xs[1..], ys[1..], s');
      assert xs == [a] + xs[1..] && ys == [a] + ys[1..];
    } else {
      EmptyListing(xs, s);
      EmptyListing(ys, s);
    }
  }

  /** `sorted(s)` for a set of strings. */
  ghost function SortedSet(s: set<string>): (xs: seq<string>)
    ensures IsSortedListOf(xs, s)
  {
    SortedListExists(s);
    var xs :| IsSortedListOf(xs, s);
    xs
  }

  /** Selection sort's state: `xs` lists `s - rest` sorted, below all of `rest`. */
  predicate Selected(xs: seq<string>, rest: set<string>, s: set<string>)
  {
    rest <= s && StrictlySorted(xs) && (set x | x in xs) == s - rest
    && forall i, y :: 0 <= i < |xs| && y in rest ==> LexLess(xs[i], y)
  }

  /** Listing the least remaining element next keeps the selection sorted. */
  lemma SelectLeast(xs: seq<string>, rest: set<string>, s: set<string>, m: string)
    requires Selected(xs, rest, s) && IsLeast(m, rest)
    ensures Selected(xs + [m], rest - {m}, s)
  {
    var ys := xs + [m];
    forall i, j | 0 <= i < j < |ys| ensures LexLess(ys[i], ys[j]) {
      assert ys[i] == xs[i];
      if j < |xs| {
        assert ys[j] == xs[j];
      }
    }
    assert (set x | x in ys) == (set x | x in xs) + {m};
  }

  /** `sorted(s)` as a loop: take the least remaining element each round. */
  method SortStrings(s: set<string>) returns (xs: seq<string>)
    ensures xs == SortedSet(s)
  {
    xs := [];
    var rest := s;
    while rest != {}
      invariant Selected(xs, rest, s)
      decreases |rest|
    {
      LeastExists(rest);
      var m :| m in rest && IsLeast(m, rest);
      SelectLeast(xs, rest, s, m);
      xs := xs + [m];
      rest := rest - {m};
    }
    SortedListUnique(xs, SortedSet(s), s);
  }
}
