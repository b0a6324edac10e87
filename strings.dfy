/**
 * The JavaScript string operations that the import and listing code relies on:
 * `trim`, `toLowerCase`, the `\s` class, `split`, `includes`, `endsWith`,
 * `indexOf` and the blank-line filter. A `char` is a Unicode scalar value;
 * where JavaScript counts UTF-16 code units (`length`), `Utf16Length` does.
 */
module Strings {

  /** `\s` in a JavaScript regular expression, which is also the set that
      `String.prototype.trim` removes: the ECMAScript WhiteSpace and
      LineTerminator code points. */
  predicate IsSpace(c: char) {
    var n := c as int;
    n == 0x09 || n == 0x0A || n == 0x0B || n == 0x0C || n == 0x0D || n == 0x20
    || n == 0xA0 || n == 0x1680 || (0x2000 <= n <= 0x200A) || n == 0x2028
    || n == 0x2029 || n == 0x202F || n == 0x205F || n == 0x3000 || n == 0xFEFF
  }

  /** Every character of `s` is white space (this includes the empty string). */
  predicate IsBlank(s: string) {
    forall i | 0 <= i < |s| :: IsSpace(s[i])
  }

  /** `s.trim()`: white space is removed from both ends. */
  function Trim(s: string): (r: string)
    ensures |r| <= |s|
    decreases |s|
  {
    if s == [] then s
    else if IsSpace(s[0]) then Trim(s[1..])
    else if IsSpace(s[|s| - 1]) then Trim(s[..|s| - 1])
    else s
  }

  /** `r` is `s[i..j]` and what lies outside it is white space. */
  predicate TrimCut(s: string, r: string, i: int, j: int) {
    0 <= i <= j <= |s| && r == s[i..j] && IsBlank(s[..i]) && IsBlank(s[j..])
  }

  /** A cut of `s` without its leading space is a cut of `s` one further on. */
  lemma CutFront(s: string, r: string, i: int, j: int)
    requires s != [] && IsSpace(s[0])
    requires TrimCut(s[1..], r, i, j)
    ensures TrimCut(s, r, i + 1, j + 1)
  {
    var t := s[1..];
    assert s[i + 1..j + 1] == t[i..j];
    assert s[j + 1..] == t[j..];
    var front := s[..i + 1];
    forall k | 0 <= k < |front| ensures IsSpace(front[k]) {
      if k > 0 {
        assert front[k] == t[..i][k - 1];
      }
    }
  }

  /** A cut of `s` without its trailing space is a cut of `s`. */
  lemma CutBack(s: string, r: string, i: int, j: int)
    requires s != [] && IsSpace(s[|s| - 1])
    requires TrimCut(s[..|s| - 1], r, i, j)
    ensures TrimCut(s, r, i, j)
  {
    var t := s[..|s| - 1];
    assert s[i..j] == t[i..j];
    assert s[..i] == t[..i];
    assert s[j..] == t[j..] + [s[|s| - 1]];
  }

  /** `trim` removes a blank prefix and a blank suffix. */
  lemma {:induction false} TrimCuts(s: string)
    ensures exists i, j :: TrimCut(s, Trim(s), i, j)
    decreases |s|
  {
    var r := Trim(s);
    if s == [] {
      assert TrimCut(s, r, 0, 0);
    } else if IsSpace(s[0]) {
      TrimCuts(s[1..]);
      var i, j :| TrimCut(s[1..], r, i, j);
      CutFront(s, r, i, j);
    } else if IsSpace(s[|s| - 1]) {
      TrimCuts(s[..|s| - 1]);
      var i, j :| TrimCut(s[..|s| - 1], r, i, j);
      CutBack(s, r, i, j);
    } else {
      assert r == s;
      assert s[0..|s|] == s && s[..0] == [] && s[|s|..] == [];
      assert TrimCut(s, r, 0, |s|);
    }
  }

  /** The ends of `trim`: the result is empty exactly when `s` is blank,
      otherwise it starts and ends with a non-space; a string with no white
      space at either end is left as it is. */
  lemma {:induction false} TrimEnds(s: string)
    ensures var r := Trim(s);
      && (r == [] <==> IsBlank(s))
      && (r != [] ==> !IsSpace(r[0]) && !IsSpace(r[|r| - 1]))
      && (s == [] || (!IsSpace(s[0]) && !IsSpace(s[|s| - 1])) ==> r == s)
    decreases |s|
  {
    if s != [] {
      if IsSpace(s[0]) {
        TrimEnds(s[1..]);
        assert forall i | 0 <= i < |s| - 1 :: s[1..][i] == s[i + 1];
      } else if IsSpace(s[|s| - 1]) {
        TrimEnds(s[..|s| - 1]);
        assert forall i | 0 <= i < |s| - 1 :: s[..|s| - 1][i] == s[i];
      }
    }
  }

  /** What `trim` promises: the result is `s` with a blank prefix and a
      blank suffix removed, and it neither starts nor ends with white space;
      so it is empty exactly when `s` is blank, and a string with no white
      space at either end is left as it is. */
  lemma TrimShape(s: string)
    ensures var r := Trim(s);
      && (exists i, j :: TrimCut(s, r, i, j))
      && (r == [] <==> IsBlank(s))
      && (r != [] ==> !IsSpace(r[0]) && !IsSpace(r[|r| - 1]))
      && (s == [] || (!IsSpace(s[0]) && !IsSpace(s[|s| - 1])) ==> r == s)
  {
    TrimCuts(s);
    TrimEnds(s);
  }

  lemma TrimIdempotent(s: string)
    ensures Trim(Trim(s)) == Trim(s)
  {
    TrimShape(s);
    TrimShape(Trim(s));
  }

  /** `toLowerCase` on one character. Only the letters A to Z are mapped. */
  function LowerChar(c: char): char {
    if 'A' <= c <= 'Z' then (c as int + 32) as char else c
  }

  /** `s.toLowerCase()`, character by character. */
  function ToLower(s: string): (r: string)
    ensures |r| == |s|
    ensures forall i | 0 <= i < |s| :: r[i] == LowerChar(s[i])
  {
    seq(|s|, i requires 0 <= i < |s| => LowerChar(s[i]))
  }

  lemma LowerCharSpace(c: char)
    ensures IsSpace(LowerChar(c)) == IsSpace(c)
  {
  }

  lemma ToLowerIdempotent(s: string)
    ensures ToLower(ToLower(s)) == ToLower(s)
  {
  }

  /** Lower-casing never turns a space into a non-space or back, so it
      commutes with trimming. */
  lemma {:induction false} ToLowerTrim(s: string)
    ensures Trim(ToLower(s)) == ToLower(Trim(s))
    decreases |s|
  {
    if s != [] {
      var l := ToLower(s);
      LowerCharSpace(s[0]);
      LowerCharSpace(s[|s| - 1]);
      assert l[0] == LowerChar(s[0]) && l[|l| - 1] == LowerChar(s[|s| - 1]);
      if IsSpace(s[0]) {
        assert l[1..] == ToLower(s[1..]);
        ToLowerTrim(s[1..]);
      } else if IsSpace(s[|s| - 1]) {
        assert l[..|l| - 1] == ToLower(s[..|s| - 1]);
        ToLowerTrim(s[..|s| - 1]);
      }
    }
  }

  /** `s.trim().toLowerCase()`. Its result is its own normal form. */
  function TrimLower(s: string): (r: string)
    ensures Trim(r) == r && ToLower(r) == r
  {
    ToLowerTrim(Trim(s));
    TrimIdempotent(s);
    ToLowerIdempotent(Trim(s));
    ToLower(Trim(s))
  }

  /** `s.length`: the number of UTF-16 code units, two for a character
      outside the Basic Multilingual Plane. */
  function Utf16Length(s: string): (n: nat)
    ensures |s| <= n <= 2 * |s|
    decreases |s|
  {
    if s == [] then 0 else (if s[0] as int >= 0x10000 then 2 else 1) + Utf16Length(s[1..])
  }

  /** Within the Basic Multilingual Plane the JavaScript length is the number of characters. */
  lemma {:induction false} Utf16LengthBmp(s: string)
    requires forall k | 0 <= k < |s| :: s[k] as int < 0x10000
    ensures Utf16Length(s) == |s|
    decreases |s|
  {
    if s != [] {
      assert forall k | 0 <= k < |s| - 1 :: s[1..][k] == s[k + 1];
      Utf16LengthBmp(s[1..]);
    }
  }

  /** `parts.join(sep)`. */
  function Join(parts: seq<string>, sep: char): string {
    if |parts| == 0 then []
    else if |parts| == 1 then parts[0]
    else parts[0] + [sep] + Join(parts[1..], sep)
  }

  /** `s.split(sep)` for a one-character separator: at least one part, no
      part holds the separator, and joining the parts gives `s` back. */
  function Split(s: string, sep: char): (parts: seq<string>)
    ensures |parts| >= 1
    ensures forall p <- parts :: sep !in p
    ensures Join(parts, sep) == s
    decreases |s|
  {
    if s == [] then [[]]
    else
      var rest := Split(s[1..], sep);
      if s[0] == sep then
        assert ([[]] + rest)[1..] == rest;
        [[]] + rest
      else
        var r := [[s[0]] + rest[0]] + rest[1..];
        assert r[1..] == rest[1..];
        assert s == [s[0]] + s[1..];
        r
  }

  lemma SplitCons(c: char, t: string, sep: char)
    requires c != sep
    ensures Split([c] + t, sep) == [[c] + Split(t, sep)[0]] + Split(t, sep)[1..]
  {
    assert ([c] + t)[1..] == t;
  }

  /** A non-empty string is its first character followed by the rest. */
  lemma ConsAppend(f: string, x: string)
    requires f != []
    ensures [f[0]] + (f[1..] + x) == f + x
  {
    assert f == [f[0]] + f[1..];
  }

  lemma {:induction false} SplitFront(p: string, t: string, sep: char)
    requires sep !in p
    ensures Split(p + t, sep) == [p + Split(t, sep)[0]] + Split(t, sep)[1..]
    decreases |p|
  {
    var f := Split(t, sep);
    if p != [] {
      SplitFront(p[1..], t, sep);
      ConsAppend(p, t);
      SplitCons(p[0], p[1..] + t, sep);
      ConsAppend(p, f[0]);
    } else {
      assert p + t == t;
      assert p + f[0] == f[0];
      assert [f[0]] + f[1..] == f;
    }
  }

  lemma SplitAtSeparator(t: string, sep: char)
    ensures Split([sep] + t, sep) == [[]] + Split(t, sep)
  {
    assert ([sep] + t)[1..] == t;
  }

  /** Splitting a join gives the parts back when no part holds the separator. */
  lemma {:induction false} SplitJoin(parts: seq<string>, sep: char)
    requires |parts| >= 1
    requires forall p <- parts :: sep !in p
    ensures Split(Join(parts, sep), sep) == parts
    decreases |parts|
  {
    var p := parts[0];
    if |parts| == 1 {
      SplitFront(p, [], sep);
      assert p + [] == p;
      assert Split([], sep) == [[]];
    } else {
      var tail := Join(parts[1..], sep);
      assert Join(parts, sep) == p + ([sep] + tail);
      SplitJoin(parts[1..], sep);
      SplitAtSeparator(tail, sep);
      SplitFront(p, [sep] + tail, sep);
      var g := [[]] + Split(tail, sep);
      assert g[0] == [] && g[1..] == parts[1..];
      assert p + g[0] == p;
      assert parts == [p] + parts[1..];
    }
  }

  /** A character that is neither the separator nor in any part is not in the join. */
  lemma {:induction false} JoinAvoids(parts: seq<string>, sep: char, c: char)
    requires c != sep
    requires forall p <- parts :: c !in p
    ensures c !in Join(parts, sep)
    decreases |parts|
  {
    if |parts| > 1 {
      JoinAvoids(parts[1..], sep, c);
    }
  }

  /** Joining blank parts with a white-space separator gives a blank string. */
  lemma {:induction false} JoinBlank(parts: seq<string>, sep: char)
    requires IsSpace(sep)
    requires forall p <- parts :: IsBlank(p)
    ensures IsBlank(Join(parts, sep))
    decreases |parts|
  {
    if |parts| > 1 {
      JoinBlank(parts[1..], sep);
      var j := Join(parts, sep);
      assert j == parts[0] + [sep] + Join(parts[1..], sep);
      forall i | 0 <= i < |j| ensures IsSpace(j[i]) {
        var rest := Join(parts[1..], sep);
        assert IsBlank(parts[0]) && IsBlank(rest);
        if i < |parts[0]| {
          assert j[i] == parts[0][i];
        } else if i == |parts[0]| {
          assert j[i] == sep;
        } else {
          assert j[i] == rest[i - |parts[0]| - 1];
          assert IsSpace(rest[i - |parts[0]| - 1]);
        }
      }
    }
  }

  /** `t` occurs in `s` starting at index `i`. */
  predicate OccursAt(s: string, t: string, i: int) {
    0 <= i <= |s| - |t| && s[i..i + |t|] == t
  }

  /** `s.includes(t)`. The empty string occurs in every string. */
  predicate Contains(s: string, t: string)
    ensures t == [] ==> Contains(s, t)
    ensures Contains(s, t) ==> |t| <= |s|
  {
    assert t == [] ==> OccursAt(s, t, 0);
    exists i | 0 <= i <= |s| - |t| :: OccursAt(s, t, i)
  }

  /** `s.endsWith(suffix)`: `s` is some string followed by `suffix`. */
  predicate EndsWith(s: string, suffix: string)
    ensures EndsWith(s, suffix) ==> |suffix| <= |s| && s == s[..|s| - |suffix|] + suffix
  {
    |suffix| <= |s| && s[|s| - |suffix|..] == suffix
  }

  /** The converse: any string followed by `suffix` ends with it. */
  lemma EndsWithSuffix(p: string, suffix: string)
    ensures EndsWith(p + suffix, suffix)
  {
    assert (p + suffix)[|p|..] == suffix;
  }

  /** `xs.indexOf(x)`: the first index that holds `x`, or -1 when there is none. */
  function IndexOf<T(==)>(xs: seq<T>, x: T): (r: int)
    ensures -1 <= r < |xs|
    ensures r == -1 <==> x !in xs
    ensures r >= 0 ==> xs[r] == x && x !in xs[..r]
    decreases |xs|
  {
    if |xs| == 0 then -1
    else if xs[0] == x then 0
    else
      var k := IndexOf(xs[1..], x);
      if k == -1 then -1
      else
        assert xs[..k + 1] == [xs[0]] + xs[1..][..k];
        k + 1
  }

  /** The positions of the non-blank lines, in increasing order. */
  function Kept(lines: seq<string>): (idx: seq<nat>)
    ensures forall m | 0 <= m < |idx| :: idx[m] < |lines|
    ensures forall m, n | 0 <= m < n < |idx| :: idx[m] < idx[n]
    ensures forall p | 0 <= p < |lines| :: p in idx <==> Trim(lines[p]) != []
    decreases |lines|
  {
    if lines == [] then []
    else
      var last := |lines| - 1;
      var front := lines[..last];
      var rest := Kept(front);
      assert forall p | 0 <= p < last :: lines[p] == front[p];
      if Trim(lines[last]) != [] then rest + [last] else rest
  }

  /** `lines.filter(line => line.trim())`: the lines that are not blank, in order. */
  function NonBlank(lines: seq<string>): (r: seq<string>)
    ensures |r| <= |lines|
    ensures forall l :: l in r <==> l in lines && Trim(l) != []
    decreases |lines|
  {
    if lines == [] then []
    else
      var last := |lines| - 1;
      Snoc(lines);
      if Trim(lines[last]) != [] then NonBlank(lines[..last]) + [lines[last]] else NonBlank(lines[..last])
  }

  /** The filter keeps order: the `m`-th line kept is the line at the `m`-th
      non-blank position, and there are as many as there are such positions. */
  lemma {:induction false} NonBlankKeepsOrder(lines: seq<string>)
    ensures |NonBlank(lines)| == |Kept(lines)|
    ensures forall m | 0 <= m < |Kept(lines)| :: NonBlank(lines)[m] == lines[Kept(lines)[m]]
    decreases |lines|
  {
    if lines != [] {
      var last := |lines| - 1;
      var front := lines[..last];
      NonBlankKeepsOrder(front);
      var before, at := NonBlank(front), Kept(front);
      var after, at' := NonBlank(lines), Kept(lines);
      if Trim(lines[last]) != [] {
        assert after == before + [lines[last]] && at' == at + [last];
      } else {
        assert after == before && at' == at;
      }
      forall m | 0 <= m < |at'| ensures after[m] == lines[at'[m]] {
        if m < |at| {
          assert at'[m] == at[m] && after[m] == before[m];
          assert lines[at[m]] == front[at[m]];
        }
      }
    }
  }

  /** The filter keeps multiplicity: each non-blank line is kept as often as
      it occurs, and no blank line is kept. */
  lemma {:induction false} NonBlankCounts(lines: seq<string>, l: string)
    ensures multiset(NonBlank(lines))[l] == if Trim(l) != [] then multiset(lines)[l] else 0
    decreases |lines|
  {
    if lines != [] {
      var last := |lines| - 1;
      var rest := NonBlank(lines[..last]);
      NonBlankCounts(lines[..last], l);
      Snoc(lines);
      if Trim(lines[last]) != [] {
        Snoc(rest + [lines[last]]);
        assert (rest + [lines[last]])[..|rest|] == rest;
      }
    }
  }

  /** A non-empty sequence is its front followed by its last element. */
  lemma Snoc<T>(xs: seq<T>)
    requires xs != []
    ensures xs == xs[..|xs| - 1] + [xs[|xs| - 1]]
    ensures multiset(xs) == multiset(xs[..|xs| - 1]) + multiset{xs[|xs| - 1]}
  {
    assert xs == xs[..|xs| - 1] + [xs[|xs| - 1]];
  }
}
