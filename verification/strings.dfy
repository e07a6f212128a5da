/** The PHP string built-ins the rewriter relies on (`str_starts_with`,
    `strpos`, `trim`, `explode`/`implode`, `str_replace`, `basename`,
    `empty`), over `string` = `seq<char>`. */
module Strings {
  import opened Wrappers

  const Backslash: char := '\\'
  const Slash: char := '/'

  /** `str_starts_with($s, $p)` */
  predicate StartsWith(s: string, p: string) {
    |p| <= |s| && s[..|p|] == p
  }

  /** `str_ends_with($s, $p)` */
  predicate EndsWith(s: string, p: string) {
    |p| <= |s| && s[|s| - |p|..] == p
  }

  predicate OccursAt(s: string, p: string, i: nat) {
    i + |p| <= |s| && s[i..i + |p|] == p
  }

  /** `strpos($s, $p)`: the first position at which `p` occurs, or `None`. */
  function IndexOf(s: string, p: string): (r: Option<nat>)
    ensures r.Some? ==> OccursAt(s, p, r.value)
    ensures r.Some? ==> forall j: nat :: j < r.value ==> !OccursAt(s, p, j)
    ensures r.None? ==> forall j: nat :: !OccursAt(s, p, j)
  {
    IndexFrom(s, p, 0)
  }

  function IndexFrom(s: string, p: string, i: nat): (r: Option<nat>)
    ensures r.Some? ==> i <= r.value && OccursAt(s, p, r.value)
    ensures r.Some? ==> forall j: nat :: i <= j < r.value ==> !OccursAt(s, p, j)
    ensures r.None? ==> forall j: nat :: i <= j ==> !OccursAt(s, p, j)
    decreases |s| - i
  {
    if i + |p| > |s| then None
    else if s[i..i + |p|] == p then Some(i)
    else IndexFrom(s, p, i + 1)
  }

  /** `str_contains($s, $p)` */
  predicate Contains(s: string, p: string) {
    IndexOf(s, p).Some?
  }

  /** PHP `empty()` on a string: true for `""` and for `"0"`. */
  predicate PhpEmpty(s: string) {
    s == "" || s == "0"
  }

  /** `ltrim($s, $c)` for a single character `c`. */
  function TrimLeft(s: string, c: char): (r: string)
    ensures |r| <= |s| && r == s[|s| - |r|..]
    ensures forall i :: 0 <= i < |s| - |r| ==> s[i] == c
    ensures r == [] || r[0] != c
    decreases |s|
  {
    if s != [] && s[0] == c then TrimLeft(s[1..], c) else s
  }

  /** `rtrim($s, $c)` for a single character `c`. */
  function TrimRight(s: string, c: char): (r: string)
    ensures |r| <= |s| && r == s[..|r|]
    ensures forall i :: |r| <= i < |s| ==> s[i] == c
    ensures r == [] || r[|r| - 1] != c
    decreases |s|
  {
    if s != [] && s[|s| - 1] == c then TrimRight(s[..|s| - 1], c) else s
  }

  /** A string made only of `c` trims to nothing. */
  lemma {:induction false} TrimRightAll(s: string, c: char)
    requires forall i :: 0 <= i < |s| ==> s[i] == c
    ensures TrimRight(s, c) == []
    decreases |s|
  {
    if s != [] {
      TrimRightAll(s[..|s| - 1], c);
    }
  }

  /** `trim($s, $c)` for a single character `c`. */
  function Trim(s: string, c: char): (r: string)
    ensures |r| <= |s|
    ensures r == [] || (r[0] != c && r[|r| - 1] != c)
  {
    TrimRight(TrimLeft(s, c), c)
  }

  /** A string with no `c` at either end is its own trim. */
  lemma TrimOfTrimmed(s: string, c: char)
    requires s == [] || (s[0] != c && s[|s| - 1] != c)
    ensures Trim(s, c) == s
  {
  }

  /** `c` followed by anything, trimmed of `c`, keeps a non-empty trimmed
      head `p` and then either stops or continues with `c`. */
  lemma TrimAfterHead(p: string, x: string, c: char)
    requires p != [] && p[0] != c && p[|p| - 1] != c
    ensures Trim(p + [c] + x, c) == p || StartsWith(Trim(p + [c] + x, c), p + [c])
  {
    var w := p + [c] + x;
    assert TrimLeft(w, c) == w;
    var r := TrimRight(w, c);
    assert w[|p| - 1] == p[|p| - 1] != c;
    assert |r| >= |p|;
    if |r| == |p| {
      assert r == w[..|p|] == p;
    } else {
      assert r[..|p| + 1] == w[..|p| + 1] == p + [c];
    }
  }

  /** Position of the first `d` in `s`. */
  function IndexOfChar(s: string, d: char): (i: nat)
    requires d in s
    ensures i < |s| && s[i] == d
    ensures forall j :: 0 <= j < i ==> s[j] != d
  {
    if s[0] == d then 0 else 1 + IndexOfChar(s[1..], d)
  }

  /** `explode($d, $s)`: always at least one part, none containing `d`. */
  function Split(s: string, d: char): (parts: seq<string>)
    ensures |parts| >= 1
    ensures forall i :: 0 <= i < |parts| ==> d !in parts[i]
    decreases |s|
  {
    if d !in s then [s]
    else
      var i := IndexOfChar(s, d);
      assert d !in s[..i] by {
        forall j | 0 <= j < i ensures s[..i][j] != d { }
      }
      [s[..i]] + Split(s[i + 1..], d)
  }

  /** `implode($d, $parts)` */
  function Join(parts: seq<string>, d: char): string {
    if |parts| == 0 then ""
    else if |parts| == 1 then parts[0]
    else parts[0] + [d] + Join(parts[1..], d)
  }

  lemma JoinCons(a: string, rest: seq<string>, d: char)
    requires |rest| >= 1
    ensures Join([a] + rest, d) == a + [d] + Join(rest, d)
  {
    assert ([a] + rest)[1..] == rest;
  }

  /** `implode` undoes `explode`. */
  lemma {:induction false} JoinSplit(s: string, d: char)
    ensures Join(Split(s, d), d) == s
    decreases |s|
  {
    if d in s {
      var i := IndexOfChar(s, d);
      JoinSplit(s[i + 1..], d);
      var rest := Split(s[i + 1..], d);
      assert Split(s, d) == [s[..i]] + rest;
      assert s == s[..i] + [d] + s[i + 1..];
    }
  }

  /** `explode` undoes `implode` when no part contains the separator. */
  lemma {:induction false} SplitJoin(parts: seq<string>, d: char)
    requires |parts| >= 1
    requires forall i :: 0 <= i < |parts| ==> d !in parts[i]
    ensures Split(Join(parts, d), d) == parts
  {
    if |parts| > 1 {
      var rest := Join(parts[1..], d);
      assert Split(Join(parts, d), d) == [parts[0]] + Split(rest, d) by {
        assert Join(parts, d) == parts[0] + [d] + rest;
        SplitCons(parts[0], rest, d);
      }
      assert Split(rest, d) == parts[1..] by {
        assert forall i :: 0 <= i < |parts[1..]| ==> parts[1..][i] == parts[i + 1];
        SplitJoin(parts[1..], d);
      }
      assert [parts[0]] + parts[1..] == parts;
    }
  }

  /** A first part without the separator is split off whole. */
  lemma SplitCons(p0: string, rest: string, d: char)
    requires d !in p0
    ensures Split(p0 + [d] + rest, d) == [p0] + Split(rest, d)
  {
    var s := p0 + [d] + rest;
    assert s[|p0|] == d;
    var i := IndexOfChar(s, d);
    assert i == |p0| by {
      forall j | 0 <= j < |p0| ensures s[j] != d {
        assert s[j] == p0[j];
      }
    }
    assert s[..i] == p0;
    assert s[i + 1..] == rest;
  }

  /** Everything after the last `d` (all of `s` when there is none); this is
      `substr($s, strrpos($s, $d) + 1)`. */
  function AfterLast(s: string, d: char): (r: string)
    ensures d !in r
    ensures EndsWith(s, r)
    ensures |r| == |s| || s[|s| - |r| - 1] == d
    decreases |s|
  {
    if s == [] then []
    else if s[|s| - 1] == d then []
    else
      var r := AfterLast(s[..|s| - 1], d) + [s[|s| - 1]];
      assert s[|s| - |r|..] == s[..|s| - 1][|s| - |r|..] + [s[|s| - 1]];
      r
  }

  /** PHP `basename($path)`: the last `/`-component, ignoring trailing slashes. */
  function Basename(path: string): (r: string)
    ensures Slash !in r
  {
    AfterLast(TrimRight(path, Slash), Slash)
  }

  /** `str_replace($from, $to, $s)`: every non-overlapping occurrence of
      `from`, scanning left to right, becomes `to`; an empty `from` changes
      nothing. */
  function ReplaceAll(s: string, from: string, to: string): (r: string)
    ensures from == [] || (forall j: nat :: !OccursAt(s, from, j)) ==> r == s
    decreases |s|
  {
    if from == [] || |s| < |from| then s
    else if s[..|from|] == from then
      assert OccursAt(s, from, 0);
      to + ReplaceAll(s[|from|..], from, to)
    else
      var rest := ReplaceAll(s[1..], from, to);
      assert (forall j: nat :: !OccursAt(s, from, j)) ==> (forall j: nat :: !OccursAt(s[1..], from, j)) by {
        forall j: nat | OccursAt(s[1..], from, j) ensures OccursAt(s, from, j + 1) {
          assert s[1..][j..j + |from|] == s[j + 1..j + 1 + |from|];
        }
      }
      [s[0]] + rest
  }

  /** A leading occurrence of `from` is replaced and scanning resumes after it. */
  lemma ReplaceAllHead(from: string, t: string, to: string)
    requires from != []
    ensures ReplaceAll(from + t, from, to) == to + ReplaceAll(t, from, to)
  {
    assert (from + t)[..|from|] == from;
    assert (from + t)[|from|..] == t;
  }

  /** `p` occurs nowhere in `s`. */
  ghost predicate Absent(s: string, p: string) {
    forall j: nat :: !OccursAt(s, p, j)
  }

  /** When the first occurrence of `from` follows the text `a`, `a` is kept,
      that occurrence becomes `to`, and scanning resumes after it. */
  lemma {:induction false} ReplaceAllFirst(a: string, from: string, b: string, to: string)
    requires from != []
    requires forall j: nat :: j < |a| ==> !OccursAt(a + from + b, from, j)
    ensures ReplaceAll(a + from + b, from, to) == a + to + ReplaceAll(b, from, to)
    decreases |a|
  {
    if a == [] {
      assert a + from + b == from + b;
      ReplaceAllHead(from, b, to);
    } else {
      FirstKept(a, from, b, to);
      ReplaceAllFirst(a[1..], from, b, to);
      ConsReplaced(a, from, b, to);
    }
  }

  /** Putting the kept first character back in front of the tail's result. */
  lemma ConsReplaced(a: string, from: string, b: string, to: string)
    requires a != []
    requires ReplaceAll(a + from + b, from, to) == [a[0]] + ReplaceAll(a[1..] + from + b, from, to)
    requires ReplaceAll(a[1..] + from + b, from, to) == a[1..] + to + ReplaceAll(b, from, to)
    ensures ReplaceAll(a + from + b, from, to) == a + to + ReplaceAll(b, from, to)
  {
    var rb := ReplaceAll(b, from, to);
    assert [a[0]] + (a[1..] + to + rb) == a + to + rb by {
      assert a == [a[0]] + a[1..];
    }
  }

  /** One step of `ReplaceAllFirst`: the first character of `a` is kept and
      the tail still has no occurrence before `from`. */
  lemma FirstKept(a: string, from: string, b: string, to: string)
    requires from != [] && a != []
    requires forall j: nat :: j < |a| ==> !OccursAt(a + from + b, from, j)
    ensures ReplaceAll(a + from + b, from, to) == [a[0]] + ReplaceAll(a[1..] + from + b, from, to)
    ensures forall j: nat :: j < |a[1..]| ==> !OccursAt(a[1..] + from + b, from, j)
  {
    var s := a + from + b;
    assert s[1..] == a[1..] + from + b;
    assert s[0] == a[0];
    ReplaceAllSkip(s, from, to);
    NoEarlyShift(s, from, |a|);
  }

  /** A text that starts with `from` and has no other occurrence of it has
      only that start replaced. */
  lemma ReplaceLeading(from: string, tail: string, to: string)
    requires from != [] && Absent(tail, from)
    ensures ReplaceAll(from + tail, from, to) == to + tail
  {
    ReplaceAllHead(from, tail, to);
  }

  /** A text with exactly one occurrence of `from`, after `a`, has only that
      occurrence replaced. */
  lemma ReplaceOnly(a: string, from: string, b: string, to: string)
    requires from != []
    requires forall j: nat :: j < |a| ==> !OccursAt(a + from + b, from, j)
    requires Absent(b, from)
    ensures ReplaceAll(a + from + b, from, to) == a + to + b
  {
    ReplaceAllFirst(a, from, b, to);
  }

  /** Where `from` does not start the text, the first character is kept. */
  lemma ReplaceAllSkip(s: string, from: string, to: string)
    requires from != [] && |s| >= |from| && !OccursAt(s, from, 0)
    ensures ReplaceAll(s, from, to) == [s[0]] + ReplaceAll(s[1..], from, to)
  {
    assert s[..|from|] != from;
  }

  /** No occurrence before `n` in `s` means none before `n - 1` in its tail. */
  lemma NoEarlyShift(s: string, p: string, n: nat)
    requires s != [] && n >= 1
    requires forall j: nat :: j < n ==> !OccursAt(s, p, j)
    ensures forall j: nat :: j < n - 1 ==> !OccursAt(s[1..], p, j)
  {
    forall j: nat | j < n - 1 ensures !OccursAt(s[1..], p, j) {
      OccursShift(s, p, j);
    }
  }

  lemma OccursShift(s: string, p: string, j: nat)
    requires s != []
    ensures OccursAt(s[1..], p, j) <==> OccursAt(s, p, j + 1)
  {
    if j + 1 + |p| <= |s| {
      assert s[j + 1..j + 1 + |p|] == s[1..][j..j + |p|];
    }
  }

  /** `str_replace` of one character by another maps the string character
      by character. */
  lemma {:induction false} ReplaceAllChar(s: string, a: char, b: char)
    ensures |ReplaceAll(s, [a], [b])| == |s|
    ensures forall i :: 0 <= i < |s| ==> ReplaceAll(s, [a], [b])[i] == if s[i] == a then b else s[i]
    decreases |s|
  {
    if s != [] {
      ReplaceAllChar(s[1..], a, b);
      if s[..1] == [a] {
        assert s[0] == a;
      } else {
        assert s[0] != a by { assert s[..1] == [s[0]]; }
      }
    }
  }

  /** After replacing every `a` by a different `b`, no `a` is left. */
  lemma ReplaceAllCharGone(s: string, a: char, b: char)
    requires a != b
    ensures a !in ReplaceAll(s, [a], [b])
  {
    ReplaceAllChar(s, a, b);
  }

  /** Mapping `a` to `b` and back restores a string that had no `b`. */
  lemma ReplaceAllCharBack(s: string, a: char, b: char)
    requires b !in s
    ensures ReplaceAll(ReplaceAll(s, [a], [b]), [b], [a]) == s
  {
    var t := ReplaceAll(s, [a], [b]);
    ReplaceAllChar(s, a, b);
    ReplaceAllChar(t, b, a);
  }

  /** Trailing `c`s do not change what a string trims to. */
  lemma TrimRightExtra(s: string, c: char)
    ensures TrimRight(s + [c], c) == TrimRight(s, c)
  {
    assert (s + [c])[..|s|] == s;
  }

  predicate IsPhpSpace(ch: char) {
    ch == ' ' || ch == '\t' || ch == '\n' || ch == '\r' || ch == '\U{B}' || ch == '\U{C}'
  }

  function AsciiLower(ch: char): char {
    if 'A' <= ch <= 'Z' then (ch as int + 32) as char else ch
  }

  function LowerAscii(s: string): (r: string)
    ensures |r| == |s|
    ensures forall i :: 0 <= i < |s| ==> r[i] == AsciiLower(s[i])
  {
    if s == [] then [] else [AsciiLower(s[0])] + LowerAscii(s[1..])
  }

  function SkipSpace(s: string): (r: string)
    ensures |r| <= |s| && r == s[|s| - |r|..]
    ensures forall i :: 0 <= i < |s| - |r| ==> IsPhpSpace(s[i])
    ensures r == [] || !IsPhpSpace(r[0])
  {
    if s != [] && IsPhpSpace(s[0]) then SkipSpace(s[1..]) else s
  }

  /** `preg_match('/^\s*<\?php/i', $s)` */
  predicate HasPhpOpenTag(s: string) {
    var t := SkipSpace(s);
    |t| >= 5 && LowerAscii(t[..5]) == "<?php"
  }
}
