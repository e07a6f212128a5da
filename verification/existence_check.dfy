/** Recognition of reflection-style calls (`class_exists('X')`,
    `constant('X::Y')`, `class_alias('A', 'B')`, ...) whose string arguments
    name a symbol, and extraction of the symbol part of those strings. */
module ExistenceCheck {
  import opened Wrappers
  import opened Strings
  import opened Syntax

  /** The recognised functions and the zero-based argument positions that
      hold a symbol name; `None` for every other function. */
  function ArgIndices(fn: string): (r: Option<seq<nat>>)
    ensures r.Some? ==> |r.value| >= 1 && Increasing(r.value)
  {
    if fn == "function_exists" || fn == "class_exists" || fn == "interface_exists"
       || fn == "trait_exists" || fn == "enum_exists" || fn == "constant"
       || fn == "defined" || fn == "method_exists" || fn == "property_exists"
       || fn == "is_callable"
    then Some([0])
    else if fn == "is_a" || fn == "is_subclass_of" then Some([1])
    else if fn == "class_alias" then Some([0, 1])
    else None
  }

  predicate Increasing(xs: seq<nat>) {
    forall i, j :: 0 <= i < j < |xs| ==> xs[i] < xs[j]
  }

  /** The functions whose argument may be `Class::member`. */
  predicate SupportsDoubleColon(fn: string) {
    fn == "constant" || fn == "defined" || fn == "is_callable"
  }

  /** Whether `i` is a symbol-holding argument position of a call whose
      callee has the static name `fn`. */
  predicate IsCheckedArg(fn: Option<string>, i: nat) {
    fn.Some? && ArgIndices(fn.value).Some? && i in ArgIndices(fn.value).value
  }

  /** Where the string literal to rewrite sits inside the argument: the
      argument itself, or the left operand of `'X::' . $member`. */
  datatype Site = WholeArg | ConcatLeft

  /** One recognised argument: its position, where its literal sits, and
      that literal split into the symbol `value` and a `::member` `suffix`. */
  datatype Parsed = Parsed(argIndex: nat, site: Site, value: string, suffix: string)

  /** Splits a literal at its first `::` for the functions that accept
      `Class::member`; for every other function the suffix is empty. */
  function ExtractValueAndSuffix(fn: string, lit: string): (r: (string, string))
    ensures r.0 + r.1 == lit
    ensures r.1 != "" ==> SupportsDoubleColon(fn) && StartsWith(r.1, "::")
    ensures r.1 != "" ==> IndexOf(lit, "::") == Some(|r.0|)
    ensures SupportsDoubleColon(fn) && Contains(lit, "::") <==> r.1 != ""
  {
    if SupportsDoubleColon(fn) && Contains(lit, "::") then
      var pos := IndexOf(lit, "::").value;
      assert lit[pos..pos + 2] == "::";
      assert lit[pos..][..2] == lit[pos..pos + 2];
      assert lit[..pos] + lit[pos..] == lit;
      (lit[..pos], lit[pos..])
    else
      (lit, "")
  }

  /** `constant('X::' . $member)` and the like: accepted only for the three
      `Class::member` functions and only when the left operand is a literal
      ending in `::`; the symbol is that literal without its `::`. */
  function ParseDoubleColonConcat(fn: string, i: nat, arg: Node): (r: Option<Parsed>)
    ensures r.Some? <==>
      SupportsDoubleColon(fn) && arg.Concat? && arg.left.StringLit? && EndsWith(arg.left.value, "::")
    ensures r.Some? ==> r.value == Parsed(i, ConcatLeft, r.value.value, "::")
    ensures r.Some? ==> arg.left == StringLit(r.value.value + "::")
  {
    if !SupportsDoubleColon(fn) then None
    else if !(arg.Concat? && arg.left.StringLit?) then None
    else if !EndsWith(arg.left.value, "::") then None
    else
      var lit := arg.left.value;
      assert lit == lit[..|lit| - 2] + "::";
      Some(Parsed(i, ConcatLeft, lit[..|lit| - 2], "::"))
  }

  /** `p` describes the literal actually present in argument `p.argIndex`:
      the symbol followed by the suffix is that literal. */
  predicate Located(fn: string, args: seq<ArgSlot>, p: Parsed) {
    && p.argIndex < |args|
    && args[p.argIndex].Arg?
    && match p.site
       case WholeArg =>
         && args[p.argIndex].value == StringLit(p.value + p.suffix)
         && ExtractValueAndSuffix(fn, p.value + p.suffix) == (p.value, p.suffix)
       case ConcatLeft =>
         && SupportsDoubleColon(fn)
         && p.suffix == "::"
         && args[p.argIndex].value.Concat?
         && args[p.argIndex].value.left == StringLit(p.value + p.suffix)
  }

  function Indices(ps: seq<Parsed>): seq<nat> {
    if ps == [] then [] else [ps[0].argIndex] + Indices(ps[1..])
  }

  /** Whether argument `i` is a plain string literal. */
  predicate IsLiteralArg(args: seq<ArgSlot>, i: nat) {
    i < |args| && args[i].Arg? && args[i].value.StringLit?
  }

  /** The result for argument position `i` of a call to `fn`: a missing
      position, a non-`Arg` entry or an unsupported expression yields
      nothing. */
  function ParseOne(fn: string, args: seq<ArgSlot>, i: nat): (r: Option<Parsed>)
    ensures r.Some? ==> Located(fn, args, r.value) && r.value.argIndex == i
    ensures IsLiteralArg(args, i) ==> r.Some? && r.value.site == WholeArg
    ensures r.Some? && r.value.site == WholeArg ==> IsLiteralArg(args, i)
  {
    if |args| <= i || !args[i].Arg? then None
    else if !args[i].value.StringLit? then ParseDoubleColonConcat(fn, i, args[i].value)
    else
      var vs := ExtractValueAndSuffix(fn, args[i].value.value);
      Some(Parsed(i, WholeArg, vs.0, vs.1))
  }

  /** The results for the positions `idx`, in that order. */
  function ParseAt(fn: string, args: seq<ArgSlot>, idx: seq<nat>): (r: seq<Parsed>)
    ensures forall p :: p in r ==> Located(fn, args, p) && p.argIndex in idx && ParseOne(fn, args, p.argIndex) == Some(p)
    ensures |r| <= |idx|
    ensures Increasing(idx) ==> Increasing(Indices(r))
    ensures forall i :: i in idx && ParseOne(fn, args, i).Some? ==> i in Indices(r)
  {
    if idx == [] then []
    else
      var o := ParseOne(fn, args, idx[0]);
      var here := if o.Some? then [o.value] else [];
      var rest := ParseAt(fn, args, idx[1..]);
      ParseAtElems(fn, args, idx, o, here, rest);
      ParseAtOrder(idx, here, rest);
      ParseAtCovers(fn, args, idx, here, rest);
      here + rest
  }

  /** The step of `ParseAt`: each result, head's or tail's, is located and
      is what its position parses to. */
  lemma ParseAtElems(fn: string, args: seq<ArgSlot>, idx: seq<nat>, o: Option<Parsed>, here: seq<Parsed>, rest: seq<Parsed>)
    requires idx != [] && o == ParseOne(fn, args, idx[0])
    requires here == if o.Some? then [o.value] else []
    requires forall p :: p in rest ==> Located(fn, args, p) && p.argIndex in idx[1..] && ParseOne(fn, args, p.argIndex) == Some(p)
    requires |rest| <= |idx[1..]|
    ensures forall p :: p in here + rest ==> Located(fn, args, p) && p.argIndex in idx && ParseOne(fn, args, p.argIndex) == Some(p)
    ensures |here + rest| <= |idx|
  {
    assert forall j :: j in idx[1..] ==> j in idx;
  }

  /** The step of `ParseAt` keeps the results in increasing position order. */
  lemma ParseAtOrder(idx: seq<nat>, here: seq<Parsed>, rest: seq<Parsed>)
    requires idx != [] && |here| <= 1 && (|here| == 1 ==> here[0].argIndex == idx[0])
    requires forall p :: p in rest ==> p.argIndex in idx[1..]
    requires Increasing(idx[1..]) ==> Increasing(Indices(rest))
    ensures Increasing(idx) ==> Increasing(Indices(here + rest))
  {
    if Increasing(idx) {
      assert idx == [idx[0]] + idx[1..];
      RestAbove(idx[0], idx[1..], rest);
    }
    IncreasingCons(idx[0], here, rest, idx);
  }

  /** The step of `ParseAt` misses no position that parses. */
  lemma ParseAtCovers(fn: string, args: seq<ArgSlot>, idx: seq<nat>, here: seq<Parsed>, rest: seq<Parsed>)
    requires idx != [] && here == match ParseOne(fn, args, idx[0]) case Some(p) => [p] case None => []
    requires forall i :: i in idx[1..] && ParseOne(fn, args, i).Some? ==> i in Indices(rest)
    ensures forall i :: i in idx && ParseOne(fn, args, i).Some? ==> i in Indices(here + rest)
  {
    IndicesAppend(here, rest);
    assert idx == [idx[0]] + idx[1..];
  }

  /** In an increasing index list, results for the tail sit above the head. */
  lemma RestAbove(i: nat, tail: seq<nat>, rest: seq<Parsed>)
    requires Increasing([i] + tail)
    requires forall p :: p in rest ==> p.argIndex in tail
    ensures forall j :: j in Indices(rest) ==> i < j
  {
    forall j | j in Indices(rest) ensures i < j {
      IndicesIn(rest, j);
      var m :| 0 <= m < |rest| && rest[m].argIndex == j;
      assert j in tail;
      var k :| 0 <= k < |tail| && tail[k] == j;
      assert ([i] + tail)[0] == i && ([i] + tail)[k + 1] == j;
    }
  }

  lemma IndicesAppend(a: seq<Parsed>, b: seq<Parsed>)
    ensures Indices(a + b) == Indices(a) + Indices(b)
  {
    if a == [] {
      assert a + b == b;
    } else {
      assert (a + b)[1..] == a[1..] + b;
      IndicesAppend(a[1..], b);
    }
  }

  lemma IndicesIn(ps: seq<Parsed>, j: nat)
    requires j in Indices(ps)
    ensures exists k :: 0 <= k < |ps| && ps[k].argIndex == j
  {
    if ps[0].argIndex != j {
      IndicesIn(ps[1..], j);
      var k :| 0 <= k < |ps[1..]| && ps[1..][k].argIndex == j;
      assert ps[k + 1].argIndex == j;
    }
  }

  lemma IndicesLength(ps: seq<Parsed>)
    ensures |Indices(ps)| == |ps|
    ensures forall k :: 0 <= k < |ps| ==> Indices(ps)[k] == ps[k].argIndex
  {
    if ps != [] {
      IndicesLength(ps[1..]);
    }
  }

  lemma IncreasingCons(i: nat, here: seq<Parsed>, rest: seq<Parsed>, idx: seq<nat>)
    requires |here| <= 1 && (|here| == 1 ==> here[0].argIndex == i)
    requires Increasing(idx) ==> Increasing(Indices(rest)) && forall j :: j in Indices(rest) ==> i < j
    ensures Increasing(idx) ==> Increasing(Indices(here + rest))
  {
    IndicesAppend(here, rest);
    if Increasing(idx) && |here| == 1 {
      var s := Indices(here + rest);
      assert s == [i] + Indices(rest);
      forall a, b | 0 <= a < b < |s| ensures s[a] < s[b] {
        if a == 0 {
          assert s[b] == Indices(rest)[b - 1];
          assert s[b] in Indices(rest);
        } else {
          assert s[a] == Indices(rest)[a - 1] && s[b] == Indices(rest)[b - 1];
        }
      }
    }
  }

  /** `parseAllExistenceChecks`: every recognised argument of the call, in
      argument-index order. A callee that is not a static name, or a
      function outside the catalogue, yields nothing. */
  function ParseAll(callee: Node, args: seq<ArgSlot>): (r: seq<Parsed>)
    ensures !callee.NameRef? ==> r == []
    ensures callee.NameRef? && ArgIndices(callee.name.str).None? ==> r == []
    ensures forall k :: 0 <= k < |r| ==>
      Located(callee.name.str, args, r[k]) && IsCheckedArg(CalleeName(callee), r[k].argIndex)
    ensures forall k :: 0 <= k < |r| ==> ParseOne(callee.name.str, args, r[k].argIndex) == Some(r[k])
    ensures Increasing(Indices(r))
    ensures forall i: nat :: IsCheckedArg(CalleeName(callee), i) && ParseOne(callee.name.str, args, i).Some? ==> i in Indices(r)
    ensures forall i: nat :: IsCheckedArg(CalleeName(callee), i) && IsLiteralArg(args, i) ==> i in Indices(r)
  {
    if !callee.NameRef? then []
    else
      var fn := callee.name.str;
      match ArgIndices(fn)
      case None => []
      case Some(idx) => ParseAt(fn, args, idx)
  }

  /** `parseExistenceCheck`: the first recognised argument, or `None`. */
  function ParseFirst(callee: Node, args: seq<ArgSlot>): (r: Option<Parsed>)
    ensures r.None? <==> ParseAll(callee, args) == []
    ensures r.Some? ==> Located(callee.name.str, args, r.value)
    ensures r.Some? ==> forall k :: 0 <= k < |ParseAll(callee, args)| ==>
      r.value.argIndex <= ParseAll(callee, args)[k].argIndex
  {
    var all := ParseAll(callee, args);
    if all == [] then None
    else
      IndicesLength(all);
      Some(all[0])
  }

  /** The argument list with the literal that `p` locates replaced by `s`. */
  function SetLiteral(args: seq<ArgSlot>, p: Parsed, s: string): (r: seq<ArgSlot>)
    requires p.argIndex < |args| && args[p.argIndex].Arg?
    requires p.site == ConcatLeft ==> args[p.argIndex].value.Concat?
    ensures |r| == |args|
    ensures forall i :: 0 <= i < |args| && i != p.argIndex ==> r[i] == args[i]
    ensures p.site == WholeArg ==> r[p.argIndex] == Arg(StringLit(s))
    ensures p.site == ConcatLeft ==>
      r[p.argIndex] == Arg(Concat(StringLit(s), args[p.argIndex].value.right))
  {
    var v := args[p.argIndex].value;
    var v' := if p.site == WholeArg then StringLit(s) else Concat(StringLit(s), v.right);
    args[p.argIndex := Arg(v')]
  }

  /** A rewrite of symbol strings: the replacement for a symbol, or `None`
      to leave it as it is. */
  type Renaming = string -> Option<string>

  /** The argument slots fit the site `p` names. */
  predicate Fits(args: seq<ArgSlot>, p: Parsed) {
    && p.argIndex < |args|
    && args[p.argIndex].Arg?
    && (p.site == ConcatLeft ==> args[p.argIndex].value.Concat?)
  }

  /** `argNode->value = replacement . suffix` for one parsed argument, when
      `f` has a replacement for its symbol. */
  function RewriteOne(args: seq<ArgSlot>, p: Parsed, f: Renaming): (r: seq<ArgSlot>)
    requires Fits(args, p)
    ensures |r| == |args|
    ensures forall i :: 0 <= i < |args| && i != p.argIndex ==> r[i] == args[i]
  {
    match f(p.value)
    case Some(s) => SetLiteral(args, p, s + p.suffix)
    case None => args
  }

  /** The loop over the parsed arguments of one call: each is rewritten in
      turn. */
  function RewriteAll(args: seq<ArgSlot>, ps: seq<Parsed>, f: Renaming): (r: seq<ArgSlot>)
    requires forall k :: 0 <= k < |ps| ==> Fits(args, ps[k])
    requires Increasing(Indices(ps))
    ensures |r| == |args|
    decreases |ps|
  {
    if ps == [] then args
    else
      assert Fits(args, ps[0]);
      var args1 := RewriteOne(args, ps[0], f);
      TailFits(args, args1, ps);
      RewriteAll(args1, ps[1..], f)
  }

  /** The parsed arguments of a call rewritten by `f`. */
  function RewriteChecks(callee: Node, args: seq<ArgSlot>, f: Renaming): (r: seq<ArgSlot>)
    ensures |r| == |args|
  {
    RewriteAll(args, ParseAll(callee, args), f)
  }

  /** After rewriting the first parsed argument, the others still fit and
      their positions are still increasing. */
  lemma TailFits(args: seq<ArgSlot>, args1: seq<ArgSlot>, ps: seq<Parsed>)
    requires ps != [] && Increasing(Indices(ps))
    requires forall k :: 0 <= k < |ps| ==> Fits(args, ps[k])
    requires |args1| == |args|
    requires forall i :: 0 <= i < |args| && i != ps[0].argIndex ==> args1[i] == args[i]
    ensures forall k :: 0 <= k < |ps[1..]| ==> Fits(args1, ps[1..][k])
    ensures Increasing(Indices(ps[1..]))
  {
    IncreasingTail(ps);
    forall k | 0 <= k < |ps[1..]| ensures Fits(args1, ps[1..][k]) {
      assert ps[1..][k] == ps[k + 1];
      assert Fits(args, ps[k + 1]);
    }
  }

  /** Strictly increasing positions: the head's differs from every later
      one, and the tail is still increasing. */
  lemma IncreasingTail(ps: seq<Parsed>)
    requires ps != [] && Increasing(Indices(ps))
    ensures forall k :: 1 <= k < |ps| ==> ps[0].argIndex < ps[k].argIndex
    ensures Increasing(Indices(ps[1..]))
  {
    IndicesLength(ps);
    IndicesLength(ps[1..]);
    forall k | 1 <= k < |ps| ensures ps[0].argIndex < ps[k].argIndex {
      assert Indices(ps)[0] < Indices(ps)[k];
    }
    forall a, b | 0 <= a < b < |ps[1..]|
      ensures Indices(ps[1..])[a] < Indices(ps[1..])[b]
    {
      assert Indices(ps)[a + 1] < Indices(ps)[b + 1];
    }
  }

  /** The parsed arguments are rewritten independently: positions nobody
      parsed keep their argument, and each parsed position ends up as its
      own step alone would leave it. */
  lemma {:induction false} RewriteAllEffect(args: seq<ArgSlot>, ps: seq<Parsed>, f: Renaming)
    requires forall k :: 0 <= k < |ps| ==> Fits(args, ps[k])
    requires Increasing(Indices(ps))
    ensures forall i :: 0 <= i < |args| && i !in Indices(ps) ==> RewriteAll(args, ps, f)[i] == args[i]
    ensures forall k :: 0 <= k < |ps| ==>
      RewriteAll(args, ps, f)[ps[k].argIndex] == RewriteOne(args, ps[k], f)[ps[k].argIndex]
    decreases |ps|
  {
    if ps != [] {
      var p := ps[0];
      assert Fits(args, p);
      var args1 := RewriteOne(args, p, f);
      TailFits(args, args1, ps);
      IncreasingTail(ps);
      RewriteAllEffect(args1, ps[1..], f);
      var r := RewriteAll(args, ps, f);
      assert r == RewriteAll(args1, ps[1..], f);
      assert Indices(ps) == [p.argIndex] + Indices(ps[1..]);
      IndicesLength(ps[1..]);
      assert p.argIndex !in Indices(ps[1..]) by {
        forall j | 0 <= j < |ps[1..]| ensures Indices(ps[1..])[j] != p.argIndex {
          assert ps[1..][j] == ps[j + 1];
        }
      }
      forall k | 0 <= k < |ps| ensures r[ps[k].argIndex] == RewriteOne(args, ps[k], f)[ps[k].argIndex] {
        if k > 0 {
          assert ps[1..][k - 1] == ps[k];
          assert Fits(args, ps[k]);
          assert args1[ps[k].argIndex] == args[ps[k].argIndex];
        }
      }
    }
  }

  /** Argument `b` is argument `a` with the literal `s` it holds, whole or
      as the left operand of a concatenation, replaced by `t`. */
  predicate LiteralReplaced(a: ArgSlot, b: ArgSlot, s: string, t: string) {
    && a.Arg? && b.Arg?
    && ((a.value == StringLit(s) && b.value == StringLit(t))
        || (a.value.Concat? && a.value.left == StringLit(s)
            && b.value == Concat(StringLit(t), a.value.right)))
  }

  /** A rewritten call changes an argument only at a position the catalogue
      names for the callee, and only by replacing a symbol that `f` renames,
      keeping the suffix after it. */
  lemma RewriteChecksOnlySymbols(callee: Node, args: seq<ArgSlot>, f: Renaming, i: nat)
    requires i < |args|
    requires RewriteChecks(callee, args, f)[i] != args[i]
    ensures IsCheckedArg(CalleeName(callee), i)
    ensures exists v, suffix ::
      (f(v).Some? && LiteralReplaced(args[i], RewriteChecks(callee, args, f)[i], v + suffix, f(v).value + suffix))
  {
    var ps := ParseAll(callee, args);
    RewriteAllEffect(args, ps, f);
    IndicesIn(ps, i);
    var k :| 0 <= k < |ps| && ps[k].argIndex == i;
    var p := ps[k];
    assert Located(callee.name.str, args, p);
    assert f(p.value).Some? && LiteralReplaced(args[i], RewriteChecks(callee, args, f)[i], p.value + p.suffix, f(p.value).value + p.suffix);
  }

  /** A plain literal at a catalogued position is rewritten exactly when `f`
      renames its symbol part, and then becomes the replacement followed by
      the literal's `::member` suffix. */
  lemma RewriteChecksLiteral(callee: Node, args: seq<ArgSlot>, f: Renaming, i: nat)
    requires IsCheckedArg(CalleeName(callee), i) && IsLiteralArg(args, i)
    ensures var vs := ExtractValueAndSuffix(callee.name.str, args[i].value.value);
      RewriteChecks(callee, args, f)[i]
        == if f(vs.0).Some? then Arg(StringLit(f(vs.0).value + vs.1)) else args[i]
  {
    var ps := ParseAll(callee, args);
    RewriteAllEffect(args, ps, f);
    IndicesIn(ps, i);
    var k :| 0 <= k < |ps| && ps[k].argIndex == i;
    var p := ps[k];
    assert Located(callee.name.str, args, p);
    assert p.site == WholeArg;
  }

  /** `f` only renames into symbols it leaves alone, and no replacement
      holds a `:`. */
  ghost predicate Settled(f: Renaming) {
    forall v :: f(v).Some? ==> f(f(v).value).None? && ':' !in f(v).value
  }

  /** What is parsed at position `i` depends on that argument alone. */
  lemma ParseOneLocal(fn: string, a: seq<ArgSlot>, b: seq<ArgSlot>, i: nat)
    requires |a| == |b| && (i < |a| ==> a[i] == b[i])
    ensures ParseOne(fn, a, i) == ParseOne(fn, b, i)
  {
  }

  /** A symbol without `:` never holds a `::`. */
  lemma NoDoubleColon(w: string)
    requires ':' !in w
    ensures !Contains(w, "::")
  {
    forall j: nat ensures !OccursAt(w, "::", j) {
      if j + 2 <= |w| {
        assert w[j..j + 2][0] == w[j];
        assert w[j] in w;
      }
    }
  }

  lemma IndicesNotIn(ps: seq<Parsed>, j: nat)
    requires forall k :: 0 <= k < |ps| ==> ps[k].argIndex != j
    ensures j !in Indices(ps)
  {
    if ps != [] {
      assert forall k :: 0 <= k < |ps[1..]| ==> ps[1..][k] == ps[k + 1];
      IndicesNotIn(ps[1..], j);
    }
  }

  /** A rewritten literal parses back into the replacement and the suffix
      it was given. */
  lemma ReparseRewritten(fn: string, args: seq<ArgSlot>, p: Parsed, w: string)
    requires ParseOne(fn, args, p.argIndex) == Some(p)
    requires ':' !in w
    ensures ParseOne(fn, SetLiteral(args, p, w + p.suffix), p.argIndex) == Some(p.(value := w))
  {
    match p.site
    case WholeArg =>
      var orig := args[p.argIndex].value.value;
      assert ExtractValueAndSuffix(fn, w + p.suffix) == (w, p.suffix) by {
        ExtractRewritten(fn, orig, p.value, p.suffix, w);
      }
    case ConcatLeft =>
      assert (w + "::")[..|w + "::"| - 2] == w;
  }

  /** A literal split into a value and a suffix, with the value replaced by
      one without `:`, splits into the replacement and the same suffix. */
  lemma ExtractRewritten(fn: string, orig: string, v: string, suffix: string, w: string)
    requires ExtractValueAndSuffix(fn, orig) == (v, suffix)
    requires ':' !in w
    ensures ExtractValueAndSuffix(fn, w + suffix) == (w, suffix)
  {
    var lit := w + suffix;
    var vs := ExtractValueAndSuffix(fn, lit);
    NoDoubleColon(w);
    if suffix == "" {
      assert lit == w;
    } else {
      assert SupportsDoubleColon(fn) && StartsWith(suffix, "::");
      assert OccursAt(lit, "::", |w|) by {
        assert lit[|w|..|w| + 2] == suffix[..2];
      }
      forall j: nat | j < |w| ensures !OccursAt(lit, "::", j) {
        assert lit[j..j + 2][0] == lit[j] == w[j];
        assert w[j] in w;
      }
      assert vs.1 != "";
      assert |vs.0| == |w|;
      assert vs.0 == lit[..|w|] == w;
    }
  }

  /** Rewriting the symbols of a call a second time changes nothing, when
      `f` is settled. */
  lemma RewriteChecksIdempotent(callee: Node, args: seq<ArgSlot>, f: Renaming)
    requires Settled(f)
    ensures RewriteChecks(callee, RewriteChecks(callee, args, f), f) == RewriteChecks(callee, args, f)
  {
    var r := RewriteChecks(callee, args, f);
    var r2 := RewriteChecks(callee, r, f);
    forall i | 0 <= i < |r| ensures r2[i] == r[i] {
      IdempotentAt(callee, args, f, i);
    }
  }

  lemma IdempotentAt(callee: Node, args: seq<ArgSlot>, f: Renaming, i: nat)
    requires Settled(f) && i < |args|
    ensures RewriteChecks(callee, RewriteChecks(callee, args, f), f)[i] == RewriteChecks(callee, args, f)[i]
  {
    if IsCheckedArg(CalleeName(callee), i) && ParseOne(callee.name.str, args, i).Some? {
      IdempotentAtParsed(callee, args, f, i, ParseOne(callee.name.str, args, i).value);
    } else {
      var r := RewriteChecks(callee, args, f);
      var ps, qs := ParseAll(callee, args), ParseAll(callee, r);
      RewriteAllEffect(args, ps, f);
      RewriteAllEffect(r, qs, f);
      IndicesNotIn(ps, i);
      if IsCheckedArg(CalleeName(callee), i) {
        ParseOneLocal(callee.name.str, r, args, i);
      }
      IndicesNotIn(qs, i);
    }
  }

  lemma IdempotentAtParsed(callee: Node, args: seq<ArgSlot>, f: Renaming, i: nat, p: Parsed)
    requires Settled(f) && i < |args|
    requires IsCheckedArg(CalleeName(callee), i) && ParseOne(callee.name.str, args, i) == Some(p)
    ensures RewriteChecks(callee, RewriteChecks(callee, args, f), f)[i] == RewriteChecks(callee, args, f)[i]
  {
    var fn := callee.name.str;
    var r := RewriteChecks(callee, args, f);
    var ps := ParseAll(callee, args);
    RewriteAllEffect(args, ps, f);
    IndicesIn(ps, i);
    var k :| 0 <= k < |ps| && ps[k].argIndex == i;
    assert ps[k] == p;
    assert r[i] == RewriteOne(args, p, f)[i];
    var q := RewrittenParse(fn, args, r, f, p);
    RewriteAgainAt(callee, r, f, q);
  }

  /** How the rewritten argument parses: the replacement, if any, in place
      of the symbol. */
  lemma RewrittenParse(fn: string, args: seq<ArgSlot>, r: seq<ArgSlot>, f: Renaming, p: Parsed) returns (q: Parsed)
    requires Settled(f)
    requires ParseOne(fn, args, p.argIndex) == Some(p)
    requires |r| == |args| && r[p.argIndex] == RewriteOne(args, p, f)[p.argIndex]
    ensures ParseOne(fn, r, p.argIndex) == Some(q)
    ensures f(q.value).None?
    ensures RewriteOne(r, q, f) == r
  {
    q := p;
    if f(p.value).Some? {
      var w := f(p.value).value;
      ReparseRewritten(fn, args, p, w);
      ParseOneLocal(fn, r, SetLiteral(args, p, w + p.suffix), p.argIndex);
      q := p.(value := w);
    } else {
      ParseOneLocal(fn, r, args, p.argIndex);
    }
  }

  /** A parsed argument that `f` leaves alone stays as it is on the second
      pass. */
  lemma RewriteAgainAt(callee: Node, r: seq<ArgSlot>, f: Renaming, q: Parsed)
    requires IsCheckedArg(CalleeName(callee), q.argIndex)
    requires ParseOne(callee.name.str, r, q.argIndex) == Some(q)
    requires RewriteOne(r, q, f) == r
    ensures RewriteChecks(callee, r, f)[q.argIndex] == r[q.argIndex]
  {
    var qs := ParseAll(callee, r);
    RewriteAllEffect(r, qs, f);
    IndicesIn(qs, q.argIndex);
    var k :| 0 <= k < |qs| && qs[k].argIndex == q.argIndex;
    assert qs[k] == q;
  }
}
