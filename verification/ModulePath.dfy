/** Module paths: splitting, normalising and rejoining, and the canonical form that results. */
module ModulePath {
  import opened Machine

  const NUL: char := '\0'

  predicate IsSeparator(c: char) {
    c == '/' || c == '\\'
  }

  function Split(path: string): (segments: seq<string>)
    ensures segments != []
  {
    if path == "" then [""]
    else
      var rest := Split(path[1..]);
      if IsSeparator(path[0]) then [""] + rest else [[path[0]] + rest[0]] + rest[1..]
  }

  function Join(segments: seq<string>): string {
    if segments == [] then ""
    else if |segments| == 1 then segments[0]
    else segments[0] + "/" + Join(segments[1..])
  }

  /** Applies segments in order to a stack; `..` on the empty stack fails. */
  function Walk(segments: seq<string>, stack: seq<string>): Option<seq<string>> {
    if segments == [] then Some(stack)
    else if segments[0] == "" || segments[0] == "." then Walk(segments[1..], stack)
    else if segments[0] == ".." then
      if stack == [] then None else Walk(segments[1..], stack[..|stack| - 1])
    else Walk(segments[1..], stack + [segments[0]])
  }

  predicate EndsWith(s: string, suffix: string) {
    |suffix| <= |s| && s[|s| - |suffix|..] == suffix
  }

  predicate NamesModule(s: string) {
    EndsWith(s, ".gfs") || EndsWith(s, ".gfp")
  }

  /** The canonical form of a module path, if it has one. */
  function NormalizePath(path: string): Option<string> {
    if NUL in path then None
    else
      match Walk(Split(path), [])
      case None => None
      case Some(segments) =>
        var normalized := Join(segments);
        if NamesModule(normalized) then Some(normalized) else None
  }

  ghost predicate Plain(segment: string) {
    forall c :: c in segment ==> !IsSeparator(c) && c != NUL
  }

  /** A segment that survives normalisation unchanged. */
  ghost predicate Clean(segment: string) {
    Plain(segment) && segment != "" && segment != "." && segment != ".."
  }

  lemma {:induction false} SplitIsPlain(path: string)
    requires NUL !in path
    ensures forall s :: s in Split(path) ==> Plain(s)
  {
    if path != "" {
      assert NUL !in path[1..];
      SplitIsPlain(path[1..]);
      var rest := Split(path[1..]);
      assert path[0] in path;
      assert rest[0] in rest;
      assert Plain(rest[0]);
      if !IsSeparator(path[0]) { assert Plain([path[0]] + rest[0]); }
    }
  }

  lemma {:induction false} WalkIsClean(segments: seq<string>, stack: seq<string>)
    requires forall s :: s in segments ==> Plain(s)
    requires forall s :: s in stack ==> Clean(s)
    ensures Walk(segments, stack).Some? ==> forall s :: s in Walk(segments, stack).value ==> Clean(s)
  {
    if segments == [] {
    } else if segments[0] == "" || segments[0] == "." {
      WalkIsClean(segments[1..], stack);
    } else if segments[0] == ".." {
      if stack != [] { WalkIsClean(segments[1..], stack[..|stack| - 1]); }
    } else {
      assert Clean(segments[0]);
      WalkIsClean(segments[1..], stack + [segments[0]]);
    }
  }

  lemma {:induction false} WalkKeepsClean(segments: seq<string>, stack: seq<string>)
    requires forall s :: s in segments ==> Clean(s)
    ensures Walk(segments, stack) == Some(stack + segments)
  {
    if segments == [] {
      assert stack + segments == stack;
    } else {
      assert Clean(segments[0]);
      WalkKeepsClean(segments[1..], stack + [segments[0]]);
      assert stack + [segments[0]] + segments[1..] == stack + segments;
    }
  }

  lemma {:induction false} SplitPlain(segment: string)
    requires Plain(segment)
    ensures Split(segment) == [segment]
  {
    if segment != "" {
      assert segment[0] in segment;
      assert Plain(segment[1..]);
      SplitPlain(segment[1..]);
      assert segment == [segment[0]] + segment[1..];
    }
  }

  lemma {:induction false} SplitAtSlash(segment: string, rest: string)
    requires Plain(segment)
    ensures Split(segment + "/" + rest) == [segment] + Split(rest)
  {
    var whole := segment + "/" + rest;
    if segment == "" {
      assert whole[1..] == rest;
    } else {
      assert segment[0] in segment;
      assert Plain(segment[1..]);
      SplitAtSlash(segment[1..], rest);
      assert whole[1..] == segment[1..] + "/" + rest;
      assert segment == [segment[0]] + segment[1..];
    }
  }

  lemma {:induction false} SplitJoin(segments: seq<string>)
    requires segments != [] && forall s :: s in segments ==> Plain(s)
    ensures Split(Join(segments)) == segments
  {
    assert Plain(segments[0]);
    if |segments| == 1 {
      SplitPlain(segments[0]);
    } else {
      SplitJoin(segments[1..]);
      SplitAtSlash(segments[0], Join(segments[1..]));
    }
  }

  lemma {:induction false} JoinHasNoNul(segments: seq<string>)
    requires forall s :: s in segments ==> Plain(s)
    ensures NUL !in Join(segments)
  {
    if segments != [] {
      assert Plain(segments[0]);
      JoinHasNoNul(segments[1..]);
    }
  }

  /** Normalising is idempotent: a canonical path is its own canonical form. */
  lemma NormalizeIsIdempotent(path: string)
    requires NormalizePath(path).Some?
    ensures NormalizePath(NormalizePath(path).value) == NormalizePath(path)
  {
    var segments := Walk(Split(path), []).value;
    SplitIsPlain(path);
    WalkIsClean(Split(path), []);
    assert segments != [];
    SplitJoin(segments);
    JoinHasNoNul(segments);
    WalkKeepsClean(segments, []);
    assert [] + segments == segments;
  }

  // ----- laws that fix the function -----

  /** A separator, of either kind, only separates. */
  lemma {:induction false} SplitConcat(p: string, c: char, q: string)
    requires IsSeparator(c)
    ensures Split(p + [c] + q) == Split(p) + Split(q)
  {
    hide Split;
    var whole := p + [c] + q;
    SplitFirst(whole);
    SplitFirst(p);
    if p == "" {
      assert whole[1..] == q;
    } else {
      SplitConcat(p[1..], c, q);
      assert whole[1..] == p[1..] + [c] + q;
      FirstConcat(p[0], Split(p[1..]), Split(q));
    }
  }

  /** The split of a path whose rest is split already. */
  function FirstSplit(c: char, rest: seq<string>): seq<string>
    requires rest != []
  {
    if IsSeparator(c) then [""] + rest else [[c] + rest[0]] + rest[1..]
  }

  lemma SplitFirst(path: string)
    ensures Split(path) == if path == "" then [""] else FirstSplit(path[0], Split(path[1..]))
  {}

  lemma FirstConcat(c: char, a: seq<string>, b: seq<string>)
    requires a != []
    ensures FirstSplit(c, a + b) == FirstSplit(c, a) + b
  {
    assert (a + b)[0] == a[0] && (a + b)[1..] == a[1..] + b;
  }

  /** Segments are applied one after another. */
  lemma {:induction false} WalkConcat(a: seq<string>, b: seq<string>, stack: seq<string>)
    ensures Walk(a + b, stack) == if Walk(a, stack).Some? then Walk(b, Walk(a, stack).value) else None
  {
    if a == [] {
      assert a + b == b;
    } else {
      assert (a + b)[0] == a[0] && (a + b)[1..] == a[1..] + b;
      if a[0] == "" || a[0] == "." {
        WalkConcat(a[1..], b, stack);
      } else if a[0] == ".." {
        if stack != [] { WalkConcat(a[1..], b, stack[..|stack| - 1]); }
      } else {
        WalkConcat(a[1..], b, stack + [a[0]]);
      }
    }
  }

  /** A middle part that leaves every stack as it is can be left out of a path. */
  lemma MiddleDrops(p: string, c: char, mid: string, d: char, q: string)
    requires IsSeparator(c) && IsSeparator(d) && NUL !in mid
    requires forall stack :: Walk(Split(mid), stack) == Some(stack)
    ensures NormalizePath(p + [c] + mid + [d] + q) == NormalizePath(p + [c] + q)
  {
    SplitConcat(p + [c] + mid, d, q);
    SplitConcat(p, c, mid);
    SplitConcat(p, c, q);
    WalkConcat(Split(p) + Split(mid), Split(q), []);
    WalkConcat(Split(p), Split(mid), []);
    WalkConcat(Split(p), Split(q), []);
  }

  lemma SplitPair(s: string, c: char, t: string)
    requires Plain(s) && Plain(t) && IsSeparator(c)
    ensures Split(s + [c] + t) == [s, t]
  {
    SplitConcat(s, c, t);
    SplitPlain(s);
    SplitPlain(t);
  }

  lemma WalkTwo(s: string, t: string, stack: seq<string>)
    ensures Walk([s, t], stack) == if Walk([s], stack).Some? then Walk([t], Walk([s], stack).value) else None
  {
    assert [s, t] == [s] + [t];
    WalkConcat([s], [t], stack);
  }

  /** A segment and the `..` after it cancel, between any two parts of a path and with any separators. */
  lemma DotDotCancels(p: string, c: char, s: string, d: char, e: char, q: string)
    requires Clean(s) && IsSeparator(c) && IsSeparator(d) && IsSeparator(e)
    ensures NormalizePath(p + [c] + (s + [d] + "..") + [e] + q) == NormalizePath(p + [c] + q)
  {
    var mid := s + [d] + "..";
    SplitPair(s, d, "..");
    forall stack ensures Walk(Split(mid), stack) == Some(stack) {
      WalkTwo(s, "..", stack);
      assert (stack + [s])[..|stack| + 1 - 1] == stack;
    }
    MiddleDrops(p, c, mid, e, q);
  }

  /** `.` and empty segments drop out. */
  lemma DotDrops(p: string, c: char, s: string, d: char, q: string)
    requires (s == "." || s == "") && IsSeparator(c) && IsSeparator(d)
    ensures NormalizePath(p + [c] + s + [d] + q) == NormalizePath(p + [c] + q)
  {
    SplitPlain(s);
    forall stack ensures Walk(Split(s), stack) == Some(stack) {
      assert [s][1..] == [];
    }
    MiddleDrops(p, c, s, d, q);
  }

  /** A separator at either end of a path adds nothing, so the laws above hold at its ends too. */
  lemma EndsDrop(p: string, c: char)
    requires IsSeparator(c)
    ensures NormalizePath([c] + p) == NormalizePath(p) && NormalizePath(p + [c]) == NormalizePath(p)
  {
    assert "" + [c] + p == [c] + p && p + [c] + "" == p + [c];
    SplitConcat("", c, p);
    SplitConcat(p, c, "");
    assert ([""] + Split(p))[1..] == Split(p);
    WalkConcat(Split(p), [""], []);
    assert [""][1..] == [];
  }

  /** How far the segments lead down: up is minus one, a name plus one. */
  function Depth(segments: seq<string>): int {
    if segments == [] then 0
    else
      var last := segments[|segments| - 1];
      Depth(segments[..|segments| - 1]) + if last == "" || last == "." then 0 else if last == ".." then -1 else 1
  }

  /** The path leaves its root: at some point it has gone up more often than down. */
  ghost predicate Escapes(segments: seq<string>) {
    exists k :: 0 <= k <= |segments| && Depth(segments[..k]) < 0
  }

  /** The path goes down from level `k` at `i`, and never comes back to that level. */
  ghost predicate Descends(segments: seq<string>, k: int, i: nat) {
    && i < |segments| && Depth(segments[..i]) == k
    && forall j :: i < j <= |segments| ==> Depth(segments[..j]) > k
  }

  ghost predicate KeptAt(segments: seq<string>, k: int, s: string) {
    exists i: nat :: i < |segments| && Descends(segments, k, i) && segments[i] == s
  }

  lemma WalkLast(segments: seq<string>)
    requires segments != []
    ensures var front, last := segments[..|segments| - 1], segments[|segments| - 1];
      Walk(segments, []) == if Walk(front, []).Some? then Walk([last], Walk(front, []).value) else None
  {
    var front, last := segments[..|segments| - 1], segments[|segments| - 1];
    assert segments == front + [last];
    WalkConcat(front, [last], []);
  }

  /** Walking fails exactly if the path leaves its root. */
  lemma {:induction false} WalkFailsIff(segments: seq<string>)
    ensures Walk(segments, []).None? <==> Escapes(segments)
    ensures Walk(segments, []).Some? ==> |Walk(segments, []).value| == Depth(segments)
  {
    var n := |segments|;
    assert segments[..n] == segments;
    if n > 0 {
      var front := segments[..n - 1];
      WalkFailsIff(front);
      WalkLast(segments);
      assert forall k :: 0 <= k <= n - 1 ==> front[..k] == segments[..k];
    }
  }

  lemma DescendsStill(front: seq<string>, last: string, k: int, i: nat)
    requires Descends(front, k, i) && Depth(front + [last]) > k
    ensures Descends(front + [last], k, i)
  {
    hide Depth;
    var segments := front + [last];
    assert segments[..i] == front[..i];
    forall j | i < j <= |segments| ensures Depth(segments[..j]) > k {
      if j == |segments| {
        assert segments[..j] == segments;
      } else {
        assert segments[..j] == front[..j];
      }
    }
  }

  lemma DescendsLast(front: seq<string>, last: string)
    requires Depth(front + [last]) > Depth(front)
    ensures Descends(front + [last], Depth(front), |front|)
  {
    hide Depth;
    var segments := front + [last];
    assert segments[..|front|] == front && segments[..|segments|] == segments;
  }

  /** What is left at each level is the segment by which the path last went down from there. */
  lemma {:induction false} WalkKeeps(segments: seq<string>, k: nat)
    requires Walk(segments, []).Some? && k < |Walk(segments, []).value|
    ensures KeptAt(segments, k, Walk(segments, []).value[k])
  {
    hide Depth, Escapes, Descends;
    var n := |segments|;
    var front, last := segments[..n - 1], segments[n - 1];
    assert segments == front + [last];
    WalkLast(segments);
    WalkFailsIff(front);
    WalkFailsIff(segments);
    if k < Depth(front) {
      WalkKeeps(front, k);
      var i: nat :| i < |front| && Descends(front, k, i) && front[i] == Walk(front, []).value[k];
      DescendsStill(front, last, k, i);
    } else {
      DescendsLast(front, last);
    }
  }

  lemma DescendsOnce(segments: seq<string>, k: int, i: nat, j: nat)
    requires Descends(segments, k, i) && Descends(segments, k, j)
    ensures i == j
  {}

  /** The suffix of a joined path is that of its last segment. */
  lemma {:induction false} JoinNames(segments: seq<string>)
    requires segments != [] && forall s :: s in segments ==> Plain(s)
    ensures NamesModule(Join(segments)) <==> NamesModule(segments[|segments| - 1])
  {
    if |segments| > 1 {
      var rest := Join(segments[1..]);
      JoinNames(segments[1..]);
      SuffixAfterSlash(segments[0], rest, ".gfs");
      SuffixAfterSlash(segments[0], rest, ".gfp");
    }
  }

  lemma SuffixAfterSlash(s: string, rest: string, suffix: string)
    requires suffix == ".gfs" || suffix == ".gfp"
    ensures EndsWith(s + "/" + rest, suffix) <==> EndsWith(rest, suffix)
  {
    var whole := s + "/" + rest;
    if |rest| >= 4 {
      assert whole[|whole| - 4..] == rest[|rest| - 4..];
    } else if |whole| >= 4 {
      assert whole[|whole| - 4..][3 - |rest|] == '/';
    }
  }

  /** A path has a canonical form exactly if it has no NUL, stays within its root, and what it leads to
      names a module. The form's segments are, level by level, those by which the path last went down. */
  lemma NormalizeMeans(path: string)
    ensures NormalizePath(path).Some? <==>
      && NUL !in path && !Escapes(Split(path))
      && exists s :: KeptAt(Split(path), Depth(Split(path)) - 1, s) && NamesModule(s)
    ensures NormalizePath(path).Some? ==>
      && |Split(NormalizePath(path).value)| == Depth(Split(path))
      && forall k :: 0 <= k < Depth(Split(path)) ==> KeptAt(Split(path), k, Split(NormalizePath(path).value)[k])
  {
    var segments := Split(path);
    WalkFailsIff(segments);
    if NUL !in path && !Escapes(segments) {
      var kept := Walk(segments, []).value;
      forall k: nat | k < |kept| ensures KeptAt(segments, k, kept[k]) { WalkKeeps(segments, k); }
      SplitIsPlain(path);
      WalkIsClean(segments, []);
      if kept != [] {
        SplitJoin(kept);
        JoinNames(kept);
        var level, last := |kept| - 1, kept[|kept| - 1];
        assert KeptAt(segments, level, last);
        forall s | KeptAt(segments, level, s) ensures s == last { KeptOnce(segments, level, s, last); }
      } else {
        forall i: nat ensures !Descends(segments, -1, i) {}
      }
    }
  }

  lemma KeptOnce(segments: seq<string>, k: int, s: string, t: string)
    requires KeptAt(segments, k, s) && KeptAt(segments, k, t)
    ensures s == t
  {
    var i: nat :| Descends(segments, k, i) && segments[i] == s;
    var j: nat :| Descends(segments, k, j) && segments[j] == t;
    DescendsOnce(segments, k, i, j);
  }

  /** A path of clean segments that names a module is its own canonical form, and has none if it does not. */
  lemma CleanIsCanonical(segments: seq<string>)
    requires segments != [] && forall s :: s in segments ==> Clean(s)
    ensures NormalizePath(Join(segments)) ==
      if NamesModule(Join(segments)) then Some(Join(segments)) else None
  {
    SplitJoin(segments);
    JoinHasNoNul(segments);
    WalkKeepsClean(segments, []);
    assert [] + segments == segments;
  }
}
