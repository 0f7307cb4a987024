/**
 Literal substring search and replacement on strings, with the semantics of
 Python's `str.count`, `str.replace` and `str.split(sep)` for a non-empty
 pattern: occurrences are found scanning left to right and never overlap.
 */
module Text {

  /** `p` is a prefix of `s`. */
  predicate StartsWith(s: string, p: string) {
    |p| <= |s| && s[..|p|] == p
  }

  /** `p` occurs in `s` beginning at index `i`. */
  predicate OccursAt(s: string, i: int, p: string) {
    0 <= i <= |s| - |p| && s[i..i + |p|] == p
  }

  /** `p` occurs somewhere in `s`. */
  predicate Contains(s: string, p: string) {
    exists i | 0 <= i <= |s| - |p| :: OccursAt(s, i, p)
  }

  /** No character of `a` appears anywhere in `b`. */
  predicate Disjoint(a: string, b: string) {
    forall i | 0 <= i < |a| :: a[i] !in b
  }

  /** `a` and `b` coincide on their common length: one is a prefix of the other. */
  predicate Agree(a: string, b: string) {
    forall i | 0 <= i < |a| && i < |b| :: a[i] == b[i]
  }

  /** No occurrence of `q` can begin at any offset inside an occurrence of `p`. */
  predicate CannotStartWithin(q: string, p: string) {
    forall j | 0 <= j < |p| :: !Agree(p[j..], q)
  }

  /** Occurrences of `p` and of `q` can never overlap, in either order. */
  predicate Separate(p: string, q: string) {
    CannotStartWithin(q, p) && CannotStartWithin(p, q)
  }

  /** Number of non-overlapping occurrences of `p` in `s`, scanning left to
      right (Python's `s.count(p)`). */
  function Count(s: string, p: string): nat
    requires p != []
    decreases |s|
  {
    if s == [] then 0
    else if StartsWith(s, p) then 1 + Count(s[|p|..], p)
    else Count(s[1..], p)
  }

  /** Python's `s.replace(p, v)`: every non-overlapping occurrence of `p`,
      found scanning left to right, is replaced by `v`; the inserted text is
      not scanned again. */
  function Replace(s: string, p: string, v: string): (r: string)
    requires p != []
    ensures |r| == |s| + Count(s, p) * (|v| - |p|)
    decreases |s|
  {
    if s == [] then []
    else if StartsWith(s, p) then
      var t := s[|p|..];
      var rest := Replace(t, p, v);
      OneMoreLength(|rest|, |t|, Count(t, p), |v|, |p|);
      v + rest
    else [s[0]] + Replace(s[1..], p, v)
  }

  lemma OneMoreLength(r: int, t: int, n: int, a: int, b: int)
    requires r == t + n * (a - b)
    ensures a + r == (b + t) + (n + 1) * (a - b)
  {
  }

  /** Python's `sep.join(parts)`. */
  function Join(parts: seq<string>, sep: string): string
  {
    if |parts| == 0 then []
    else if |parts| == 1 then parts[0]
    else parts[0] + sep + Join(parts[1..], sep)
  }

  /** Python's `s.split(p)`: the pieces between the non-overlapping
      occurrences of `p`, scanning left to right. */
  function Split(s: string, p: string): (parts: seq<string>)
    requires p != []
    ensures |parts| > 0
    decreases |s|
  {
    if s == [] then [[]]
    else if StartsWith(s, p) then [[]] + Split(s[|p|..], p)
    else
      var rest := Split(s[1..], p);
      [[s[0]] + rest[0]] + rest[1..]
  }

  // ---------------------------------------------------------------------
  // Occurrences

  lemma OccursShift(s: string, i: int, p: string)
    requires s != [] && i >= 0
    ensures OccursAt(s, i + 1, p) <==> OccursAt(s[1..], i, p)
  {
    if 0 <= i <= |s| - 1 - |p| {
      assert s[1..][i..i + |p|] == s[i + 1..i + 1 + |p|];
    }
  }

  /** Anything that contains `p` contains it at a first position, and the
      scan is not fooled: `s` contains `p` exactly when `p` starts `s` or
      occurs in `s[1..]`. */
  lemma ContainsStep(s: string, p: string)
    requires s != []
    ensures Contains(s, p) <==> StartsWith(s, p) || Contains(s[1..], p)
  {
    if Contains(s, p) {
      var i :| 0 <= i <= |s| - |p| && OccursAt(s, i, p);
      if i > 0 {
        OccursShift(s, i - 1, p);
        assert OccursAt(s[1..], i - 1, p);
        assert Contains(s[1..], p);
      } else {
        assert s[..|p|] == s[0..|p|];
        assert StartsWith(s, p);
      }
    }
    if StartsWith(s, p) {
      assert OccursAt(s, 0, p);
    }
    if Contains(s[1..], p) {
      var i :| 0 <= i <= |s| - 1 - |p| && OccursAt(s[1..], i, p);
      OccursShift(s, i, p);
      assert OccursAt(s, i + 1, p);
    }
  }

  /** The count is zero exactly when the pattern does not occur at all. */
  lemma {:induction false} CountZeroIffAbsent(s: string, p: string)
    requires p != []
    ensures Count(s, p) == 0 <==> !Contains(s, p)
    decreases |s|
  {
    if s == [] {
      assert forall i :: !OccursAt(s, i, p);
    } else {
      ContainsStep(s, p);
      if !StartsWith(s, p) {
        CountZeroIffAbsent(s[1..], p);
      }
    }
  }

  /** A string in which the pattern does not occur is left unchanged. */
  lemma {:induction false} ReplaceAbsent(s: string, p: string, v: string)
    requires p != []
    requires !Contains(s, p)
    ensures Replace(s, p, v) == s
    decreases |s|
  {
    if s != [] {
      ContainsStep(s, p);
      ReplaceAbsent(s[1..], p, v);
      assert [s[0]] + s[1..] == s;
    }
  }

  /** Replacing a pattern by itself changes nothing. */
  lemma {:induction false} ReplaceSelf(s: string, p: string)
    requires p != []
    ensures Replace(s, p, p) == s
    decreases |s|
  {
    if s != [] {
      if StartsWith(s, p) {
        ReplaceSelf(s[|p|..], p);
        assert s[..|p|] + s[|p|..] == s;
      } else {
        ReplaceSelf(s[1..], p);
        assert [s[0]] + s[1..] == s;
      }
    }
  }

  /** Character by character, each replacement removes the characters of
      `p` and adds those of `v`. */
  lemma {:induction false} ReplaceCharCount(s: string, p: string, v: string, c: char)
    requires p != []
    ensures multiset(Replace(s, p, v))[c] + Count(s, p) * multiset(p)[c]
         == multiset(s)[c] + Count(s, p) * multiset(v)[c]
    decreases |s|
  {
    if s != [] {
      if StartsWith(s, p) {
        ReplaceCharCount(s[|p|..], p, v, c);
        CharCountAtMatch(s, p, v, c);
      } else {
        ReplaceCharCount(s[1..], p, v, c);
        CharCountPastChar(s, p, v, c);
      }
    }
  }

  /** The balance of `ReplaceCharCount` carries over an occurrence of `p`. */
  lemma CharCountAtMatch(s: string, p: string, v: string, c: char)
    requires p != [] && s != [] && StartsWith(s, p)
    requires var t := s[|p|..];
      multiset(Replace(t, p, v))[c] + Count(t, p) * multiset(p)[c]
      == multiset(t)[c] + Count(t, p) * multiset(v)[c]
    ensures multiset(Replace(s, p, v))[c] + Count(s, p) * multiset(p)[c]
         == multiset(s)[c] + Count(s, p) * multiset(v)[c]
  {
    var t := s[|p|..];
    var r := Replace(t, p, v);
    assert s == p + t;
    CharCountConcat(p, t, c);
    CharCountConcat(v, r, c);
    OneMoreStep(multiset(r)[c], Count(t, p), multiset(p)[c], multiset(v)[c], multiset(t)[c]);
  }

  /** The balance of `ReplaceCharCount` carries over a copied character. */
  lemma CharCountPastChar(s: string, p: string, v: string, c: char)
    requires p != [] && s != [] && !StartsWith(s, p)
    requires var t := s[1..];
      multiset(Replace(t, p, v))[c] + Count(t, p) * multiset(p)[c]
      == multiset(t)[c] + Count(t, p) * multiset(v)[c]
    ensures multiset(Replace(s, p, v))[c] + Count(s, p) * multiset(p)[c]
         == multiset(s)[c] + Count(s, p) * multiset(v)[c]
  {
    var t := s[1..];
    assert s == [s[0]] + t;
    CharCountConcat([s[0]], t, c);
    CharCountConcat([s[0]], Replace(t, p, v), c);
  }

  lemma CharCountConcat(a: string, b: string, c: char)
    ensures multiset(a + b)[c] == multiset(a)[c] + multiset(b)[c]
  {
  }

  lemma OneMoreStep(rt: int, n: int, a: int, b: int, st: int)
    requires rt + n * a == st + n * b
    ensures (b + rt) + (n + 1) * a == (a + st) + (n + 1) * b
  {
  }

  // ---------------------------------------------------------------------
  // What a replacement does to the occurrences of another pattern

  /** Scanning past a prefix none of whose characters belong to `q` finds no
      occurrence of `q` there. */
  lemma {:induction false} CountSkipsDisjoint(x: string, y: string, q: string)
    requires q != []
    requires Disjoint(x, q)
    ensures Count(x + y, q) == Count(y, q)
    decreases |x|
  {
    if x != [] {
      assert (x + y)[0] == x[0];
      assert q[0] in q;
      assert !StartsWith(x + y, q);
      assert (x + y)[1..] == x[1..] + y;
      assert Count(x + y, q) == Count(x[1..] + y, q);
      CountSkipsDisjoint(x[1..], y, q);
    } else {
      assert x + y == y;
    }
  }

  /** Positions where `q` does not start contribute nothing to the count. */
  lemma {:induction false} CountSkip(s: string, q: string, m: nat)
    requires q != []
    requires m <= |s|
    requires forall k | 0 <= k < m :: !StartsWith(s[k..], q)
    ensures Count(s, q) == Count(s[m..], q)
    decreases m
  {
    if m > 0 {
      CountSkip(s, q, m - 1);
      assert !StartsWith(s[m - 1..], q);
      assert s[m - 1..][1..] == s[m..];
    }
  }

  /** Positions where `p` does not start are copied unchanged. */
  lemma {:induction false} ReplaceSkip(s: string, p: string, v: string, m: nat)
    requires p != []
    requires m <= |s|
    requires forall k | 0 <= k < m :: !StartsWith(s[k..], p)
    ensures Replace(s, p, v) == s[..m] + Replace(s[m..], p, v)
    decreases m
  {
    if m > 0 {
      ReplaceSkip(s, p, v, m - 1);
      var t := s[m - 1..];
      assert !StartsWith(t, p);
      assert t[1..] == s[m..];
      assert Replace(t, p, v) == [s[m - 1]] + Replace(s[m..], p, v);
      assert s[..m - 1] + [s[m - 1]] == s[..m];
    }
  }

  /** A text that starts with the pattern gets the value first. */
  lemma ReplaceAtStart(p: string, rest: string, v: string)
    requires p != []
    ensures Replace(p + rest, p, v) == v + Replace(rest, p, v)
  {
    var s := p + rest;
    assert s[..|p|] == p && s[|p|..] == rest;
  }

  /** A character at which the pattern does not start is copied. */
  lemma ReplacePastChar(c: char, rest: string, p: string, v: string)
    requires p != [] && !StartsWith([c] + rest, p)
    ensures Replace([c] + rest, p, v) == [c] + Replace(rest, p, v)
  {
    assert ([c] + rest)[1..] == rest;
  }

  /** If the result of a replacement starts with `w`, and the inserted value
      is non-empty and shares no character with `w`, the text `w` was already
      at the start of the input. */
  lemma {:induction false} StartsThroughReplace(s: string, p: string, v: string, w: string)
    requires p != [] && v != []
    requires Disjoint(v, w)
    ensures StartsWith(Replace(s, p, v), w) ==> StartsWith(s, w)
    decreases |s|
  {
    if w != [] && s != [] {
      if StartsWith(s, p) {
        assert Replace(s, p, v)[0] == v[0];
        assert v[0] !in w;
      } else {
        var r := Replace(s[1..], p, v);
        assert Replace(s, p, v) == [s[0]] + r;
        assert Disjoint(v, w[1..]) by {
          assert forall x | x in w[1..] :: x in w;
        }
        StartsThroughReplace(s[1..], p, v, w[1..]);
        if StartsWith([s[0]] + r, w) {
          assert r[..|w| - 1] == ([s[0]] + r)[1..|w|];
          assert StartsWith(s[1..], w[1..]);
          assert s[..|w|] == [s[0]] + s[1..][..|w| - 1];
          assert w == [w[0]] + w[1..];
        }
      }
    }
  }

  /** Replacing `p` by a non-empty value that shares no character with `p`
      leaves no occurrence of `p` behind. */
  lemma {:induction false} ReplaceRemoves(s: string, p: string, v: string)
    requires p != [] && v != []
    requires Disjoint(v, p)
    ensures Count(Replace(s, p, v), p) == 0
    decreases |s|
  {
    if s != [] {
      if StartsWith(s, p) {
        ReplaceRemoves(s[|p|..], p, v);
        CountSkipsDisjoint(v, Replace(s[|p|..], p, v), p);
      } else {
        var r := Replace(s[1..], p, v);
        ReplaceRemoves(s[1..], p, v);
        StartsThroughReplace(s, p, v, p);
        assert ([s[0]] + r)[1..] == r;
      }
    }
  }

  /** Replacing `p` by a non-empty value that shares no character with `q`
      keeps the number of occurrences of `q`, provided occurrences of `p`
      and `q` can never overlap. */
  lemma {:induction false} ReplaceKeepsCount(s: string, p: string, v: string, q: string)
    requires p != [] && q != [] && v != []
    requires Separate(p, q)
    requires Disjoint(v, q)
    ensures Count(Replace(s, p, v), q) == Count(s, q)
    decreases |s|
  {
    if s == [] {
    } else if StartsWith(s, p) {
      var rest := Replace(s[|p|..], p, v);
      ReplaceKeepsCount(s[|p|..], p, v, q);
      CountSkipsDisjoint(v, rest, q);
      forall k | 0 <= k < |p| ensures !StartsWith(s[k..], q) {
        assert s[k..][..|p| - k] == p[k..];
        PrefixesAgree(s[k..], p[k..], q);
      }
      CountSkip(s, q, |p|);
    } else if StartsWith(s, q) {
      forall k | 0 <= k < |q| ensures !StartsWith(s[k..], p) {
        if k > 0 {
          assert s[k..][..|q| - k] == q[k..];
          PrefixesAgree(s[k..], q[k..], p);
        }
      }
      ReplaceSkip(s, p, v, |q|);
      var rest := Replace(s[|q|..], p, v);
      ReplaceKeepsCount(s[|q|..], p, v, q);
      assert Replace(s, p, v) == q + rest;
      assert StartsWith(q + rest, q);
      assert (q + rest)[|q|..] == rest;
    } else {
      var r := Replace(s[1..], p, v);
      ReplaceKeepsCount(s[1..], p, v, q);
      assert Replace(s, p, v) == [s[0]] + r;
      StartsThroughReplace(s, p, v, q);
      assert ([s[0]] + r)[1..] == r;
    }
  }

  /** Every character of a replacement's result comes from the text or from
      the value. */
  lemma {:induction false} ReplaceChars(s: string, p: string, v: string)
    requires p != []
    ensures forall c | c in Replace(s, p, v) :: c in s || c in v
    decreases |s|
  {
    if s != [] {
      if StartsWith(s, p) {
        ReplaceChars(s[|p|..], p, v);
        assert forall c | c in s[|p|..] :: c in s;
      } else {
        ReplaceChars(s[1..], p, v);
        assert forall c | c in s[1..] :: c in s;
      }
    }
  }

  /** A prefix inside which the pattern cannot start is copied unchanged. */
  lemma ReplaceSkipsPrefix(a: string, rest: string, p: string, v: string)
    requires p != []
    requires CannotStartWithin(p, a)
    ensures Replace(a + rest, p, v) == a + Replace(rest, p, v)
  {
    var s := a + rest;
    forall k | 0 <= k < |a| ensures !StartsWith(s[k..], p) {
      assert s[k..][..|a| - k] == a[k..];
      PrefixesAgree(s[k..], a[k..], p);
    }
    ReplaceSkip(s, p, v, |a|);
    assert s[..|a|] == a && s[|a|..] == rest;
  }

  /** Two prefixes of the same string agree on their common length. */
  lemma PrefixesAgree(s: string, a: string, b: string)
    ensures StartsWith(s, a) && StartsWith(s, b) ==> Agree(a, b)
  {
    if StartsWith(s, a) && StartsWith(s, b) {
      forall i | 0 <= i < |a| && i < |b| ensures a[i] == b[i] {
        assert a[i] == s[..|a|][i] && b[i] == s[..|b|][i];
      }
    }
  }

  /** A prefix of a prefix is a prefix. */
  lemma PrefixOfPrefix(s: string, a: string, b: string)
    ensures StartsWith(s, a) && StartsWith(a, b) ==> StartsWith(s, b)
  {
    if StartsWith(s, a) && StartsWith(a, b) {
      assert s[..|b|] == s[..|a|][..|b|];
    }
  }

  /** Two patterns that cannot overlap do not occur inside one another. */
  lemma SeparateNotContained(p: string, q: string)
    requires q != []
    requires Separate(p, q)
    ensures !Contains(p, q)
  {
    forall i | 0 <= i <= |p| - |q| ensures !OccursAt(p, i, q) {
      assert p[i..][..|q|] == p[i..i + |q|];
      PrefixesAgree(p[i..], p[i..], q);
    }
  }

  // ---------------------------------------------------------------------
  // Split and join

  lemma JoinCons(a: string, x: string, rest: seq<string>, sep: string)
    ensures Join([a + x] + rest, sep) == a + Join([x] + rest, sep)
  {
    if |rest| > 0 {
      assert ([a + x] + rest)[1..] == rest;
      assert ([x] + rest)[1..] == rest;
    }
  }

  /** Splitting the first piece off after a leading occurrence of the separator. */
  lemma JoinEmptyHead(rest: seq<string>, sep: string)
    requires |rest| > 0
    ensures Join([[]] + rest, sep) == sep + Join(rest, sep)
  {
    assert ([[]] + rest)[1..] == rest;
  }

  /** Joining the pieces of a split with the separator gives back the string. */
  lemma {:induction false} JoinSplit(s: string, p: string)
    requires p != []
    ensures Join(Split(s, p), p) == s
    decreases |s|
  {
    if s != [] {
      if StartsWith(s, p) {
        JoinSplit(s[|p|..], p);
        JoinEmptyHead(Split(s[|p|..], p), p);
        assert s == p + s[|p|..];
      } else {
        var rest := Split(s[1..], p);
        JoinSplit(s[1..], p);
        JoinCons([s[0]], rest[0], rest[1..], p);
        assert [rest[0]] + rest[1..] == rest;
        assert s == [s[0]] + s[1..];
      }
    }
  }

  /** Python's identity `s.replace(p, v) == v.join(s.split(p))`. */
  lemma {:induction false} ReplaceIsJoinOfSplit(s: string, p: string, v: string)
    requires p != []
    ensures Replace(s, p, v) == Join(Split(s, p), v)
    decreases |s|
  {
    if s != [] {
      if StartsWith(s, p) {
        ReplaceIsJoinOfSplit(s[|p|..], p, v);
        JoinEmptyHead(Split(s[|p|..], p), v);
      } else {
        var rest := Split(s[1..], p);
        ReplaceIsJoinOfSplit(s[1..], p, v);
        JoinCons([s[0]], rest[0], rest[1..], v);
        assert [rest[0]] + rest[1..] == rest;
      }
    }
  }

  /** A split yields one more piece than there are occurrences. */
  lemma {:induction false} SplitCount(s: string, p: string)
    requires p != []
    ensures |Split(s, p)| == Count(s, p) + 1
    decreases |s|
  {
    if s != [] {
      if StartsWith(s, p) {
        SplitCount(s[|p|..], p);
      } else {
        SplitCount(s[1..], p);
      }
    }
  }

  /** The first piece of a split is a prefix of the string. */
  lemma {:induction false} SplitHeadIsPrefix(s: string, p: string)
    requires p != []
    ensures StartsWith(s, Split(s, p)[0])
    decreases |s|
  {
    if s != [] && !StartsWith(s, p) {
      SplitHeadIsPrefix(s[1..], p);
    }
  }

  /** No piece of a split contains the separator. */
  lemma {:induction false} SplitPiecesFree(s: string, p: string)
    requires p != []
    ensures forall k | 0 <= k < |Split(s, p)| :: !Contains(Split(s, p)[k], p)
    decreases |s|
  {
    if s == [] {
      assert !Contains([], p) by {
        assert forall i :: !OccursAt([], i, p);
      }
    } else if StartsWith(s, p) {
      SplitPiecesFree(s[|p|..], p);
      assert !Contains([], p) by {
        assert forall i :: !OccursAt([], i, p);
      }
    } else {
      var rest := Split(s[1..], p);
      SplitPiecesFree(s[1..], p);
      SplitHeadIsPrefix(s[1..], p);
      var head := [s[0]] + rest[0];
      assert !Contains(rest[0], p);
      assert !Contains(head, p) by {
        ContainsStep(head, p);
        assert head[1..] == rest[0];
        assert StartsWith(s, head);
        PrefixOfPrefix(s, head, p);
      }
      forall k | 0 <= k < |Split(s, p)| ensures !Contains(Split(s, p)[k], p) {
        if k > 0 {
          assert Split(s, p)[k] == rest[k];
        }
      }
    }
  }
}
