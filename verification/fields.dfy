/**
 Deriving the module fields from raw text: Python's `str.strip()` on the
 prompted answers, and the administrator's display name taken from the
 account's GECOS (comment) field as `gecos.split(',')[0].split()[1]`.
 */
module Fields {
  import opened Wrappers
  import opened Text

  /** Python's `str.isspace` for a single character: the ASCII whitespace
      and separator controls, NEXT LINE, NO-BREAK SPACE and the Unicode
      space separators, line and paragraph separators. */
  predicate IsSpace(c: char) {
    var n := c as int;
    || 0x09 <= n <= 0x0D
    || 0x1C <= n <= 0x20
    || n == 0x85 || n == 0xA0 || n == 0x1680
    || 0x2000 <= n <= 0x200A
    || n == 0x2028 || n == 0x2029 || n == 0x202F || n == 0x205F || n == 0x3000
  }

  /** Every character of `s[lo..hi]` is whitespace. */
  predicate SpacesIn(s: string, lo: int, hi: int) {
    forall i | lo <= i < hi && 0 <= i < |s| :: IsSpace(s[i])
  }

  /** No character of `w` is whitespace. */
  predicate NoSpace(w: string) {
    forall i | 0 <= i < |w| :: !IsSpace(w[i])
  }

  // ---------------------------------------------------------------------
  // strip()

  /** The first index at or after `i` that does not hold whitespace. */
  function SkipSpaces(s: string, i: nat): (j: nat)
    requires i <= |s|
    ensures i <= j <= |s| && SpacesIn(s, i, j)
    ensures j == |s| || !IsSpace(s[j])
    decreases |s| - i
  {
    if i < |s| && IsSpace(s[i]) then SkipSpaces(s, i + 1) else i
  }

  /** The end of `s[lo..hi]` once its trailing whitespace is cut off. */
  function CutSpaces(s: string, lo: nat, hi: nat): (k: nat)
    requires lo <= hi <= |s|
    ensures lo <= k <= hi && SpacesIn(s, k, hi)
    ensures k == lo || !IsSpace(s[k - 1])
    decreases hi - lo
  {
    if lo < hi && IsSpace(s[hi - 1]) then CutSpaces(s, lo, hi - 1) else hi
  }

  /** `r` is `s` with its leading and trailing whitespace removed: a
      contiguous piece of `s`, with only whitespace around it in `s`, that
      neither starts nor ends with whitespace. */
  ghost predicate StrippedFrom(r: string, s: string) {
    && (exists lo | 0 <= lo <= |s| - |r| ::
          r == s[lo..lo + |r|] && SpacesIn(s, 0, lo) && SpacesIn(s, lo + |r|, |s|))
    && (r == [] || (!IsSpace(r[0]) && !IsSpace(r[|r| - 1])))
  }

  /** Python's `s.strip()`. */
  function Strip(s: string): (r: string)
    ensures StrippedFrom(r, s)
  {
    var lo := SkipSpaces(s, 0);
    var hi := CutSpaces(s, lo, |s|);
    var r := s[lo..hi];
    assert r == s[lo..lo + |r|];
    assert r != [] ==> r[0] == s[lo] && r[|r| - 1] == s[hi - 1];
    r
  }

  /** `SkipSpaces` stops at the first non-whitespace character. */
  lemma {:induction false} SkipSpacesTo(s: string, i: nat, j: nat)
    requires i <= j <= |s| && SpacesIn(s, i, j)
    requires j == |s| || !IsSpace(s[j])
    ensures SkipSpaces(s, i) == j
    decreases j - i
  {
    if i < j {
      assert IsSpace(s[i]);
      SkipSpacesTo(s, i + 1, j);
    }
  }

  /** `CutSpaces` stops after the last non-whitespace character. */
  lemma {:induction false} CutSpacesTo(s: string, lo: nat, k: nat, hi: nat)
    requires lo <= k <= hi <= |s| && SpacesIn(s, k, hi)
    requires k == lo || !IsSpace(s[k - 1])
    ensures CutSpaces(s, lo, hi) == k
    decreases hi - k
  {
    if k < hi {
      assert IsSpace(s[hi - 1]);
      CutSpacesTo(s, lo, k, hi - 1);
    }
  }

  /** Only the stripped text satisfies the description of stripping: `Strip`
      is the one function with its contract. */
  lemma StripUnique(r: string, s: string)
    requires StrippedFrom(r, s)
    ensures r == Strip(s)
  {
    var lo :| 0 <= lo <= |s| - |r| && r == s[lo..lo + |r|]
      && SpacesIn(s, 0, lo) && SpacesIn(s, lo + |r|, |s|);
    if r == [] {
      SkipSpacesTo(s, 0, |s|);
      CutSpacesTo(s, |s|, |s|, |s|);
    } else {
      assert s[lo] == r[0] && s[lo + |r| - 1] == r[|r| - 1];
      SkipSpacesTo(s, 0, lo);
      CutSpacesTo(s, lo, lo + |r|, |s|);
    }
  }

  /** Whitespace added around a text is removed by stripping. */
  lemma StripIgnoresPadding(pre: string, s: string, post: string)
    requires SpacesIn(pre, 0, |pre|) && SpacesIn(post, 0, |post|)
    ensures Strip(pre + s + post) == Strip(s)
  {
    var r := Strip(s);
    StrippedFromPadded(r, pre, s, post);
    StripUnique(r, pre + s + post);
  }

  /** What is stripped from `s` is also stripped from `s` padded with
      whitespace. */
  lemma StrippedFromPadded(r: string, pre: string, s: string, post: string)
    requires SpacesIn(pre, 0, |pre|) && SpacesIn(post, 0, |post|)
    requires StrippedFrom(r, s)
    ensures StrippedFrom(r, pre + s + post)
  {
    var p := pre + s + post;
    var lo :| 0 <= lo <= |s| - |r| && r == s[lo..lo + |r|]
      && SpacesIn(s, 0, lo) && SpacesIn(s, lo + |r|, |s|);
    PaddedSpaces(pre, s, post, 0, lo);
    PaddedSpaces(pre, s, post, lo + |r|, |s|);
    assert p[|pre|..|pre| + |s|] == s;
    assert r == p[|pre| + lo..|pre| + lo + |r|];
  }

  /** Whitespace in `s` stays whitespace once `s` is padded with
      whitespace, together with the padding on that side. */
  lemma PaddedSpaces(pre: string, s: string, post: string, lo: nat, hi: nat)
    requires SpacesIn(pre, 0, |pre|) && SpacesIn(post, 0, |post|)
    requires lo <= hi <= |s| && SpacesIn(s, lo, hi)
    ensures lo == 0 ==> SpacesIn(pre + s + post, 0, |pre| + hi)
    ensures hi == |s| ==> SpacesIn(pre + s + post, |pre| + lo, |pre + s + post|)
  {
    var p := pre + s + post;
    forall i | 0 <= i < |p| && (lo == 0 || hi == |s|) && (lo == 0 ==> i < |pre| + hi)
                && (hi == |s| ==> |pre| + lo <= i)
      ensures IsSpace(p[i])
    {
      if i < |pre| {
        assert p[i] == pre[i];
      } else if i < |pre| + |s| {
        assert p[i] == s[i - |pre|];
      } else {
        assert p[i] == post[i - |pre| - |s|];
      }
    }
  }

  /** Stripping twice is stripping once. */
  lemma StripIdempotent(s: string)
    ensures Strip(Strip(s)) == Strip(s)
  {
    var r := Strip(s);
    assert StrippedFrom(r, r) by {
      assert r == r[0..0 + |r|] && SpacesIn(r, 0, 0) && SpacesIn(r, 0 + |r|, |r|);
    }
    StripUnique(r, r);
  }

  // ---------------------------------------------------------------------
  // split() with no separator

  /** The end of the run of non-whitespace characters starting at `j`. */
  function SkipWord(s: string, j: nat): (k: nat)
    requires j <= |s|
    ensures j <= k <= |s| && NoSpace(s[j..k])
    ensures k == |s| || IsSpace(s[k])
    decreases |s| - j
  {
    if j < |s| && !IsSpace(s[j]) then
      var k := SkipWord(s, j + 1);
      assert s[j..k] == [s[j]] + s[j + 1..k];
      k
    else j
  }

  /** The words of `s[i..]`: Python's `s[i:].split()`. */
  function WordsFrom(s: string, i: nat): (ws: seq<string>)
    requires i <= |s|
    ensures forall k | 0 <= k < |ws| :: ws[k] != [] && NoSpace(ws[k])
    decreases |s| - i
  {
    var j := SkipSpaces(s, i);
    if j == |s| then []
    else
      var k := SkipWord(s, j);
      [s[j..k]] + WordsFrom(s, k)
  }

  /** Python's `s.split()`: the maximal runs of non-whitespace characters,
      in order. */
  function Words(s: string): (ws: seq<string>)
    ensures forall k | 0 <= k < |ws| :: ws[k] != [] && NoSpace(ws[k])
  {
    WordsFrom(s, 0)
  }

  /** `s[i..]` consists of the words `ws`, in order, with whitespace around
      and between them and at least one whitespace character between two
      words. */
  ghost predicate SplitsFrom(s: string, i: nat, ws: seq<string>)
    requires i <= |s|
    decreases |ws|
  {
    if |ws| == 0 then SpacesIn(s, i, |s|)
    else
      && ws[0] != [] && NoSpace(ws[0])
      && exists lo | WordAt(s, i, lo, ws[0]) :: SplitsFrom(s, lo + |ws[0]|, ws[1..])
  }

  /** `w` sits at `lo` in `s`, with only whitespace between `i` and `lo`,
      and is followed by whitespace or the end of `s`. */
  predicate WordAt(s: string, i: nat, lo: int, w: string) {
    && i <= lo <= |s| - |w|
    && SpacesIn(s, i, lo)
    && s[lo..lo + |w|] == w
    && (lo + |w| == |s| || IsSpace(s[lo + |w|]))
  }

  /** `s` reads as the whitespace-separated words `ws`. */
  ghost predicate SplitsInto(s: string, ws: seq<string>) {
    SplitsFrom(s, 0, ws)
  }

  /** `Words` reads `s` as whitespace-separated words. */
  lemma {:induction false} WordsFromSplit(s: string, i: nat)
    requires i <= |s|
    ensures SplitsFrom(s, i, WordsFrom(s, i))
    decreases |s| - i
  {
    var j := SkipSpaces(s, i);
    if j < |s| {
      var k := SkipWord(s, j);
      var ws := WordsFrom(s, i);
      WordsFromSplit(s, k);
      assert ws[0] == s[j..k] && ws[1..] == WordsFrom(s, k);
      assert j + |ws[0]| == k;
      assert WordAt(s, i, j, ws[0]);
    }
  }

  /** Any reading of `s[i..]` as whitespace-separated words is the one
      `WordsFrom` computes. */
  lemma {:induction false} SplitsFromUnique(s: string, i: nat, ws: seq<string>)
    requires i <= |s|
    requires SplitsFrom(s, i, ws)
    ensures ws == WordsFrom(s, i)
    decreases |ws|
  {
    if |ws| == 0 {
      SkipSpacesTo(s, i, |s|);
    } else {
      var w := ws[0];
      var k := FirstWordAt(s, i, ws);
      SplitsFromUnique(s, k, ws[1..]);
      assert ws == [w] + ws[1..];
    }
  }

  /** The first word of a reading of `s[i..]` is the one `WordsFrom` finds
      first; the rest of the reading starts where that word ends. */
  lemma FirstWordAt(s: string, i: nat, ws: seq<string>) returns (k: nat)
    requires i <= |s| && |ws| > 0
    requires SplitsFrom(s, i, ws)
    ensures k <= |s| && SplitsFrom(s, k, ws[1..])
    ensures var j := SkipSpaces(s, i); j < |s| && SkipWord(s, j) == k && s[j..k] == ws[0]
  {
    var lo := FirstWordStart(s, i, ws);
    WordFoundAt(s, i, lo, ws[0]);
    k := lo + |ws[0]|;
  }

  /** Where the first word of a reading of `s[i..]` starts. */
  lemma FirstWordStart(s: string, i: nat, ws: seq<string>) returns (lo: nat)
    requires i <= |s| && |ws| > 0
    requires SplitsFrom(s, i, ws)
    ensures ws[0] != [] && NoSpace(ws[0]) && WordAt(s, i, lo, ws[0])
    ensures SplitsFrom(s, lo + |ws[0]|, ws[1..])
  {
    lo :| WordAt(s, i, lo, ws[0]) && SplitsFrom(s, lo + |ws[0]|, ws[1..]);
  }

  /** A non-empty word preceded only by whitespace from `i` and followed by
      whitespace or the end is the word the scanners find. */
  lemma WordFoundAt(s: string, i: nat, lo: int, w: string)
    requires w != [] && NoSpace(w) && WordAt(s, i, lo, w)
    ensures SkipSpaces(s, i) == lo && SkipWord(s, lo) == lo + |w|
  {
    assert s[lo] == w[0];
    SkipSpacesTo(s, i, lo);
    SkipWordTo(s, lo, lo + |w|);
  }

  /** `SkipWord` stops at the first whitespace character. */
  lemma {:induction false} SkipWordTo(s: string, j: nat, k: nat)
    requires j <= k <= |s| && NoSpace(s[j..k])
    requires k == |s| || IsSpace(s[k])
    ensures SkipWord(s, j) == k
    decreases k - j
  {
    if j < k {
      assert s[j..k][0] == s[j];
      assert s[j + 1..k] == s[j..k][1..];
      SkipWordTo(s, j + 1, k);
    }
  }

  /** `Words` is the one reading of `s` as whitespace-separated words. */
  lemma WordsSplitUniquely(s: string, ws: seq<string>)
    ensures SplitsInto(s, Words(s))
    ensures SplitsInto(s, ws) ==> ws == Words(s)
  {
    WordsFromSplit(s, 0);
    if SplitsInto(s, ws) {
      SplitsFromUnique(s, 0, ws);
    }
  }

  // ---------------------------------------------------------------------
  // The display name

  /** The full-name part of a GECOS field: `gecos.split(',')[0]`. */
  function FullName(gecos: string): (r: string)
    ensures StartsWith(gecos, r) && !Contains(r, ",")
  {
    SplitHeadIsPrefix(gecos, ",");
    SplitPiecesFree(gecos, ",");
    Split(gecos, ",")[0]
  }

  /** `FullName(gecos)` is the longest comma-free prefix of `gecos`. */
  lemma {:induction false} FullNameIsCommaFreePrefix(gecos: string)
    ensures var r := FullName(gecos);
      && StartsWith(gecos, r)
      && ',' !in r
      && (|r| == |gecos| || gecos[|r|] == ',')
    decreases |gecos|
  {
    var r := FullName(gecos);
    SplitHeadIsPrefix(gecos, ",");
    if gecos != [] {
      if StartsWith(gecos, ",") {
        assert r == [];
      } else {
        FullNameIsCommaFreePrefix(gecos[1..]);
        var r' := FullName(gecos[1..]);
        assert r == [gecos[0]] + r';
        assert gecos[0] != ',' by {
          assert gecos[..1] == [gecos[0]];
        }
        if |r| < |gecos| {
          assert gecos[|r|] == gecos[1..][|r'|];
        }
      }
    }
  }

  /** The administrator's display name: the second whitespace-separated word
      of the full name, or nothing when the full name has fewer than two
      words (where Python raises `IndexError`). */
  function DisplayName(gecos: string): (r: Option<string>)
    ensures r.Some? ==> r.value != [] && NoSpace(r.value)
  {
    var ws := Words(FullName(gecos));
    if |ws| >= 2 then Some(ws[1]) else None
  }

  /** The display name is the second word of the full name, for the (only)
      reading of the full name as whitespace-separated words, and is missing
      exactly when there are fewer than two words. */
  lemma DisplayNameIsSecondWord(gecos: string, ws: seq<string>)
    requires SplitsInto(FullName(gecos), ws)
    ensures |ws| >= 2 ==> DisplayName(gecos) == Some(ws[1])
    ensures |ws| < 2 ==> DisplayName(gecos) == None
  {
    WordsSplitUniquely(FullName(gecos), ws);
  }

  /** The full name is everything before the first comma. */
  lemma FullNameBeforeComma(a: string, b: string)
    requires ',' !in a
    requires b == [] || b[0] == ','
    ensures FullName(a + b) == a
  {
    var g := a + b;
    var r := FullName(g);
    FullNameIsCommaFreePrefix(g);
    assert forall i | 0 <= i < |a| :: g[i] == a[i];
    assert forall i | 0 <= i < |r| :: r[i] == g[i];
    assert |a| < |g| ==> g[|a|] == ',';
    assert |r| == |a|;
    assert r == g[..|r|] == a;
  }

  /** A GECOS field whose full name is `first last` gives `last`, as for the
      account record `Jane Doe,,,`. */
  lemma DisplayNameOfTwoWords(first: string, last: string, rest: string)
    requires first != [] && NoSpace(first) && ',' !in first
    requires last != [] && NoSpace(last) && ',' !in last
    requires rest == [] || rest[0] == ','
    ensures DisplayName(first + " " + last + rest) == Some(last)
  {
    var full := first + " " + last;
    assert first + " " + last + rest == full + rest;
    FullNameBeforeComma(full, rest);
    var n := |first|;
    assert full[0..n] == first && full[n + 1..n + 1 + |last|] == last;
    assert IsSpace(full[n]);
    assert SplitsFrom(full, n + 1 + |last|, []);
    assert SplitsFrom(full, n, [last]) by {
      assert [last][1..] == [];
      assert WordAt(full, n, n + 1, last);
    }
    assert SplitsInto(full, [first, last]) by {
      var ws := [first, last];
      assert ws[0] == first && ws[1..] == [last];
      assert WordAt(full, 0, 0, first);
      assert SplitsFrom(full, 0 + |ws[0]|, ws[1..]);
    }
    DisplayNameIsSecondWord(first + " " + last + rest, [first, last]);
  }

  /** A full name of a single word has no display name (Python raises
      `IndexError`). */
  lemma DisplayNameOfOneWord(only: string, rest: string)
    requires only != [] && NoSpace(only) && ',' !in only
    requires rest == [] || rest[0] == ','
    ensures DisplayName(only + rest) == None
  {
    FullNameBeforeComma(only, rest);
    assert SplitsFrom(only, |only|, []);
    assert SplitsInto(only, [only]) by {
      var ws := [only];
      assert ws[0] == only && ws[1..] == [];
      assert WordAt(only, 0, 0, only);
      assert SplitsFrom(only, 0 + |ws[0]|, ws[1..]);
    }
    DisplayNameIsSecondWord(only + rest, [only]);
  }
}
