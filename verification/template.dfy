/**
 The module-file template engine: a fixed, ordered table of seven `{{key}}`
 placeholders, each replaced in turn by Python's `str.replace` on the text
 produced by the previous replacement.
 */
module Template {
  import opened Text

  /** The fields of a module description, as gathered before rendering. */
  datatype ModuleInfo = ModuleInfo(
    name: string,
    version: string,
    description: string,
    url: string,
    admin: string,
    asurite: string,
    date: string)

  /** The placeholder keys, in the order of the replacement table. */
  const Keys: seq<string> := ["name", "version", "description", "url", "admin", "asurite", "date"]

  /** The placeholder token written in a template for `key`. */
  function Placeholder(key: string): string {
    "{{" + key + "}}"
  }

  /** The value that replaces each key, in the order of `Keys`. */
  function Values(info: ModuleInfo): (vs: seq<string>)
    ensures |vs| == |Keys|
  {
    [info.name, info.version, info.description, info.url, info.admin, info.asurite, info.date]
  }

  /** The ordered replacement table: token of `Keys[i]` paired with `Values(info)[i]`. */
  function Substitutions(info: ModuleInfo): (table: seq<(string, string)>)
    ensures |table| == |Keys|
    ensures forall i | 0 <= i < |Keys| :: table[i] == (Token(i), Values(info)[i])
  {
    [ (Placeholder("name"), info.name),
      (Placeholder("version"), info.version),
      (Placeholder("description"), info.description),
      (Placeholder("url"), info.url),
      (Placeholder("admin"), info.admin),
      (Placeholder("asurite"), info.asurite),
      (Placeholder("date"), info.date) ]
  }

  /** Every pattern of a table is non-empty. */
  predicate Patterns(table: seq<(string, string)>) {
    forall i | 0 <= i < |table| :: table[i].0 != []
  }

  /** Applies `Replace` once per table entry, in table order, each step on
      the result of the previous one (a left fold). */
  function ReplaceEach(s: string, table: seq<(string, string)>): (r: string)
    requires Patterns(table)
    ensures forall c | c in r :: c in s || exists i | 0 <= i < |table| :: c in table[i].1
    decreases |table|
  {
    if |table| == 0 then s
    else
      var s' := Replace(s, table[0].0, table[0].1);
      ReplaceChars(s, table[0].0, table[0].1);
      var r := ReplaceEach(s', table[1..]);
      assert forall i | 0 <= i < |table| - 1 :: table[1..][i] == table[i + 1];
      r
  }

  /** Renders a template with the fields of `info`: every character of the
      output comes from the template or from one of the seven field values. */
  function Render(template: string, info: ModuleInfo): (r: string)
    ensures forall c | c in r ::
      || c in template || c in info.name || c in info.version || c in info.description
      || c in info.url || c in info.admin || c in info.asurite || c in info.date
  {
    var table := Substitutions(info);
    var r := ReplaceEach(template, table);
    assert forall i | 0 <= i < |table| :: table[i].1 == Values(info)[i];
    r
  }

  // ---------------------------------------------------------------------
  // Placeholders

  /** `key` contains no curly brace. */
  predicate BraceFree(key: string) {
    forall i | 0 <= i < |key| :: key[i] != '{' && key[i] != '}'
  }

  /** Placeholders of two different brace-free keys can never overlap. */
  lemma PlaceholdersSeparate(k1: string, k2: string)
    requires k1 != [] && k2 != [] && k1 != k2
    requires BraceFree(k1) && BraceFree(k2)
    ensures Separate(Placeholder(k1), Placeholder(k2))
  {
    PlaceholderCannotStartWithin(k1, k2);
    PlaceholderCannotStartWithin(k2, k1);
  }

  lemma PlaceholderCannotStartWithin(k1: string, k2: string)
    requires k1 != [] && k2 != [] && k1 != k2
    requires BraceFree(k1) && BraceFree(k2)
    ensures CannotStartWithin(Placeholder(k2), Placeholder(k1))
  {
    var p, q := Placeholder(k1), Placeholder(k2);
    forall j | 0 <= j < |p| ensures !Agree(p[j..], q) {
      if j == 0 {
        if |k1| == |k2| {
          var i :| 0 <= i < |k1| && k1[i] != k2[i];
          assert p[i + 2] == k1[i] && q[i + 2] == k2[i];
          assert p[j..][i + 2] != q[i + 2];
        } else if |k1| < |k2| {
          assert p[|k1| + 2] == '}' && q[|k1| + 2] == k2[|k1|];
          assert p[j..][|k1| + 2] != q[|k1| + 2];
        } else {
          assert q[|k2| + 2] == '}' && p[|k2| + 2] == k1[|k2|];
          assert p[j..][|k2| + 2] != q[|k2| + 2];
        }
      } else if j == 1 {
        assert p[j..][1] == k1[0] && q[1] == '{';
      } else {
        assert p[j] == '}' || p[j] == k1[j - 2];
        assert p[j..][0] != q[0];
      }
    }
  }

  /** The seven keys are non-empty, brace-free and pairwise different. */
  lemma KeysWellFormed()
    ensures forall i | 0 <= i < |Keys| :: Keys[i] != [] && BraceFree(Keys[i])
    ensures forall i, j | 0 <= i < j < |Keys| :: Keys[i] != Keys[j]
  {
  }

  /** No two of the seven placeholder tokens can overlap. */
  lemma PlaceholderTokensSeparate()
    ensures forall i, j | 0 <= i < |Keys| && 0 <= j < |Keys| && i != j ::
      Separate(Placeholder(Keys[i]), Placeholder(Keys[j]))
  {
    KeysWellFormed();
    forall i, j | 0 <= i < |Keys| && 0 <= j < |Keys| && i != j
      ensures Separate(Placeholder(Keys[i]), Placeholder(Keys[j]))
    {
      PlaceholdersSeparate(Keys[i], Keys[j]);
    }
  }

  // ---------------------------------------------------------------------
  // The replacement fold

  /** Occurrences of different patterns of the table never overlap. */
  predicate PairwiseSeparate(table: seq<(string, string)>) {
    forall i, j | 0 <= i < |table| && 0 <= j < |table| && i != j :: Separate(table[i].0, table[j].0)
  }

  /** Every value of the table is non-empty and shares no character with any
      pattern of the table. */
  predicate Inert(table: seq<(string, string)>) {
    forall i, j | 0 <= i < |table| && 0 <= j < |table| ::
      table[i].1 != [] && Disjoint(table[i].1, table[j].0)
  }

  /** Length gained by replacing, in `s` itself, every occurrence of every
      pattern of the table by its value. */
  function Growth(s: string, table: seq<(string, string)>): int
    requires Patterns(table)
  {
    if |table| == 0 then 0
    else Count(s, table[0].0) * (|table[0].1| - |table[0].0|) + Growth(s, table[1..])
  }

  /** Number of copies of `c` contributed by the values, when every
      occurrence in `s` of every pattern is replaced by its value. */
  function Inserted(s: string, table: seq<(string, string)>, c: char): int
    requires Patterns(table)
  {
    if |table| == 0 then 0
    else Count(s, table[0].0) * multiset(table[0].1)[c] + Inserted(s, table[1..], c)
  }

  /** A text in which no pattern occurs passes through unchanged. */
  lemma {:induction false} ReplaceEachAbsent(s: string, table: seq<(string, string)>)
    requires Patterns(table)
    requires forall i | 0 <= i < |table| :: !Contains(s, table[i].0)
    ensures ReplaceEach(s, table) == s
    decreases |table|
  {
    if |table| > 0 {
      ReplaceAbsent(s, table[0].0, table[0].1);
      assert forall i | 0 <= i < |table[1..]| :: table[1..][i] == table[i + 1];
      ReplaceEachAbsent(s, table[1..]);
    }
  }

  /** The whole fold keeps the number of occurrences of a pattern `q` that
      no table pattern overlaps and no value shares a character with. */
  lemma {:induction false} ReplaceEachKeepsCount(s: string, table: seq<(string, string)>, q: string)
    requires Patterns(table) && q != []
    requires forall i | 0 <= i < |table| ::
      Separate(table[i].0, q) && table[i].1 != [] && Disjoint(table[i].1, q)
    ensures Count(ReplaceEach(s, table), q) == Count(s, q)
    decreases |table|
  {
    if |table| > 0 {
      ReplaceKeepsCount(s, table[0].0, table[0].1, q);
      assert forall i | 0 <= i < |table[1..]| :: table[1..][i] == table[i + 1];
      ReplaceEachKeepsCount(Replace(s, table[0].0, table[0].1), table[1..], q);
    }
  }

  /** With pairwise separate patterns and inert values, no pattern of the
      table is left in the result. */
  lemma {:induction false} ReplaceEachClears(s: string, table: seq<(string, string)>, j: nat)
    requires Patterns(table) && PairwiseSeparate(table) && Inert(table)
    requires j < |table|
    ensures Count(ReplaceEach(s, table), table[j].0) == 0
    decreases |table|
  {
    var s' := Replace(s, table[0].0, table[0].1);
    var rest := table[1..];
    assert forall i | 0 <= i < |rest| :: rest[i] == table[i + 1];
    if j == 0 {
      ReplaceRemoves(s, table[0].0, table[0].1);
      ReplaceEachKeepsCount(s', rest, table[0].0);
    } else {
      ReplaceEachClears(s', rest, j - 1);
    }
  }

  /** With pairwise separate patterns and inert values, the result is as long
      as the input plus, for every pattern, its number of occurrences in the
      input times the difference in length between its value and itself. */
  lemma {:induction false} ReplaceEachLength(s: string, table: seq<(string, string)>)
    requires Patterns(table) && PairwiseSeparate(table) && Inert(table)
    ensures |ReplaceEach(s, table)| == |s| + Growth(s, table)
    decreases |table|
  {
    if |table| > 0 {
      var s' := Replace(s, table[0].0, table[0].1);
      var rest := table[1..];
      assert forall i | 0 <= i < |rest| :: rest[i] == table[i + 1];
      ReplaceEachLength(s', rest);
      KeptCountsKeepGrowth(s, table[0].0, table[0].1, rest);
    }
  }

  lemma {:induction false} KeptCountsKeepGrowth(s: string, p: string, v: string, rest: seq<(string, string)>)
    requires p != [] && v != [] && Patterns(rest)
    requires forall i | 0 <= i < |rest| :: Separate(p, rest[i].0) && Disjoint(v, rest[i].0)
    ensures Growth(Replace(s, p, v), rest) == Growth(s, rest)
    decreases |rest|
  {
    if |rest| > 0 {
      ReplaceKeepsCount(s, p, v, rest[0].0);
      assert forall i | 0 <= i < |rest[1..]| :: rest[1..][i] == rest[i + 1];
      KeptCountsKeepGrowth(s, p, v, rest[1..]);
    }
  }

  /** A character that occurs in no pattern is counted in the result as often
      as in the input plus as often as the replacements insert it. */
  lemma {:induction false} ReplaceEachCharCount(s: string, table: seq<(string, string)>, c: char)
    requires Patterns(table) && PairwiseSeparate(table) && Inert(table)
    requires forall i | 0 <= i < |table| :: c !in table[i].0
    ensures multiset(ReplaceEach(s, table))[c] == multiset(s)[c] + Inserted(s, table, c)
    decreases |table|
  {
    if |table| > 0 {
      var s' := Replace(s, table[0].0, table[0].1);
      var rest := table[1..];
      assert forall i | 0 <= i < |rest| :: rest[i] == table[i + 1];
      ReplaceEachCharCount(s', rest, c);
      ReplaceCharCount(s, table[0].0, table[0].1, c);
      assert multiset(table[0].0)[c] == 0;
      KeptCountsKeepInserted(s, table[0].0, table[0].1, rest, c);
    }
  }

  lemma {:induction false} KeptCountsKeepInserted(s: string, p: string, v: string, rest: seq<(string, string)>, c: char)
    requires p != [] && v != [] && Patterns(rest)
    requires forall i | 0 <= i < |rest| :: Separate(p, rest[i].0) && Disjoint(v, rest[i].0)
    ensures Inserted(Replace(s, p, v), rest, c) == Inserted(s, rest, c)
    decreases |rest|
  {
    if |rest| > 0 {
      ReplaceKeepsCount(s, p, v, rest[0].0);
      assert forall i | 0 <= i < |rest[1..]| :: rest[1..][i] == rest[i + 1];
      KeptCountsKeepInserted(s, p, v, rest[1..], c);
    }
  }

  /** A template consisting of exactly the `i`-th pattern renders to the
      `i`-th value, provided no value contains a pattern. */
  lemma {:induction false} ReplaceEachSingle(table: seq<(string, string)>, i: nat)
    requires Patterns(table) && PairwiseSeparate(table)
    requires i < |table|
    requires forall j, k | 0 <= j < |table| && 0 <= k < |table| :: !Contains(table[j].1, table[k].0)
    ensures ReplaceEach(table[i].0, table) == table[i].1
    decreases |table|
  {
    var p, v := table[0].0, table[0].1;
    var rest := table[1..];
    assert forall j | 0 <= j < |rest| :: rest[j] == table[j + 1];
    if i == 0 {
      assert Replace(p, p, v) == v by {
        assert StartsWith(p, p);
        assert p[|p|..] == [];
        assert v + [] == v;
      }
      ReplaceEachAbsent(v, rest);
    } else {
      SeparateNotContained(table[i].0, p);
      ReplaceAbsent(table[i].0, p, v);
      ReplaceEachSingle(rest, i - 1);
    }
  }

  // ---------------------------------------------------------------------
  // Rendering with the seven placeholders

  /** The token of the `i`-th key. */
  function Token(i: nat): string
    requires i < |Keys|
  {
    Placeholder(Keys[i])
  }

  /** Every field value is non-empty and shares no character with any of the
      seven tokens. */
  predicate InertFields(info: ModuleInfo) {
    forall i, j | 0 <= i < |Keys| && 0 <= j < |Keys| ::
      Values(info)[i] != [] && Disjoint(Values(info)[i], Token(j))
  }

  /** No field value contains any of the seven tokens. */
  predicate TokenFreeFields(info: ModuleInfo) {
    forall i, j | 0 <= i < |Keys| && 0 <= j < |Keys| :: !Contains(Values(info)[i], Token(j))
  }

  lemma SubstitutionsWellFormed(info: ModuleInfo)
    ensures Patterns(Substitutions(info))
    ensures PairwiseSeparate(Substitutions(info))
    ensures InertFields(info) ==> Inert(Substitutions(info))
  {
    var table := Substitutions(info);
    PlaceholderTokensSeparate();
    forall i | 0 <= i < |table| ensures table[i].0 != [] {
      assert table[i].0 == Token(i);
    }
    forall i, j | 0 <= i < |table| && 0 <= j < |table| && i != j
      ensures Separate(table[i].0, table[j].0)
    {
      assert table[i].0 == Token(i) && table[j].0 == Token(j);
    }
    if InertFields(info) {
      forall i, j | 0 <= i < |table| && 0 <= j < |table|
        ensures table[i].1 != [] && Disjoint(table[i].1, table[j].0)
      {
        assert table[i].1 == Values(info)[i] && table[j].0 == Token(j);
      }
    }
  }

  /** Rendering is the left fold of `Replace` over the tokens in the order
      name, version, description, url, admin, asurite, date, each step
      working on the text produced by the one before. */
  lemma RenderIsSequentialReplace(t: string, info: ModuleInfo)
    ensures Render(t, info)
         == Replace(Replace(Replace(Replace(Replace(Replace(Replace(t,
              "{{name}}", info.name),
              "{{version}}", info.version),
              "{{description}}", info.description),
              "{{url}}", info.url),
              "{{admin}}", info.admin),
              "{{asurite}}", info.asurite),
              "{{date}}", info.date)
  {
    var table := Substitutions(info);
    SubstitutionsWellFormed(info);
    TokenSpelling();
    assert table[0] == ("{{name}}", info.name);
    assert table[1] == ("{{version}}", info.version);
    assert table[2] == ("{{description}}", info.description);
    assert table[3] == ("{{url}}", info.url);
    assert table[4] == ("{{admin}}", info.admin);
    assert table[5] == ("{{asurite}}", info.asurite);
    assert table[6] == ("{{date}}", info.date);
    var s1 := Replace(t, "{{name}}", info.name);
    var s2 := Replace(s1, "{{version}}", info.version);
    var s3 := Replace(s2, "{{description}}", info.description);
    var s4 := Replace(s3, "{{url}}", info.url);
    var s5 := Replace(s4, "{{admin}}", info.admin);
    var s6 := Replace(s5, "{{asurite}}", info.asurite);
    var s7 := Replace(s6, "{{date}}", info.date);
    ReplaceEachStep(t, table, 0);
    ReplaceEachStep(s1, table, 1);
    ReplaceEachStep(s2, table, 2);
    ReplaceEachStep(s3, table, 3);
    ReplaceEachStep(s4, table, 4);
    ReplaceEachStep(s5, table, 5);
    ReplaceEachStep(s6, table, 6);
    assert table[7..] == [];
  }

  /** The seven tokens, spelled out. */
  lemma TokenSpelling()
    ensures Token(0) == "{{name}}" && Token(1) == "{{version}}"
    ensures Token(2) == "{{description}}" && Token(3) == "{{url}}"
    ensures Token(4) == "{{admin}}" && Token(5) == "{{asurite}}"
    ensures Token(6) == "{{date}}"
  {
  }

  /** One step of the fold, taken from the middle of the table. */
  lemma ReplaceEachStep(s: string, table: seq<(string, string)>, k: nat)
    requires Patterns(table) && k < |table|
    ensures ReplaceEach(s, table[k..])
         == ReplaceEach(Replace(s, table[k].0, table[k].1), table[k + 1..])
  {
    assert table[k..][0] == table[k];
    assert table[k..][1..] == table[k + 1..];
  }

  /** A template containing none of the seven tokens renders to itself. */
  lemma RenderWithoutTokens(t: string, info: ModuleInfo)
    requires forall k | 0 <= k < |Keys| :: !Contains(t, Token(k))
    ensures Render(t, info) == t
  {
    SubstitutionsWellFormed(info);
    ReplaceEachAbsent(t, Substitutions(info));
  }

  /** A `{{key}}` token for any other brace-free key passes through verbatim. */
  lemma RenderOtherPlaceholder(key: string, info: ModuleInfo)
    requires key != [] && BraceFree(key) && key !in Keys
    ensures Render(Placeholder(key), info) == Placeholder(key)
  {
    KeysWellFormed();
    forall k | 0 <= k < |Keys| ensures !Contains(Placeholder(key), Token(k)) {
      PlaceholdersSeparate(key, Keys[k]);
      SeparateNotContained(Placeholder(key), Token(k));
    }
    RenderWithoutTokens(Placeholder(key), info);
  }

  /** `{{unknown}}` is not one of the seven tokens and is left as it is. */
  lemma RenderUnknownToken(info: ModuleInfo)
    ensures Render("{{unknown}}", info) == "{{unknown}}"
  {
    var key := "unknown";
    assert BraceFree(key) && key !in Keys;
    RenderOtherPlaceholder(key, info);
    assert Placeholder(key) == "{{unknown}}";
  }

  /** A template that is exactly one token renders to that field's value,
      provided no field value contains a token. */
  lemma RenderSingleToken(i: nat, info: ModuleInfo)
    requires i < |Keys|
    requires TokenFreeFields(info)
    ensures Render(Token(i), info) == Values(info)[i]
  {
    SubstitutionsWellFormed(info);
    ReplaceEachSingle(Substitutions(info), i);
  }

  /** With inert field values, none of the seven tokens is left in the output. */
  lemma RenderClears(t: string, info: ModuleInfo)
    requires InertFields(info)
    ensures forall k | 0 <= k < |Keys| :: !Contains(Render(t, info), Token(k))
  {
    SubstitutionsWellFormed(info);
    forall k | 0 <= k < |Keys| ensures !Contains(Render(t, info), Token(k)) {
      ReplaceEachClears(t, Substitutions(info), k);
      CountZeroIffAbsent(Render(t, info), Token(k));
    }
  }

  /** With inert field values, each token occurrence of the template grows or
      shrinks the output by the length difference between value and token. */
  lemma RenderLength(t: string, info: ModuleInfo)
    requires InertFields(info)
    ensures |Render(t, info)| == |t| + Growth(t, Substitutions(info))
  {
    SubstitutionsWellFormed(info);
    ReplaceEachLength(t, Substitutions(info));
  }

  /** A character found only in the `i`-th field value (not in the template,
      not in any other value) appears in the output once for each copy in
      that value, per occurrence of the `i`-th token in the template: each
      sentinel value appears once per token occurrence. */
  lemma RenderSentinel(t: string, info: ModuleInfo, i: nat, c: char)
    requires InertFields(info)
    requires i < |Keys|
    requires c in Values(info)[i] && c !in t
    requires forall j | 0 <= j < |Keys| && j != i :: c !in Values(info)[j]
    ensures multiset(Render(t, info))[c] == Count(t, Token(i)) * multiset(Values(info)[i])[c]
  {
    var table := Substitutions(info);
    SubstitutionsWellFormed(info);
    forall j | 0 <= j < |Keys| ensures c !in table[j].0 {
      var k :| 0 <= k < |Values(info)[i]| && Values(info)[i][k] == c;
      assert Disjoint(Values(info)[i], Token(j));
    }
    ReplaceEachCharCount(t, table, c);
    InsertedOnlyAt(t, table, i, c);
  }

  /** When only the `i`-th value of a table holds `c`, only the `i`-th
      pattern's occurrences insert it. */
  lemma {:induction false} InsertedOnlyAt(s: string, table: seq<(string, string)>, i: nat, c: char)
    requires Patterns(table) && i < |table|
    requires forall j | 0 <= j < |table| && j != i :: c !in table[j].1
    ensures Inserted(s, table, c) == Count(s, table[i].0) * multiset(table[i].1)[c]
    decreases |table|
  {
    var rest := table[1..];
    assert forall j | 0 <= j < |rest| :: rest[j] == table[j + 1];
    if i == 0 {
      InsertedNone(s, rest, c);
    } else {
      assert multiset(table[0].1)[c] == 0;
      InsertedOnlyAt(s, rest, i - 1, c);
    }
  }

  lemma {:induction false} InsertedNone(s: string, table: seq<(string, string)>, c: char)
    requires Patterns(table)
    requires forall j | 0 <= j < |table| :: c !in table[j].1
    ensures Inserted(s, table, c) == 0
    decreases |table|
  {
    if |table| > 0 {
      assert multiset(table[0].1)[c] == 0;
      assert forall j | 0 <= j < |table[1..]| :: table[1..][j] == table[j + 1];
      InsertedNone(s, table[1..], c);
    }
  }

  // ---------------------------------------------------------------------
  // Order dependence: inserted text is scanned by the later keys only

  /** Starting the fold at entry `k`, a text that is exactly the `i`-th
      pattern (`k <= i`) passes unchanged until entry `i` turns it into the
      `i`-th value, which the entries after `i` then work on. */
  lemma {:induction false} ReplaceEachReaches(table: seq<(string, string)>, i: nat, k: nat)
    requires Patterns(table) && PairwiseSeparate(table)
    requires k <= i < |table|
    ensures ReplaceEach(table[i].0, table[k..]) == ReplaceEach(table[i].1, table[i + 1..])
    decreases i - k
  {
    var p := table[i].0;
    ReplaceEachStep(p, table, k);
    if k == i {
      assert Replace(p, p, table[i].1) == table[i].1 by {
        assert StartsWith(p, p);
        assert p[|p|..] == [];
        assert table[i].1 + [] == table[i].1;
      }
    } else {
      SeparateNotContained(p, table[k].0);
      ReplaceAbsent(p, table[k].0, table[k].1);
      ReplaceEachReaches(table, i, k + 1);
    }
  }

  /** `ReplaceEachReaches` for the whole table. */
  lemma ReplaceEachReachesFromStart(table: seq<(string, string)>, i: nat)
    requires Patterns(table) && PairwiseSeparate(table)
    requires i < |table|
    ensures ReplaceEach(table[i].0, table) == ReplaceEach(table[i].1, table[i + 1..])
  {
    ReplaceEachReaches(table, i, 0);
    assert table[0..] == table;
  }

  /** A later key's token inside an earlier inserted value is substituted
      too: if the `i`-th value is exactly the token of a later key `j`, the
      template `Token(i)` renders to the `j`-th value (when that value holds
      no token itself). */
  lemma RenderRescansLaterTokens(i: nat, j: nat, info: ModuleInfo)
    requires i < j < |Keys|
    requires Values(info)[i] == Token(j)
    requires forall k | 0 <= k < |Keys| :: !Contains(Values(info)[j], Token(k))
    ensures Render(Token(i), info) == Values(info)[j]
  {
    SubstitutionsWellFormed(info);
    ReplaceEachForwards(Substitutions(info), i, j);
  }

  /** In any table, the `i`-th pattern whose value is a later `j`-th pattern
      ends up as the `j`-th value, provided that value holds no pattern. */
  lemma ReplaceEachForwards(table: seq<(string, string)>, i: nat, j: nat)
    requires Patterns(table) && PairwiseSeparate(table)
    requires i < j < |table|
    requires table[i].1 == table[j].0
    requires forall k | 0 <= k < |table| :: !Contains(table[j].1, table[k].0)
    ensures ReplaceEach(table[i].0, table) == table[j].1
  {
    ReplaceEachReachesFromStart(table, i);
    ReplaceEachFromLater(table, i + 1, j);
  }

  /** An earlier key's token inside a later inserted value is left verbatim:
      if the `i`-th value is exactly the token of an earlier key `j`, the
      template `Token(i)` renders to that token. */
  lemma RenderKeepsEarlierTokens(i: nat, j: nat, info: ModuleInfo)
    requires j < i < |Keys|
    requires Values(info)[i] == Token(j)
    ensures Render(Token(i), info) == Token(j)
  {
    SubstitutionsWellFormed(info);
    ReplaceEachKeepsEarlier(Substitutions(info), i, j);
  }

  /** In any table, the `i`-th pattern whose value is an earlier `j`-th
      pattern ends up as that earlier pattern. */
  lemma ReplaceEachKeepsEarlier(table: seq<(string, string)>, i: nat, j: nat)
    requires Patterns(table) && PairwiseSeparate(table)
    requires j < i < |table|
    requires table[i].1 == table[j].0
    ensures ReplaceEach(table[i].0, table) == table[j].0
  {
    ReplaceEachReachesFromStart(table, i);
    var rest := table[i + 1..];
    forall m | 0 <= m < |rest| ensures !Contains(table[j].0, rest[m].0) {
      assert rest[m] == table[i + 1 + m];
      SeparateNotContained(table[j].0, table[i + 1 + m].0);
    }
    ReplaceEachAbsent(table[j].0, rest);
  }

  /** Wrapping a token in a second pair of braces and replacing it by its own
      key gives the token back: `"{{{{name}}}}".replace("{{name}}", "name")`
      is `"{{name}}"`. */
  lemma NestedPlaceholderCollapses(key: string)
    requires key != [] && BraceFree(key)
    ensures Replace("{{" + Placeholder(key) + "}}", Placeholder(key), key) == Placeholder(key)
  {
    NestedCollapses(key, "{{", "}}", '{', '}');
  }

  /** `NestedPlaceholderCollapses` for any doubled opening character `o`
      and closing pair. */
  lemma NestedCollapses(key: string, open: string, close: string, o: char, c: char)
    requires key != [] && key[0] != o
    requires open == [o, o] && close == [c, c]
    ensures Replace(open + (open + key + close) + close, open + key + close, key) == open + key + close
  {
    var p := open + key + close;
    assert p[0] == o && p[1] == o && p[2] == key[0];
    ReplaceInBraces(p, key, open, close, o, c);
  }

  /** Replacing a pattern that opens with `oo` and a third character other
      than `o`, inside a second pair `oo`..`cc`, touches only the pattern
      itself. */
  lemma ReplaceInBraces(p: string, v: string, open: string, close: string, o: char, c: char)
    requires |p| > 2 && p[0] == o && p[1] == o && p[2] != o
    requires open == [o, o] && close == [c, c]
    ensures Replace(open + p + close, p, v) == open + v + close
  {
    var body := p + close;
    PairedFront(o, open, p, close);
    PairedFront(o, open, v, close);
    ReplacePatternThenShort(p, close, v);
    BraceSkipped(o, body, [o] + body, p, v, v + close);
    BraceSkipped(o, [o] + body, open + p + close, p, v, [o] + (v + close));
  }

  lemma PairedFront(o: char, open: string, x: string, close: string)
    requires open == [o, o]
    ensures open + x + close == [o] + ([o] + (x + close))
  {
  }

  /** The pattern followed by text too short to hold it becomes the value
      followed by that text. */
  lemma ReplacePatternThenShort(p: string, rest: string, v: string)
    requires p != [] && |rest| < |p|
    ensures Replace(p + rest, p, v) == v + rest
  {
    ReplaceAbsent(rest, p, v);
    ReplaceAtStart(p, rest, v);
  }

  /** A brace `o` in front of a text whose second character is `o` cannot
      start a pattern whose third character is not `o`; it is copied. */
  lemma BraceSkipped(o: char, body: string, whole: string, p: string, v: string, r: string)
    requires |p| > 2 && |body| >= 2 && body[1] == o && p[2] != o
    requires whole == [o] + body
    requires Replace(body, p, v) == r
    ensures Replace(whole, p, v) == [o] + r
  {
    assert !StartsWith(whole, p) by { assert whole[2] == body[1]; }
    ReplacePastChar(o, body, p, v);
  }

  /** Values that contain no token do not guarantee a token-free output: with
      `name` set to the text `name` (which holds no token), the template
      `{{{{name}}}}` renders to `{{name}}`, as a new token is formed from
      template text on both sides of the replaced one. */
  lemma TokenFreeFieldsCanLeaveTokens(info: ModuleInfo)
    requires info.name == Keys[0]
    ensures Render("{{" + Token(0) + "}}", info) == Token(0)
    ensures forall j | 0 <= j < |Keys| :: !Contains(info.name, Token(j))
  {
    var table := Substitutions(info);
    SubstitutionsWellFormed(info);
    forall j | 0 <= j < |Keys| ensures !Contains(info.name, Token(j)) {
      assert |info.name| < |Token(j)|;
    }
    NestedPlaceholderCollapses(Keys[0]);
    assert table[0] == (Token(0), info.name);
    ReplaceEachFirstForms(table, "{{" + Token(0) + "}}");
  }

  /** When the first entry's replacement turns `s` into the first pattern,
      the rest of the table leaves that pattern alone. */
  lemma ReplaceEachFirstForms(table: seq<(string, string)>, s: string)
    requires Patterns(table) && PairwiseSeparate(table) && |table| > 0
    requires Replace(s, table[0].0, table[0].1) == table[0].0
    ensures ReplaceEach(s, table) == table[0].0
  {
    ReplaceEachSkipsOwnPattern(table, 0);
  }

  /** The entries after the `i`-th one leave the `i`-th pattern alone. */
  lemma ReplaceEachSkipsOwnPattern(table: seq<(string, string)>, i: nat)
    requires Patterns(table) && PairwiseSeparate(table) && i < |table|
    ensures ReplaceEach(table[i].0, table[i + 1..]) == table[i].0
  {
    var rest := table[i + 1..];
    forall m | 0 <= m < |rest| ensures !Contains(table[i].0, rest[m].0) {
      assert rest[m] == table[i + 1 + m];
      SeparateNotContained(table[i].0, table[i + 1 + m].0);
    }
    ReplaceEachAbsent(table[i].0, rest);
  }

  /** From entry `k` on, the `j`-th pattern (`k <= j`) ends up as the `j`-th
      value, provided that value holds no pattern. */
  lemma ReplaceEachFromLater(table: seq<(string, string)>, k: nat, j: nat)
    requires Patterns(table) && PairwiseSeparate(table)
    requires k <= j < |table|
    requires forall m | 0 <= m < |table| :: !Contains(table[j].1, table[m].0)
    ensures ReplaceEach(table[j].0, table[k..]) == table[j].1
  {
    ReplaceEachReaches(table, j, k);
    ReplaceEachSkipsTail(table, j);
  }

  /** The entries after the `i`-th one leave alone a text holding no
      pattern of the table. */
  lemma ReplaceEachSkipsTail(table: seq<(string, string)>, i: nat)
    requires Patterns(table) && i < |table|
    requires forall k | 0 <= k < |table| :: !Contains(table[i].1, table[k].0)
    ensures ReplaceEach(table[i].1, table[i + 1..]) == table[i].1
  {
    var rest := table[i + 1..];
    assert forall m | 0 <= m < |rest| :: rest[m] == table[i + 1 + m];
    ReplaceEachAbsent(table[i].1, rest);
  }

  // ---------------------------------------------------------------------
  // Templates whose curly braces all belong to placeholders

  /** A template written as a sequence of pieces: literal text, or the
      placeholder of a key. */
  datatype Piece = Literal(text: string) | Slot(key: string)

  /** Literal pieces hold no curly brace and every slot names a non-empty,
      brace-free key: every brace of the template belongs to a placeholder. */
  predicate PlainPieces(ps: seq<Piece>) {
    forall j | 0 <= j < |ps| ::
      && (ps[j].Literal? ==> BraceFree(ps[j].text))
      && (ps[j].Slot? ==> ps[j].key != [] && BraceFree(ps[j].key))
  }

  /** Every slot names one of the seven keys. */
  predicate KnownSlots(ps: seq<Piece>) {
    forall j | 0 <= j < |ps| :: ps[j].Slot? ==> ps[j].key in Keys
  }

  /** No field value holds a curly brace. */
  predicate BraceFreeFields(info: ModuleInfo) {
    forall i | 0 <= i < |Keys| :: BraceFree(Values(info)[i])
  }

  /** The template text of one piece: a slot as its placeholder. */
  function PieceLayout(p: Piece): string {
    match p
    case Literal(t) => t
    case Slot(key) => Placeholder(key)
  }

  /** The template text the pieces spell. */
  function Layout(ps: seq<Piece>): string {
    if ps == [] then [] else PieceLayout(ps[0]) + Layout(ps[1..])
  }

  /** The position of the first `key` in `ks`, or `|ks|` when there is none. */
  function IndexOf(key: string, ks: seq<string>): (i: nat)
    ensures i <= |ks|
    ensures i < |ks| ==> ks[i] == key
    ensures forall j | 0 <= j < i :: ks[j] != key
  {
    if ks == [] then 0
    else if ks[0] == key then 0
    else 1 + IndexOf(key, ks[1..])
  }

  /** What the placeholder of `key` stands for: the field value of one of the
      seven keys, and the placeholder itself for any other key. */
  function Field(info: ModuleInfo, key: string): string {
    var i := IndexOf(key, Keys);
    if i < |Keys| then Values(info)[i] else Placeholder(key)
  }

  /** The intended reading of a template: each literal kept, each slot
      replaced by what its placeholder stands for. */
  function Fill(ps: seq<Piece>, info: ModuleInfo): string {
    if ps == [] then [] else PieceFill(ps[0], info) + Fill(ps[1..], info)
  }

  /** One piece, filled in: a slot as what its placeholder stands for. */
  function PieceFill(p: Piece, info: ModuleInfo): string {
    match p
    case Literal(t) => t
    case Slot(key) => Field(info, key)
  }

  /** The text after the first `m` replacements of the fold: the slots of the
      first `m` keys filled in, every other slot still a placeholder. */
  function FilledBelow(ps: seq<Piece>, info: ModuleInfo, m: nat): string {
    if ps == [] then []
    else
      (match ps[0]
       case Literal(t) => t
       case Slot(key) => if IndexOf(key, Keys) < m then Field(info, key) else Placeholder(key))
      + FilledBelow(ps[1..], info, m)
  }

  /** A template whose braces all belong to placeholders, rendered with
      field values that hold no brace, is the template with each placeholder
      of the seven keys replaced by its field value; any other placeholder is
      left as written. */
  lemma RenderFillsPlaceholders(ps: seq<Piece>, info: ModuleInfo)
    requires PlainPieces(ps) && BraceFreeFields(info)
    ensures Render(Layout(ps), info) == Fill(ps, info)
  {
    LayoutIsFilledBelowNone(ps, info);
    FillIsFilledBelowAll(ps, info);
    FillFrom(ps, info, 0);
    assert Substitutions(info)[0..] == Substitutions(info);
  }

  /** Under the same conditions, when every slot names one of the seven
      keys, no placeholder token is left in the output. */
  lemma RenderFillsKnownPlaceholders(ps: seq<Piece>, info: ModuleInfo)
    requires PlainPieces(ps) && KnownSlots(ps) && BraceFreeFields(info)
    ensures forall k | 0 <= k < |Keys| :: !Contains(Render(Layout(ps), info), Token(k))
  {
    RenderFillsPlaceholders(ps, info);
    FillBraceFree(ps, info);
    forall k | 0 <= k < |Keys| ensures !Contains(Fill(ps, info), Token(k)) {
      BraceFreeHoldsNoToken(Fill(ps, info), k);
    }
  }

  /** A typical template line: with brace-free values, such as the module
      name `gcc` and version `12.1`, each placeholder of the line
      `whatis("{{name}} {{version}}")` becomes its value. */
  lemma RenderWhatisLine(info: ModuleInfo)
    requires BraceFreeFields(info)
    ensures Render("whatis(\"{{name}} {{version}}\")", info)
         == "whatis(\"" + info.name + " " + info.version + "\")"
  {
    WhatisSpelling();
    FieldsOfNameAndVersion(info);
    RenderTwoSlots("whatis(\"", "name", " ", "version", "\")", info);
  }

  /** The whatis line, spelled with `Placeholder`. */
  lemma WhatisSpelling()
    ensures "whatis(\"" + Placeholder("name") + " " + Placeholder("version") + "\")"
         == "whatis(\"{{name}} {{version}}\")"
  {
  }

  lemma FieldsOfNameAndVersion(info: ModuleInfo)
    ensures Field(info, "name") == info.name && Field(info, "version") == info.version
  {
    assert IndexOf("name", Keys) == 0;
    assert Keys[0] != "version" && Keys[1..][0] == "version";
    assert IndexOf("version", Keys) == 1;
  }

  /** A line of brace-free text with two placeholders renders to the text
      with each placeholder replaced by what it stands for. */
  lemma RenderTwoSlots(a: string, k1: string, b: string, k2: string, c: string, info: ModuleInfo)
    requires BraceFree(a) && BraceFree(b) && BraceFree(c)
    requires k1 != [] && BraceFree(k1) && k2 != [] && BraceFree(k2)
    requires BraceFreeFields(info)
    ensures Render(a + Placeholder(k1) + b + Placeholder(k2) + c, info)
         == a + Field(info, k1) + b + Field(info, k2) + c
  {
    var ps := TwoSlots(a, k1, b, k2, c);
    assert PlainPieces(ps);
    TwoSlotsLayout(a, k1, b, k2, c);
    TwoSlotsFill(a, k1, b, k2, c, info);
    RenderFillsPlaceholders(ps, info);
  }

  /** The pieces of a line with two placeholders. */
  function TwoSlots(a: string, k1: string, b: string, k2: string, c: string): seq<Piece> {
    [Literal(a), Slot(k1), Literal(b), Slot(k2), Literal(c)]
  }

  lemma TwoSlotsLayout(a: string, k1: string, b: string, k2: string, c: string)
    ensures Layout(TwoSlots(a, k1, b, k2, c)) == a + Placeholder(k1) + b + Placeholder(k2) + c
  {
    var ps := TwoSlots(a, k1, b, k2, c);
    LayoutCons(ps, 4);
    LayoutCons(ps, 3);
    LayoutCons(ps, 2);
    LayoutCons(ps, 1);
    LayoutCons(ps, 0);
    assert ps[5..] == [];
    Regroup(a, Placeholder(k1), b, Placeholder(k2), c);
  }

  lemma TwoSlotsFill(a: string, k1: string, b: string, k2: string, c: string, info: ModuleInfo)
    ensures Fill(TwoSlots(a, k1, b, k2, c), info) == a + Field(info, k1) + b + Field(info, k2) + c
  {
    var ps := TwoSlots(a, k1, b, k2, c);
    FillCons(ps, 4, info);
    FillCons(ps, 3, info);
    FillCons(ps, 2, info);
    FillCons(ps, 1, info);
    FillCons(ps, 0, info);
    assert ps[5..] == [];
    Regroup(a, Field(info, k1), b, Field(info, k2), c);
  }

  lemma Regroup(a: string, x: string, b: string, y: string, c: string)
    ensures a + (x + (b + (y + (c + [])))) == a + x + b + y + c
  {
  }

  lemma LayoutCons(ps: seq<Piece>, k: nat)
    requires k < |ps|
    ensures Layout(ps[k..])
         == PieceLayout(ps[k]) + Layout(ps[k + 1..])
  {
    assert ps[k..][0] == ps[k] && ps[k..][1..] == ps[k + 1..];
  }

  lemma FillCons(ps: seq<Piece>, k: nat, info: ModuleInfo)
    requires k < |ps|
    ensures Fill(ps[k..], info)
         == PieceFill(ps[k], info) + Fill(ps[k + 1..], info)
  {
    assert ps[k..][0] == ps[k] && ps[k..][1..] == ps[k + 1..];
  }

  /** From the `m`-th entry on, the fold turns the text after `m`
      replacements into the text after all seven. */
  lemma {:induction false} FillFrom(ps: seq<Piece>, info: ModuleInfo, m: nat)
    requires PlainPieces(ps) && BraceFreeFields(info) && m <= |Keys|
    ensures ReplaceEach(FilledBelow(ps, info, m), Substitutions(info)[m..]) == FilledBelow(ps, info, |Keys|)
    decreases |Keys| - m
  {
    var table := Substitutions(info);
    SubstitutionsWellFormed(info);
    if m < |Keys| {
      ReplaceEachStep(FilledBelow(ps, info, m), table, m);
      FillStep(ps, info, m);
      FillFrom(ps, info, m + 1);
    } else {
      assert table[m..] == [];
    }
  }

  /** The `m`-th replacement fills exactly the slots of the `m`-th key. */
  lemma {:induction false} FillStep(ps: seq<Piece>, info: ModuleInfo, m: nat)
    requires PlainPieces(ps) && BraceFreeFields(info) && m < |Keys|
    ensures Replace(FilledBelow(ps, info, m), Token(m), Values(info)[m]) == FilledBelow(ps, info, m + 1)
    decreases |ps|
  {
    if ps != [] {
      var rest := ps[1..];
      assert forall j | 0 <= j < |rest| :: rest[j] == ps[j + 1];
      FillStep(rest, info, m);
      var tail := FilledBelow(rest, info, m);
      var v := Values(info)[m];
      match ps[0]
      case Literal(t) =>
        BraceFreeSkipped(t, tail, m, v);
      case Slot(key) =>
        var i := IndexOf(key, Keys);
        if i < m {
          BraceFreeSkipped(Values(info)[i], tail, m, v);
        } else if i == m {
          ReplaceAtStart(Token(m), tail, v);
        } else {
          OtherPlaceholderSkipped(key, tail, m, v);
        }
    }
  }

  /** Brace-free text in front of the rest is copied by a token's replacement. */
  lemma BraceFreeSkipped(t: string, tail: string, m: nat, v: string)
    requires BraceFree(t) && m < |Keys|
    ensures Replace(t + tail, Token(m), v) == t + Replace(tail, Token(m), v)
  {
    var p := Token(m);
    assert p[0] == '{';
    forall j | 0 <= j < |t| ensures !Agree(t[j..], p) {
      assert t[j..][0] == t[j];
    }
    ReplaceSkipsPrefix(t, tail, p, v);
  }

  /** The placeholder of any key other than the `m`-th is copied by the
      `m`-th token's replacement. */
  lemma OtherPlaceholderSkipped(key: string, tail: string, m: nat, v: string)
    requires key != [] && BraceFree(key) && m < |Keys| && key != Keys[m]
    ensures Replace(Placeholder(key) + tail, Token(m), v) == Placeholder(key) + Replace(tail, Token(m), v)
  {
    KeysWellFormed();
    PlaceholdersSeparate(key, Keys[m]);
    ReplaceSkipsPrefix(Placeholder(key), tail, Token(m), v);
  }

  lemma {:induction false} LayoutIsFilledBelowNone(ps: seq<Piece>, info: ModuleInfo)
    ensures Layout(ps) == FilledBelow(ps, info, 0)
    decreases |ps|
  {
    if ps != [] {
      LayoutIsFilledBelowNone(ps[1..], info);
    }
  }

  lemma {:induction false} FillIsFilledBelowAll(ps: seq<Piece>, info: ModuleInfo)
    ensures Fill(ps, info) == FilledBelow(ps, info, |Keys|)
    decreases |ps|
  {
    if ps != [] {
      FillIsFilledBelowAll(ps[1..], info);
    }
  }

  /** With brace-free literals and values and only known slots, the filled
      template holds no brace. */
  lemma {:induction false} FillBraceFree(ps: seq<Piece>, info: ModuleInfo)
    requires PlainPieces(ps) && KnownSlots(ps) && BraceFreeFields(info)
    ensures BraceFree(Fill(ps, info))
    decreases |ps|
  {
    if ps != [] {
      var rest := ps[1..];
      assert forall j | 0 <= j < |rest| :: rest[j] == ps[j + 1];
      FillBraceFree(rest, info);
      var head := PieceFill(ps[0], info);
      assert BraceFree(head);
      BraceFreeConcat(head, Fill(rest, info));
    }
  }

  lemma BraceFreeConcat(a: string, b: string)
    requires BraceFree(a) && BraceFree(b)
    ensures BraceFree(a + b)
  {
    assert forall i | 0 <= i < |a + b| :: (a + b)[i] == if i < |a| then a[i] else b[i - |a|];
  }

  /** Text without braces holds no placeholder token. */
  lemma BraceFreeHoldsNoToken(s: string, k: nat)
    requires BraceFree(s) && k < |Keys|
    ensures !Contains(s, Token(k))
  {
    var p := Token(k);
    assert p[0] == '{';
    forall i | 0 <= i <= |s| - |p| ensures !OccursAt(s, i, p) {
      assert s[i..i + |p|][0] == s[i];
    }
  }
}
