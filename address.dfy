/** `clean_address`: sanitize, correct letter O to zero inside postal codes,
    abbreviate the province or territory, and reformat the last line. */
module Address {
  import opened Chars
  import opened Options
  import opened Sanitize

  // ---------------------------------------------------------------------------
  // Step 1: `\b[A-Z][O0-9][A-Z]\s?[O0-9][A-Z][O0-9]\b`, every O of a match turned into 0.

  /** `[O0-9]` */
  predicate IsDigitOrO(c: char) {
    c == 'O' || IsDigit(c)
  }

  /** The pattern matches `s[i..i + n]`: the character classes in order, a
      word boundary at both ends, and the optional whitespace taken exactly
      when the token is seven characters long. */
  predicate TokenAt(s: string, i: nat, n: nat) {
    && (n == 6 || n == 7) && i + n <= |s|
    && IsWordBoundary(s, i) && IsUpper(s[i]) && IsDigitOrO(s[i + 1]) && IsUpper(s[i + 2])
    && (n == 7 <==> IsSpace(s[i + 3]))
    && IsDigitOrO(s[i + n - 3]) && IsUpper(s[i + n - 2]) && IsDigitOrO(s[i + n - 1])
    && IsWordBoundary(s, i + n)
  }

  /** The length of the postal-code-shaped token that starts at `i`, or 0.
      When `s[i + 3]` is whitespace the greedy `\s?` takes it; giving it back
      cannot help, since whitespace is not in `[O0-9]`. */
  function PostalMatchLen(s: string, i: nat): (n: nat)
    requires i <= |s|
    ensures n == 0 || n == 6 || n == 7
    ensures i + n <= |s|
    ensures n > 0 ==> TokenAt(s, i, n)
    ensures n == 0 ==> !TokenAt(s, i, 6) && !TokenAt(s, i, 7)
  {
    if i + 6 <= |s| && IsWordBoundary(s, i) && IsUpper(s[i]) && IsDigitOrO(s[i + 1]) && IsUpper(s[i + 2]) then
      if IsSpace(s[i + 3]) then
        if i + 7 <= |s| && IsDigitOrO(s[i + 4]) && IsUpper(s[i + 5]) && IsDigitOrO(s[i + 6]) && IsWordBoundary(s, i + 7)
        then 7 else 0
      else if IsDigitOrO(s[i + 3]) && IsUpper(s[i + 4]) && IsDigitOrO(s[i + 5]) && IsWordBoundary(s, i + 6)
      then 6 else 0
    else 0
  }

  /** `.replace('O', '0')` */
  function ZeroOs(t: string): (r: string)
    ensures |r| == |t|
    ensures forall k :: 0 <= k < |t| ==> r[k] == (if t[k] == 'O' then '0' else t[k])
  {
    seq(|t|, k requires 0 <= k < |t| => if t[k] == 'O' then '0' else t[k])
  }

  /** Some token matched at `j` covers position `k`. */
  predicate InToken(s: string, k: nat) {
    exists j :: 0 <= j <= k < |s| && k < j + PostalMatchLen(s, j)
  }

  /** The substitution from position `i` on. */
  function FixPostalFrom(s: string, i: nat): (r: string)
    requires i <= |s|
    ensures |r| == |s| - i
    decreases |s| - i
  {
    if i == |s| then []
    else
      var n := PostalMatchLen(s, i);
      if n > 0 then ZeroOs(s[i..i + n]) + FixPostalFrom(s, i + n)
      else [s[i]] + FixPostalFrom(s, i + 1)
  }

  /** The first substitution of `clean_address` (utils.py:219). */
  function FixPostal(s: string): (r: string)
    ensures |r| == |s|
  {
    FixPostalFrom(s, 0)
  }

  /** `c` is what may stand at position `k` after the first step: the
      character itself, or a 0 for an O inside a matched token. */
  predicate FixedAt(s: string, k: nat, c: char)
    requires k < |s|
  {
    c == s[k] || (s[k] == 'O' && c == '0' && InToken(s, k))
  }

  /** A character differs only where an O inside a matched token became a 0,
      and no O is left in the token matched at `i`. */
  lemma {:induction false} FixPostalFromChanges(s: string, i: nat)
    requires i <= |s|
    ensures forall m :: 0 <= m < |s| - i ==> FixedAt(s, i + m, FixPostalFrom(s, i)[m])
    ensures forall m :: 0 <= m < PostalMatchLen(s, i) ==> FixPostalFrom(s, i)[m] != 'O'
    decreases |s| - i
  {
    if i < |s| {
      var n := PostalMatchLen(s, i);
      var r := FixPostalFrom(s, i);
      if n > 0 {
        var z := ZeroOs(s[i..i + n]);
        var t := FixPostalFrom(s, i + n);
        FixPostalFromChanges(s, i + n);
        assert r == z + t;
        forall m | 0 <= m < |s| - i ensures FixedAt(s, i + m, r[m]) && (m < n ==> r[m] != 'O') {
          if m < n {
            assert r[m] == z[m];
            assert s[i..i + n][m] == s[i + m];
          } else {
            assert r[m] == t[m - n];
            assert FixedAt(s, (i + n) + (m - n), t[m - n]);
          }
        }
      } else {
        var t := FixPostalFrom(s, i + 1);
        FixPostalFromChanges(s, i + 1);
        assert r == [s[i]] + t;
        forall m | 0 < m < |s| - i ensures FixedAt(s, i + m, r[m]) {
          assert r[m] == t[m - 1];
          assert FixedAt(s, (i + 1) + (m - 1), t[m - 1]);
        }
      }
    }
  }

  /** The first step keeps the length and every character except an O inside
      a postal-code-shaped token, which becomes a 0. */
  lemma FixPostalChanges(s: string)
    ensures forall k :: 0 <= k < |s| ==> FixedAt(s, k, FixPostal(s)[k])
  {
    FixPostalFromChanges(s, 0);
  }

  /** When no token found before `j` reaches past `j`, the scan from `i`
      arrives at `j` and continues from there. */
  lemma {:induction false} FixPostalFromReaches(s: string, i: nat, j: nat)
    requires i <= j <= |s|
    requires forall p :: i <= p < j ==> p + PostalMatchLen(s, p) <= j
    ensures FixPostalFrom(s, i)[j - i..] == FixPostalFrom(s, j)
    decreases j - i
  {
    if i < j {
      var n := PostalMatchLen(s, i);
      assert i + n <= j;
      var step := if n > 0 then n else 1;
      var head := if n > 0 then ZeroOs(s[i..i + n]) else [s[i]];
      assert FixPostalFrom(s, i) == head + FixPostalFrom(s, i + step);
      FixPostalFromReaches(s, i + step, j);
      DropPast(head, FixPostalFrom(s, i + step), j - i);
    }
  }

  /** Dropping past the first part of a concatenation. */
  lemma {:induction false} DropPast(a: string, b: string, d: nat)
    requires |a| <= d <= |a| + |b|
    ensures (a + b)[d..] == b[d - |a|..]
  {
  }

  /** A token that no earlier token overlaps is corrected: each of its
      characters is kept, except that an O becomes a 0. */
  lemma {:induction false} FixPostalCorrectsToken(s: string, j: nat)
    requires j <= |s| && PostalMatchLen(s, j) > 0
    requires forall p :: 0 <= p < j ==> p + PostalMatchLen(s, p) <= j
    ensures forall k :: j <= k < j + PostalMatchLen(s, j) ==>
      FixPostal(s)[k] == (if s[k] == 'O' then '0' else s[k])
  {
    var n := PostalMatchLen(s, j);
    FixPostalFromReaches(s, 0, j);
    assert FixPostalFrom(s, j) == ZeroOs(s[j..j + n]) + FixPostalFrom(s, j + n);
    forall k | j <= k < j + n
      ensures FixPostal(s)[k] == (if s[k] == 'O' then '0' else s[k])
    {
      assert FixPostal(s)[k] == FixPostalFrom(s, j)[k - j];
      assert s[j..j + n][k - j] == s[k];
    }
  }

  // ---------------------------------------------------------------------------
  // Shared pieces of the two later patterns.

  /** `[,\n ]` */
  predicate IsSep(c: char) {
    c == ',' || c == '\n' || c == ' '
  }

  /** The length of the longest run of `[,\n ]` starting at `i`. A shorter run
      never helps the patterns below: each continues with a character outside
      the class. */
  function SepRun(s: string, i: nat): (n: nat)
    requires i <= |s|
    ensures i + n <= |s|
    ensures i + n == |s| || !IsSep(s[i + n])
    decreases |s| - i
  {
    if i < |s| && IsSep(s[i]) then 1 + SepRun(s, i + 1) else 0
  }

  /** Everything in the run is a separator. */
  lemma {:induction false} SepRunSeps(s: string, i: nat, k: nat)
    requires i <= k < |s| && k < i + SepRun(s, i)
    ensures IsSep(s[k])
    decreases k - i
  {
    if i < k {
      SepRunSeps(s, i + 1, k);
    }
  }

  lemma SepRunAll(s: string, i: nat)
    requires i <= |s|
    ensures forall k :: i <= k < i + SepRun(s, i) ==> IsSep(s[k])
  {
    forall k | i <= k < i + SepRun(s, i) {
      SepRunSeps(s, i, k);
    }
  }

  /** `[A-Z][0-9][A-Z]\s?[0-9][A-Z][0-9]\Z` at `y`. */
  predicate PostalCodeAt(s: string, y: nat)
    requires y <= |s|
  {
    || (|s| == y + 7 && IsUpper(s[y]) && IsDigit(s[y + 1]) && IsUpper(s[y + 2]) && IsSpace(s[y + 3])
        && IsDigit(s[y + 4]) && IsUpper(s[y + 5]) && IsDigit(s[y + 6]))
    || (|s| == y + 6 && IsUpper(s[y]) && IsDigit(s[y + 1]) && IsUpper(s[y + 2])
        && IsDigit(s[y + 3]) && IsUpper(s[y + 4]) && IsDigit(s[y + 5]))
  }

  /** `[,\n ]+` and then a postal code that ends the string. */
  predicate SepThenPostal(s: string, x: nat)
    requires x <= |s|
  {
    SepRun(s, x) > 0 && PostalCodeAt(s, x + SepRun(s, x))
  }

  /** `[,\n ]+Canada` at `x`. */
  predicate CanadaAt(s: string, x: nat)
    requires x <= |s|
  {
    var c := x + SepRun(s, x);
    && SepRun(s, x) > 0 && c + 6 <= |s|
    && s[c] == 'C' && s[c + 1] == 'a' && s[c + 2] == 'n' && s[c + 3] == 'a' && s[c + 4] == 'd' && s[c + 5] == 'a'
  }

  /** Where `[,\n ]+Canada` at `x` ends. */
  function AfterCanada(s: string, x: nat): (a: nat)
    requires x <= |s| && CanadaAt(s, x)
    ensures x < a <= |s|
  {
    x + SepRun(s, x) + 6
  }

  // ---------------------------------------------------------------------------
  // Step 2: the province and territory names (utils.py:164-180, 220-221).

  /** The `abbreviations` table, in the dictionary's insertion order. */
  const Abbreviations: seq<(string, string)> := [
    ("Newfoundland and Labrador", "NL"),
    ("Prince Edward Island", "PE"),
    ("Nova Scotia", "NS"),
    ("New Brunswick", "NB"),
    ("Qu\U{e9}bec", "QC"),
    ("Ontario", "ON"),
    ("Manitoba", "MB"),
    ("Saskatchewan", "SK"),
    ("Alberta", "AB"),
    ("British Columbia", "BC"),
    ("Yukon", "YT"),
    ("Northwest Territories", "NT"),
    ("Nunavut", "NU"),
    ("PEI", "PE")
  ]

  /** Every key starts with a capital, so no key starts with a separator or a
      parenthesis and the longest separator run is the one the pattern uses;
      every abbreviation is two capitals. */
  lemma AbbreviationsShape()
    ensures forall e :: e in Abbreviations ==>
      |e.0| > 0 && IsUpper(e.0[0]) && |e.1| == 2 && IsUpper(e.1[0]) && IsUpper(e.1[1])
  {
  }

  /** The lookahead `(?=(?:[,\n ]+Canada)?(?:[,\n ]+PC)?\Z)` at `x`, where PC is
      a postal code: nothing but an optional country and an optional postal
      code is left. */
  predicate ProvinceTail(s: string, x: nat)
    requires x <= |s|
  {
    || (CanadaAt(s, x) && (AfterCanada(s, x) == |s| || SepThenPostal(s, AfterCanada(s, x))))
    || x == |s|
    || SepThenPostal(s, x)
  }

  /** The key `k` occurs at `p`. */
  predicate KeyAt(s: string, p: nat, k: string) {
    p + |k| <= |s| && s[p..p + |k|] == k
  }

  /** The key `k` occurs somewhere in `s`. */
  predicate KeyOccurs(s: string, k: string) {
    exists p: nat :: p <= |s| && KeyAt(s, p, k)
  }

  /** `k\)?` at `p` followed by the lookahead: where the match ends. It
      ends right after the key, or one further when it takes a closing
      parenthesis; the greedy `\)?` takes the parenthesis whenever the
      lookahead then succeeds, and the match fails only when neither end
      is followed by the lookahead. */
  function KeyEnd(s: string, p: nat, k: string): (r: Option<nat>)
    requires p <= |s|
    ensures r.Some? ==> KeyAt(s, p, k) && p + |k| <= r.value <= |s| && ProvinceTail(s, r.value)
    ensures r.Some? ==> r.value == p + |k| || (r.value == p + |k| + 1 && s[p + |k|] == ')')
    ensures KeyAt(s, p, k) && p + |k| < |s| && s[p + |k|] == ')' && ProvinceTail(s, p + |k| + 1)
      ==> r == Some(p + |k| + 1)
    ensures KeyAt(s, p, k) && ProvinceTail(s, p + |k|) ==> r.Some?
  {
    if KeyAt(s, p, k) then
      var q := p + |k|;
      if q < |s| && s[q] == ')' && ProvinceTail(s, q + 1) then Some(q + 1)
      else if ProvinceTail(s, q) then Some(q)
      else None
    else None
  }

  /** `[,\n ]+\(?k\)?(?=...)` at `i`: where the match ends, or None. */
  function ProvinceMatch(s: string, i: nat, k: string): (r: Option<nat>)
    requires i <= |s|
    ensures r.Some? ==> i < r.value <= |s| && ProvinceTail(s, r.value)
    ensures r.Some? ==> KeyOccurs(s, k)
  {
    var n := SepRun(s, i);
    if n == 0 then None else AfterSeparators(s, i + n, k)
  }

  /** `\(?k\)?(?=...)` at `j`: the greedy `\(?` is taken when the rest then matches. */
  function AfterSeparators(s: string, j: nat, k: string): (r: Option<nat>)
    requires j <= |s|
    ensures r.Some? ==> j <= r.value <= |s| && ProvinceTail(s, r.value)
    ensures r.Some? ==> KeyOccurs(s, k)
  {
    if j < |s| && s[j] == '(' && KeyEnd(s, j + 1, k).Some? then KeyEnd(s, j + 1, k)
    else KeyEnd(s, j, k)
  }

  /** A province match at `i` needs a separator there; after the run of
      separators at `j` comes the key, or an opening parenthesis and then the
      key. */
  lemma {:induction false} ProvinceMatchShape(s: string, i: nat, k: string, j: nat)
    requires i <= |s| && j == i + SepRun(s, i)
    ensures ProvinceMatch(s, i, k).Some? ==>
      (j > i && (ProvinceMatch(s, i, k) == KeyEnd(s, j, k) ||
                 (j < |s| && s[j] == '(' && ProvinceMatch(s, i, k) == KeyEnd(s, j + 1, k))))
  {
    assert ProvinceMatch(s, i, k) == if j == i then None else AfterSeparators(s, j, k);
    if j > i {
      AfterSeparatorsShape(s, j, k);
    }
  }

  /** After the separators comes the key, or an opening parenthesis and the key. */
  lemma AfterSeparatorsShape(s: string, j: nat, k: string)
    requires j <= |s|
    ensures AfterSeparators(s, j, k) == KeyEnd(s, j, k)
      || (j < |s| && s[j] == '(' && AfterSeparators(s, j, k) == KeyEnd(s, j + 1, k))
  {
  }

  /** The greedy `\(?` takes the parenthesis whenever the rest then matches. */
  lemma {:induction false} ProvinceMatchTakesParen(s: string, i: nat, k: string, j: nat)
    requires i <= |s| && j == i + SepRun(s, i)
    ensures (j > i && j < |s| && s[j] == '(' && KeyEnd(s, j + 1, k).Some?) ==>
      ProvinceMatch(s, i, k) == KeyEnd(s, j + 1, k)
  {
  }

  /** A key right after a nonempty run of separators, followed by the
      lookahead, always gives a match. */
  lemma {:induction false} ProvinceMatchFindsKey(s: string, i: nat, k: string, j: nat)
    requires i <= |s| && j == i + SepRun(s, i)
    ensures (j > i && KeyEnd(s, j, k).Some?) ==> ProvinceMatch(s, i, k).Some?
  {
  }

  /** The match ends `m[p]` of a pattern at each position `p` of `s`: a
      match ends after it starts and inside the string. */
  predicate ValidMatches(s: string, m: seq<Option<nat>>) {
    |m| == |s| && forall p :: 0 <= p < |m| && m[p].Some? ==> p < m[p].value <= |s|
  }

  /** `re.sub` as the scan it performs from position `i` on: a match is
      replaced by `rep` and the scan resumes where the match ended;
      elsewhere one character is copied. */
  function ReplaceFrom(s: string, i: nat, m: seq<Option<nat>>, rep: string): string
    requires i <= |s| && ValidMatches(s, m)
    decreases |s| - i
  {
    if i == |s| then []
    else match m[i]
      case Some(e) => rep + ReplaceFrom(s, e, m, rep)
      case None => [s[i]] + ReplaceFrom(s, i + 1, m, rep)
  }

  /** Where no match starts in `[lo, i)`, the characters there are copied. */
  lemma {:induction false} ReplaceCopies(s: string, lo: nat, i: nat, m: seq<Option<nat>>, rep: string)
    requires lo <= i <= |s| && ValidMatches(s, m)
    requires forall p :: lo <= p < i ==> m[p].None?
    ensures ReplaceFrom(s, lo, m, rep) == s[lo..i] + ReplaceFrom(s, i, m, rep)
    decreases i - lo
  {
    if lo < i {
      var u := ReplaceFrom(s, i, m, rep);
      assert m[lo].None?;
      ReplaceCopies(s, lo + 1, i, m, rep);
      assert s[lo..i] == [s[lo]] + s[lo + 1..i];
      assert [s[lo]] + (s[lo + 1..i] + u) == ([s[lo]] + s[lo + 1..i]) + u;
    }
  }

  /** A single match, from `i` to `e`, is the only replacement: the rest is kept. */
  lemma ReplaceOne(s: string, m: seq<Option<nat>>, rep: string, i: nat, e: nat)
    requires ValidMatches(s, m) && i < |s| && m[i] == Some(e)
    requires forall p :: 0 <= p < i ==> m[p].None?
    requires forall p :: e <= p < |s| ==> m[p].None?
    ensures ReplaceFrom(s, 0, m, rep) == s[..i] + rep + s[e..]
  {
    ReplaceCopies(s, 0, i, m, rep);
    ReplaceCopies(s, e, |s|, m, rep);
    assert s[e..|s|] == s[e..];
    assert s[0..i] == s[..i];
  }

  /** The province pattern for key `k` at every position. */
  function ProvinceMatches(s: string, k: string): (m: seq<Option<nat>>)
    ensures ValidMatches(s, m)
    ensures forall p :: 0 <= p < |s| ==> m[p] == ProvinceMatch(s, p, k)
  {
    seq(|s|, p requires 0 <= p < |s| => ProvinceMatch(s, p, k))
  }

  /** One pass of the loop body at utils.py:221: the pattern for key `k`
      replaced by a space and the abbreviation `v`. */
  function Substitute(s: string, k: string, v: string): string {
    ReplaceFrom(s, 0, ProvinceMatches(s, k), " " + v)
  }

  /** A string in which the key does not occur is unchanged. */
  lemma SubstituteWithoutKey(s: string, k: string, v: string)
    requires !KeyOccurs(s, k)
    ensures Substitute(s, k, v) == s
  {
    var m := ProvinceMatches(s, k);
    ReplaceCopies(s, 0, |s|, m, " " + v);
    assert s[0..|s|] == s;
  }

  /** A match starting at `i` and ending at `e`, with no match before it and
      none from `e` on, is the only replacement: the matched text becomes a
      space and the abbreviation, and the rest is kept. */
  lemma SubstituteOne(s: string, k: string, v: string, i: nat)
    requires i < |s| && ProvinceMatch(s, i, k).Some?
    requires forall p :: 0 <= p < i ==> ProvinceMatch(s, p, k).None?
    requires forall p :: ProvinceMatch(s, i, k).value <= p < |s| ==> ProvinceMatch(s, p, k).None?
    ensures Substitute(s, k, v) == s[..i] + " " + v + s[ProvinceMatch(s, i, k).value..]
  {
    var m := ProvinceMatches(s, k);
    var e := ProvinceMatch(s, i, k).value;
    ReplaceOne(s, m, " " + v, i, e);
  }

  /** The loop at utils.py:220-221, as a fold over the table. */
  function AbbreviateWith(s: string, table: seq<(string, string)>): string
    decreases |table|
  {
    if table == [] then s else AbbreviateWith(Substitute(s, table[0].0, table[0].1), table[1..])
  }

  function Abbreviate(s: string): string {
    AbbreviateWith(s, Abbreviations)
  }

  /** A string in which no key of the table occurs goes through the loop unchanged. */
  lemma {:induction false} AbbreviateWithoutKeys(s: string, table: seq<(string, string)>)
    requires forall e :: e in table ==> !KeyOccurs(s, e.0)
    ensures AbbreviateWith(s, table) == s
    decreases |table|
  {
    if table != [] {
      assert table[0] in table;
      SubstituteWithoutKey(s, table[0].0, table[0].1);
      AbbreviateWithoutKeys(s, table[1..]);
    }
  }

  /** The loop when only entry `t` of the table changes the string: no key
      before it occurs, and no key after it occurs in what its substitution
      leaves. */
  lemma {:induction false} AbbreviateWithOnly(s: string, table: seq<(string, string)>, t: nat)
    requires t < |table|
    requires forall u :: 0 <= u < t ==> !KeyOccurs(s, table[u].0)
    requires forall u :: t < u < |table| ==> !KeyOccurs(Substitute(s, table[t].0, table[t].1), table[u].0)
    ensures AbbreviateWith(s, table) == Substitute(s, table[t].0, table[t].1)
    decreases t
  {
    if t == 0 {
      var r := Substitute(s, table[0].0, table[0].1);
      forall e | e in table[1..] ensures !KeyOccurs(r, e.0) {
        var u :| 0 <= u < |table[1..]| && table[1..][u] == e;
        assert table[u + 1] == e;
      }
      AbbreviateWithoutKeys(r, table[1..]);
    } else {
      SubstituteWithoutKey(s, table[0].0, table[0].1);
      AbbreviateWithOnly(s, table[1..], t - 1);
    }
  }

  /** A key that no inserted ` XY` can be part of: its second and third
      characters are not separators, and two places after each of its
      spaces comes a character that is not a capital. */
  predicate CannotStraddle(k: string) {
    && |k| >= 3 && !IsSep(k[1]) && !IsSep(k[2])
    && forall d :: 0 <= d < |k| && k[d] == ' ' ==> d + 2 < |k| && !IsUpper(k[d + 2])
  }

  // The keys are checked in groups, so that each check stays small.

  lemma LongNamesCannotStraddle()
    ensures CannotStraddle("Newfoundland and Labrador")
  {
  }

  lemma IslandCannotStraddle()
    ensures CannotStraddle("Prince Edward Island")
  {
  }

  lemma WesternNamesCannotStraddle()
    ensures CannotStraddle("British Columbia") && CannotStraddle("Northwest Territories")
  {
  }

  lemma EasternNamesCannotStraddle()
    ensures CannotStraddle("Nova Scotia") && CannotStraddle("New Brunswick")
    ensures CannotStraddle("Saskatchewan") && CannotStraddle("PEI")
  {
  }

  lemma CentralNamesCannotStraddle()
    ensures CannotStraddle("Qu\U{e9}bec") && CannotStraddle("Ontario") && CannotStraddle("Manitoba")
  {
  }

  lemma OtherNamesCannotStraddle()
    ensures CannotStraddle("Alberta") && CannotStraddle("Yukon") && CannotStraddle("Nunavut")
  {
  }

  /** No key of the table can be part of an inserted ` XY`. */
  lemma KeysCannotStraddle()
    ensures forall u :: 0 <= u < |Abbreviations| ==> CannotStraddle(Abbreviations[u].0)
  {
    LongNamesCannotStraddle();
    IslandCannotStraddle();
    WesternNamesCannotStraddle();
    EasternNamesCannotStraddle();
    CentralNamesCannotStraddle();
    OtherNamesCannotStraddle();
  }

  /** What the province pattern leaves after its match starts with a separator. */
  lemma TailStartsWithSep(s: string, x: nat)
    requires x < |s| && ProvinceTail(s, x)
    ensures IsSep(s[x])
  {
  }

  /** Replacing `s[i..e]` by a space and two capitals, when a separator or the
      end follows, creates no occurrence of a key that cannot straddle it. */
  lemma NoKeyAcrossReplacement(s: string, i: nat, e: nat, v: string, k: string)
    requires i <= e <= |s| && (e == |s| || IsSep(s[e]))
    requires |v| == 2 && IsUpper(v[0]) && IsUpper(v[1])
    requires CannotStraddle(k) && !KeyOccurs(s, k)
    ensures !KeyOccurs(s[..i] + " " + v + s[e..], k)
  {
    var r := s[..i] + " " + v + s[e..];
    forall p: nat | p <= |r| ensures !KeyAt(r, p, k) {
      if p + |k| <= i || p >= i + 3 {
        NoKeyCopied(s, i, e, v, k, p);
      } else {
        NoKeyStraddling(s, i, e, v, k, p);
      }
    }
  }

  /** An occurrence in the kept text would be one in `s`. */
  lemma NoKeyCopied(s: string, i: nat, e: nat, v: string, k: string, p: nat)
    requires i <= e <= |s| && |v| == 2 && !KeyOccurs(s, k)
    requires p + |k| <= i || p >= i + 3
    ensures !KeyAt(s[..i] + " " + v + s[e..], p, k)
  {
    var r := s[..i] + " " + v + s[e..];
    var n := |k|;
    if p + n <= |r| {
      if p + n <= i {
        assert r[p..p + n] == s[p..p + n];
        assert !KeyAt(s, p, k);
      } else {
        var q := p - i - 3 + e;
        var tail := s[e..];
        assert r[i + 3..] == tail;
        assert r[p..p + n] == tail[p - i - 3..p - i - 3 + n] == s[q..q + n];
        assert !KeyAt(s, q, k);
      }
    }
  }

  /** An occurrence overlapping the inserted ` XY` would need a separator, a
      space before a capital, or a key that cannot straddle. */
  lemma NoKeyStraddling(s: string, i: nat, e: nat, v: string, k: string, p: nat)
    requires i <= e <= |s| && (e == |s| || IsSep(s[e]))
    requires |v| == 2 && IsUpper(v[0]) && IsUpper(v[1])
    requires CannotStraddle(k)
    requires i < p + |k| && p < i + 3
    ensures !KeyAt(s[..i] + " " + v + s[e..], p, k)
  {
    var r := s[..i] + " " + v + s[e..];
    var n := |k|;
    if p + n <= |r| {
      if p == i + 2 {
        assert r[p + 1] == s[e] && r[p..p + n][1] == r[p + 1];
      } else if p == i + 1 {
        assert r[p + 2] == s[e] && r[p..p + n][2] == r[p + 2];
      } else {
        var d := i - p;
        assert r[i] == ' ' && r[p..p + n][d] == r[i];
        if k[d] == ' ' {
          assert r[i + 2] == v[1] && r[p..p + n][d + 2] == r[i + 2];
        }
      }
    }
  }

  /** The whole loop when exactly one name of the table occurs and the
      pattern matches it once, from `i` to `e`: the match becomes a space
      and that name's abbreviation, and the rest of the string is kept. No
      later substitution finds a key in the abbreviation. */
  lemma AbbreviateOne(s: string, t: nat, i: nat)
    requires t < |Abbreviations|
    requires forall u :: 0 <= u < |Abbreviations| && u != t ==> !KeyOccurs(s, Abbreviations[u].0)
    requires i < |s| && ProvinceMatch(s, i, Abbreviations[t].0).Some?
    requires forall p :: 0 <= p < i ==> ProvinceMatch(s, p, Abbreviations[t].0).None?
    requires forall p :: (ProvinceMatch(s, i, Abbreviations[t].0).value <= p < |s|
      ==> ProvinceMatch(s, p, Abbreviations[t].0).None?)
    ensures Abbreviate(s)
      == s[..i] + " " + Abbreviations[t].1 + s[ProvinceMatch(s, i, Abbreviations[t].0).value..]
  {
    var (k, v) := Abbreviations[t];
    var e := ProvinceMatch(s, i, k).value;
    SubstituteOne(s, k, v, i);
    if e < |s| {
      TailStartsWithSep(s, e);
    }
    AbbreviationsShape();
    KeysCannotStraddle();
    forall u | t < u < |Abbreviations|
      ensures !KeyOccurs(Substitute(s, k, v), Abbreviations[u].0)
    {
      assert Abbreviations[t] in Abbreviations;
      NoKeyAcrossReplacement(s, i, e, v, Abbreviations[u].0);
    }
    AbbreviateWithOnly(s, Abbreviations, t);
  }

  // ---------------------------------------------------------------------------
  // Step 3: `[,\n ]+([A-Z]{2})(?:[,\n ]+Canada)?[,\n ]+([A-Z][0-9][A-Z])\s?([0-9][A-Z][0-9])\Z`
  // replaced by `' \1  \2 \3'` (utils.py:222).

  /** The canonical last line: a space, the symbol, two spaces, and the two
      halves of the postal code separated by one space. */
  predicate IsFormattedTail(t: string) {
    && |t| == 12
    && t[0] == ' ' && IsUpper(t[1]) && IsUpper(t[2]) && t[3] == ' ' && t[4] == ' '
    && IsUpper(t[5]) && IsDigit(t[6]) && IsUpper(t[7]) && t[8] == ' '
    && IsDigit(t[9]) && IsUpper(t[10]) && IsDigit(t[11])
  }

  /** `[A-Z]{2}` at `j`. */
  predicate SymbolAt(s: string, j: nat) {
    j + 2 <= |s| && IsUpper(s[j]) && IsUpper(s[j + 1])
  }

  /** `(?:[,\n ]+Canada)?[,\n ]+` and a postal code ending the string, at `x`:
      where the postal code starts. The optional country is tried first. */
  function PostalAfter(s: string, x: nat): (r: Option<nat>)
    requires x <= |s|
    ensures r.Some? ==> x < r.value && r.value + 6 <= |s| && PostalCodeAt(s, r.value)
  {
    if CanadaAt(s, x) && SepThenPostal(s, AfterCanada(s, x)) then
      Some(AfterCanada(s, x) + SepRun(s, AfterCanada(s, x)))
    else if SepThenPostal(s, x) then Some(x + SepRun(s, x))
    else None
  }

  /** The whole pattern matches at `i`. */
  predicate FinalAt(s: string, i: nat)
    requires i <= |s|
  {
    var j := i + SepRun(s, i);
    SepRun(s, i) > 0 && SymbolAt(s, j) && PostalAfter(s, j + 2).Some?
  }

  /** The replacement of a match at `i`: the symbol and the two halves of the
      postal code, in the canonical layout. */
  function Replacement(s: string, i: nat): (t: string)
    requires i <= |s| && FinalAt(s, i)
    ensures IsFormattedTail(t)
    ensures var j := i + SepRun(s, i); var y := PostalAfter(s, j + 2).value;
      && j + 2 <= y && y + 6 <= |s|
      && t[1..3] == s[j..j + 2]
      && t[5..8] == s[y..y + 3]
      && t[9..] == s[|s| - 3..]
  {
    var j := i + SepRun(s, i);
    var y := PostalAfter(s, j + 2).value;
    var sym, first, last := s[j..j + 2], s[y..y + 3], s[|s| - 3..];
    TailLayout(sym, first, last);
    " " + sym + "  " + first + " " + last
  }

  /** Where each piece of the canonical layout sits. */
  lemma TailLayout(sym: string, first: string, last: string)
    requires |sym| == 2 && |first| == 3 && |last| == 3
    ensures var t := " " + sym + "  " + first + " " + last;
      && |t| == 12 && t[1..3] == sym && t[5..8] == first && t[9..] == last
      && t[0] == ' ' && t[3] == ' ' && t[4] == ' ' && t[8] == ' '
      && t[1] == sym[0] && t[2] == sym[1] && t[5] == first[0] && t[6] == first[1] && t[7] == first[2]
      && t[9] == last[0] && t[10] == last[1] && t[11] == last[2]
  {
  }

  /** The leftmost position at or after `i` where the pattern matches. */
  function FirstFinal(s: string, i: nat): (r: Option<nat>)
    requires i <= |s|
    ensures r.Some? ==> i <= r.value <= |s| && FinalAt(s, r.value)
    decreases |s| - i
  {
    if FinalAt(s, i) then Some(i)
    else if i == |s| then None
    else FirstFinal(s, i + 1)
  }

  /** The position found is the leftmost match, and when none is found there
      is no match at all. */
  lemma {:induction false} FirstFinalLeftmost(s: string, i: nat)
    requires i <= |s|
    ensures FirstFinal(s, i).Some? ==> forall p :: i <= p < FirstFinal(s, i).value ==> !FinalAt(s, p)
    ensures FirstFinal(s, i).None? ==> forall p :: i <= p <= |s| ==> !FinalAt(s, p)
    decreases |s| - i
  {
    if !FinalAt(s, i) && i < |s| {
      FirstFinalLeftmost(s, i + 1);
    }
  }

  /** The last substitution of `clean_address`: since the pattern ends with
      `\Z`, at most one match is replaced, the leftmost one, together with
      everything after it. */
  function Final(s: string): (r: string)
    ensures FirstFinal(s, 0).None? ==> r == s
    ensures FirstFinal(s, 0).Some? ==>
      var i := FirstFinal(s, 0).value;
      r == s[..i] + Replacement(s, i) && IsFormattedTail(r[i..])
  {
    match FirstFinal(s, 0)
    case None => s
    case Some(i) => s[..i] + Replacement(s, i)
  }

  /** A run of separators ending at `i` extends the run that starts at `i`. */
  lemma {:induction false} SepRunThrough(s: string, p: nat, i: nat)
    requires p <= i <= |s|
    requires forall k :: p <= k < i ==> IsSep(s[k])
    ensures p + SepRun(s, p) == i + SepRun(s, i)
    decreases i - p
  {
    if p < i {
      SepRunThrough(s, p + 1, i);
    }
  }

  /** A match at `i` is also a match at any `p` before it from which only
      separators lead to `i`. */
  lemma FinalThroughSeps(s: string, p: nat, i: nat)
    requires p < i <= |s| && FinalAt(s, i)
    requires forall k :: p <= k < i ==> IsSep(s[k])
    ensures FinalAt(s, p)
  {
    SepRunThrough(s, p, i);
    assert SepRun(s, p) > 0;
  }

  /** In a string ending with a formatted tail, the postal code starts five
      characters into the tail. */
  lemma PostalCodeInFormatted(t: string, i: nat, y: nat)
    requires i + 12 == |t| && IsFormattedTail(t[i..])
    requires y <= |t| && PostalCodeAt(t, y)
    ensures y == i + 5
  {
  }

  /** A formatted tail is matched by the pattern and replaced by itself. */
  lemma FinalAtFormatted(t: string, i: nat)
    requires i + 12 == |t| && IsFormattedTail(t[i..])
    ensures FinalAt(t, i) && Replacement(t, i) == t[i..]
  {
    var u := t[i..];
    assert t[i] == u[0] && t[i + 1] == u[1] && t[i + 2] == u[2] && t[i + 3] == u[3];
    assert t[i + 4] == u[4] && t[i + 5] == u[5] && t[i + 6] == u[6];
    assert SepRun(t, i + 1) == 0;
    assert SepRun(t, i) == 1;
    assert SepRun(t, i + 5) == 0;
    assert SepRun(t, i + 4) == 1;
    assert SepRun(t, i + 3) == 2;
    assert !CanadaAt(t, i + 3);
    assert PostalCodeAt(t, i + 5) by {
      assert t[i + 7] == u[7] && t[i + 8] == u[8] && t[i + 9] == u[9];
      assert t[i + 10] == u[10] && t[i + 11] == u[11];
    }
    assert PostalAfter(t, i + 3) == Some(i + 5);
    var f := Replacement(t, i);
    assert f == u by {
      assert f[1..3] == t[i + 1..i + 3] == u[1..3];
      assert f[5..8] == t[i + 5..i + 8] == u[5..8];
      assert f[9..] == t[|t| - 3..] == u[9..];
    }
  }

  /** In a string ending with a formatted tail at `i`, no postal code can be
      reached from a position at or before `i`: the symbol of the tail would
      have to be part of a separator run or of the word Canada. */
  lemma NoPostalFromBefore(t: string, i: nat, x: nat)
    requires i + 12 == |t| && IsFormattedTail(t[i..])
    requires x <= i
    ensures PostalAfter(t, x).None?
  {
    assert t[i + 1] == t[i..][1] && t[i + 2] == t[i..][2];
    if CanadaAt(t, x) && SepThenPostal(t, AfterCanada(t, x)) {
      var c := x + SepRun(t, x);
      var a := AfterCanada(t, x);
      PostalCodeInFormatted(t, i, a + SepRun(t, a));
      SepRunAll(t, x);
      SepRunAll(t, a);
    } else if SepThenPostal(t, x) {
      PostalCodeInFormatted(t, i, x + SepRun(t, x));
      SepRunAll(t, x);
    }
  }

  /** A run of separators in `t` before `i` is one in `s` too, where the two agree. */
  lemma {:induction false} SepsCarryOver(s: string, t: string, i: nat, p: nat)
    requires p <= i <= |s| && i <= |t| && t[..i] == s[..i]
    requires i <= p + SepRun(t, p)
    ensures forall k :: p <= k < i ==> IsSep(s[k])
  {
    forall k | p <= k < i ensures IsSep(s[k]) {
      SepRunSeps(t, p, k);
      assert s[k] == s[..i][k] == t[..i][k] == t[k];
    }
  }

  /** Once the leftmost match at `i` has been replaced by a formatted tail,
      nothing before `i` matches. */
  lemma {:induction false} NoFinalBefore(s: string, t: string, i: nat, p: nat)
    requires i <= |s| && FirstFinal(s, 0) == Some(i)
    requires |t| == i + 12 && t[..i] == s[..i] && IsFormattedTail(t[i..])
    requires p < i
    ensures !FinalAt(t, p)
  {
    assert t[i] == t[i..][0] && t[i + 1] == t[i..][1] && t[i + 2] == t[i..][2];
    if SepRun(t, p) > 0 {
      var j := p + SepRun(t, p);
      if i + 1 < j {
        SepRunSeps(t, p, i + 1);
      } else if j == i + 1 {
        SepsCarryOver(s, t, i, p);
        FinalThroughSeps(s, p, i);
        FirstFinalLeftmost(s, 0);
        assert false;
      } else if j + 2 <= i {
        NoPostalFromBefore(t, i, j + 2);
      } else {
        assert !IsUpper(t[i]);
      }
    }
  }

  /** The leftmost match is the first position with a match. */
  lemma {:induction false} FirstFinalIs(s: string, lo: nat, i: nat)
    requires lo <= i <= |s| && FinalAt(s, i)
    requires forall p :: lo <= p < i ==> !FinalAt(s, p)
    ensures FirstFinal(s, lo) == Some(i)
    decreases i - lo
  {
    if lo < i {
      assert !FinalAt(s, lo);
      FirstFinalIs(s, lo + 1, i);
      assert FirstFinal(s, lo) == FirstFinal(s, lo + 1);
    } else {
      assert FinalAt(s, lo);
    }
  }

  /** Reformatting the last line twice is reformatting it once. */
  lemma FinalIdempotent(s: string)
    ensures Final(Final(s)) == Final(s)
  {
    if FirstFinal(s, 0).Some? {
      var i := FirstFinal(s, 0).value;
      var t := Final(s);
      assert t[..i] == s[..i];
      FinalAtFormatted(t, i);
      forall p | 0 <= p < i ensures !FinalAt(t, p) {
        NoFinalBefore(s, t, i, p);
      }
      FirstFinalIs(t, 0, i);
      assert t[..i] + t[i..] == t;
    }
  }

  /** `clean_address` (utils.py:212-222). */
  function CleanAddress(s: string): string {
    Final(Abbreviate(FixPostal(CleanString(s))))
  }

  /** An address that names no province or territory goes through the loop
      untouched: it is sanitized, corrected and reformatted, and nothing else. */
  lemma CleanAddressWithoutProvince(s: string)
    requires forall e :: e in Abbreviations ==> !KeyOccurs(FixPostal(CleanString(s)), e.0)
    ensures CleanAddress(s) == Final(FixPostal(CleanString(s)))
  {
    AbbreviateWithoutKeys(FixPostal(CleanString(s)), Abbreviations);
  }
}
