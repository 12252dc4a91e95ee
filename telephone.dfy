/** `clean_telephone_number`: split off extensions, keep the digits of the main
    segment and print a North American number as `1-AAA-PPP-LLLL`. */
module Telephone {
  import opened Chars
  import opened Options

  // ---------------------------------------------------------------------------
  // The split pattern `(?:/|x|ext[.:]?|poste)[\s-]?(?=\b|\d)`, case-insensitive.

  /** `c` matches the lower-case pattern letter `p` under `re.IGNORECASE`:
      the letter itself, its ASCII capital, and for `s` also the long s. */
  predicate Folds(c: char, p: char) {
    || c == p
    || ('a' <= p <= 'z' && c as int == p as int - 32)
    || (p == 's' && c == '\U{17f}')
  }

  /** The word `w` (lower-case ASCII) occurs case-insensitively at `i` of `s`. */
  predicate WordAt(s: string, i: nat, w: string) {
    i + |w| <= |s| && forall k :: 0 <= k < |w| ==> Folds(s[i + k], w[k])
  }

  /** A character an extension marker can start with. */
  predicate IsLead(c: char) {
    c == '/' || Folds(c, 'x') || Folds(c, 'e') || Folds(c, 'p')
  }

  /** The lookahead `(?=\b|\d)` at position `p`. */
  predicate Lookahead(s: string, p: nat)
    requires p <= |s|
  {
    IsWordBoundary(s, p) || (p < |s| && IsDigit(s[p]))
  }

  /** `[\s-]` */
  predicate IsSeparator(c: char) {
    IsSpace(c) || c == '-'
  }

  /** `[\s-]?(?=\b|\d)` after a keyword ending at `e`: the greedy `?` takes a
      separator when the lookahead then holds, and otherwise takes nothing. */
  function SeparatorEnd(s: string, e: nat): (r: Option<nat>)
    requires e <= |s|
    ensures r.Some? ==> e <= r.value <= e + 1 && r.value <= |s| && Lookahead(s, r.value)
    ensures r.None? ==> !Lookahead(s, e)
  {
    if e < |s| && IsSeparator(s[e]) && Lookahead(s, e + 1) then Some(e + 1)
    else if Lookahead(s, e) then Some(e)
    else None
  }

  /** Where the keyword alternatives `/`, `x`, `ext[.:]?` and `poste` end when
      tried at `i`, in the order the backtracking matcher tries them. The
      keywords start with different letters, so at most one of them applies. */
  function KeywordEnds(s: string, i: nat): (ends: seq<nat>)
    requires i <= |s|
    ensures forall k :: 0 <= k < |ends| ==> i < ends[k] <= |s|
    ensures ends != [] ==> i < |s| && IsLead(s[i])
  {
    if i == |s| then []
    else if s[i] == '/' || Folds(s[i], 'x') then [i + 1]
    else if WordAt(s, i, "ext") then
      assert Folds(s[i + 0], "ext"[0]);
      if i + 3 < |s| && (s[i + 3] == '.' || s[i + 3] == ':') then [i + 4, i + 3] else [i + 3]
    else if WordAt(s, i, "poste") then
      assert Folds(s[i + 0], "poste"[0]);
      [i + 5]
    else []
  }

  /** The first keyword end, in order, after which the separator and lookahead match. */
  function FirstMatch(s: string, lo: nat, ends: seq<nat>): (r: Option<nat>)
    requires forall k :: 0 <= k < |ends| ==> lo < ends[k] <= |s|
    ensures r.Some? ==> lo < r.value <= |s|
    ensures r.None? <==> forall k :: 0 <= k < |ends| ==> SeparatorEnd(s, ends[k]).None?
  {
    if ends == [] then None
    else if SeparatorEnd(s, ends[0]).Some? then SeparatorEnd(s, ends[0])
    else FirstMatch(s, lo, ends[1..])
  }

  /** The end of the extension marker that matches at `i`, if one does. */
  function MarkerEnd(s: string, i: nat): (r: Option<nat>)
    requires i <= |s|
    ensures r.Some? ==> i < |s| && IsLead(s[i]) && i < r.value <= |s|
  {
    FirstMatch(s, i, KeywordEnds(s, i))
  }

  /** Where the leftmost marker at or after `i` starts, or `|s|` when there is none. */
  function NextMarker(s: string, i: nat): (k: nat)
    requires i <= |s|
    ensures i <= k <= |s|
    ensures k < |s| ==> MarkerEnd(s, k).Some?
    decreases |s| - i
  {
    if i == |s| || MarkerEnd(s, i).Some? then i else NextMarker(s, i + 1)
  }

  /** No marker starts between `i` and the one `NextMarker` finds. */
  lemma {:induction false} NextMarkerLeftmost(s: string, i: nat)
    requires i <= |s|
    ensures forall j :: i <= j < NextMarker(s, i) ==> MarkerEnd(s, j).None?
    decreases |s| - i
  {
    var k := NextMarker(s, i);
    if i < k {
      assert MarkerEnd(s, i).None? && k == NextMarker(s, i + 1);
      NextMarkerLeftmost(s, i + 1);
      forall j | i <= j < k ensures MarkerEnd(s, j).None? {
        if j > i {
          assert i + 1 <= j < NextMarker(s, i + 1);
        }
      }
    }
  }

  /** `re.split` from position `i`: the text between consecutive markers. */
  function SplitFrom(s: string, i: nat): (parts: seq<string>)
    requires i <= |s|
    ensures parts != [] && parts[0] == s[i..NextMarker(s, i)]
    ensures |parts| == 1 <==> NextMarker(s, i) == |s|
    decreases |s| - i
  {
    var k := NextMarker(s, i);
    if k == |s| then [s[i..]]
    else [s[i..k]] + SplitFrom(s, MarkerEnd(s, k).value)
  }

  /** `re.split(...)` of `clean_telephone_number` (utils.py:196) */
  function Split(s: string): (parts: seq<string>)
    ensures parts != [] && parts[0] == s[..NextMarker(s, 0)]
    ensures |parts| == 1 <==> NextMarker(s, 0) == |s|
  {
    SplitFrom(s, 0)
  }

  /** A stretch without lead characters holds no marker, so the search passes over it. */
  lemma {:induction false} SkipNoLead(s: string, i: nat, k: nat)
    requires i <= k <= |s|
    requires forall j :: i <= j < k ==> !IsLead(s[j])
    ensures NextMarker(s, i) == NextMarker(s, k)
    decreases k - i
  {
    if i < k {
      assert MarkerEnd(s, i).None?;
      SkipNoLead(s, i + 1, k);
    }
  }

  // ---------------------------------------------------------------------------
  // Digits.

  predicate AllDigits(s: string) {
    forall k :: 0 <= k < |s| ==> IsDigit(s[k])
  }

  /** `re.sub(r'\D', '', s)`: the digits of `s`, in order. */
  function DigitsOf(s: string): (d: string)
    ensures |d| <= |s|
    ensures AllDigits(d)
    ensures AllDigits(s) ==> d == s
  {
    if s == [] then []
    else (if IsDigit(s[0]) then [s[0]] else []) + DigitsOf(s[1..])
  }

  lemma {:induction false} DigitsOfConcat(a: string, b: string)
    ensures DigitsOf(a + b) == DigitsOf(a) + DigitsOf(b)
    decreases |a|
  {
    if a == [] {
      assert a + b == b;
    } else {
      assert (a + b)[1..] == a[1..] + b;
      DigitsOfConcat(a[1..], b);
    }
  }

  /** A string without digits contributes none. */
  lemma {:induction false} DigitsOfNone(s: string)
    requires forall k :: 0 <= k < |s| ==> !IsDigit(s[k])
    ensures DigitsOf(s) == []
    decreases |s|
  {
    if s != [] {
      DigitsOfNone(s[1..]);
    }
  }

  /** `\A(\d)(\d{3})(\d{3})(\d{4})\Z` replaced by `\1-\2-\3-\4`. */
  function Hyphenate(d: string): (r: string)
    requires |d| == 11
  {
    d[..1] + "-" + d[1..4] + "-" + d[4..7] + "-" + d[7..]
  }

  /** The canonical form `1-AAA-PPP-LLLL`. */
  predicate IsCanonical(p: string) {
    && |p| == 14 && p[0] == '1' && p[1] == '-' && p[5] == '-' && p[9] == '-'
    && forall k :: 0 <= k < 14 && k != 1 && k != 5 && k != 9 ==> IsDigit(p[k])
  }

  lemma DigitsAcrossHyphen(a: string, b: string)
    ensures DigitsOf(a + "-" + b) == DigitsOf(a) + DigitsOf(b)
  {
    DigitsOfNone("-");
    DigitsOfConcat(a, "-");
    DigitsOfConcat(a + "-", b);
  }

  /** Hyphenating loses no digit: removing the hyphens gives the digits back. */
  lemma HyphenateDigits(d: string)
    requires |d| == 11 && AllDigits(d)
    ensures DigitsOf(Hyphenate(d)) == d
  {
    var a, b, c, e := d[..1], d[1..4], d[4..7], d[7..];
    assert AllDigits(a) && AllDigits(b) && AllDigits(c) && AllDigits(e);
    var x := a + "-" + b;
    var y := x + "-" + c;
    DigitsAcrossHyphen(a, b);
    DigitsAcrossHyphen(x, c);
    DigitsAcrossHyphen(y, e);
    SlicesJoin(d);
  }

  lemma SlicesJoin(d: string)
    requires |d| == 11
    ensures d[..1] + d[1..4] + d[4..7] + d[7..] == d
  {
  }

  lemma HyphenateCanonical(d: string)
    requires |d| == 11 && AllDigits(d) && d[0] == '1'
    ensures IsCanonical(Hyphenate(d))
  {
    var p := Hyphenate(d);
    assert p[0] == d[0];
    forall k | 0 <= k < 14 && k != 1 && k != 5 && k != 9 ensures IsDigit(p[k]) {
      if k == 0 {
      } else if k < 5 {
        assert p[k] == d[k - 1];
      } else if k < 9 {
        assert p[k] == d[k - 2];
      } else {
        assert p[k] == d[k - 3];
      }
    }
  }

  lemma HyphenatePieces(a: string, b: string, c: string, e: string)
    requires |a| == 1 && |b| == 3 && |c| == 3 && |e| == 4
    ensures Hyphenate(a + b + c + e) == a + "-" + b + "-" + c + "-" + e
  {
    var d := a + b + c + e;
    assert d[..1] == a && d[1..4] == b && d[4..7] == c && d[7..] == e;
  }

  lemma CanonicalPieces(p: string)
    requires |p| == 14
    ensures p == p[..1] + "-" + p[2..5] + "-" + p[6..9] + "-" + p[10..]
            <== p[1] == '-' && p[5] == '-' && p[9] == '-'
  {
  }

  /** Every canonical number is `Hyphenate` of its digits. */
  lemma CanonicalIsHyphenated(p: string)
    requires IsCanonical(p)
    ensures |DigitsOf(p)| == 11 && DigitsOf(p)[0] == '1' && Hyphenate(DigitsOf(p)) == p
  {
    var a, b, c, e := p[..1], p[2..5], p[6..9], p[10..];
    CanonicalPieces(p);
    HyphenatePieces(a, b, c, e);
    var d := a + b + c + e;
    assert AllDigits(d);
    HyphenateDigits(d);
  }

  // ---------------------------------------------------------------------------
  // clean_telephone_number

  /** The numbers `clean_telephone_number` reformats: the main segment holds
      ten digits, or eleven starting with 1, and at most one marker was found. */
  predicate Recognized(s: string) {
    var d := DigitsOf(Split(s)[0]);
    (|d| == 10 || (|d| == 11 && d[0] == '1')) && |Split(s)| <= 2
  }

  /** `clean_telephone_number` (utils.py:191-209). A recognized number becomes
      the canonical `1-AAA-PPP-LLLL` carrying the last ten digits of its main
      segment, followed by ` x` and the second segment when there is one;
      anything else comes back exactly as it was given. */
  function CleanTelephoneNumber(s: string): (r: string)
    ensures !Recognized(s) ==> r == s
    ensures Recognized(s) ==>
              var d := DigitsOf(Split(s)[0]);
              && |r| >= 14 && IsCanonical(r[..14])
              && DigitsOf(r[..14]) == "1" + d[|d| - 10..]
              && r[14..] == (if |Split(s)| == 2 then " x" + Split(s)[1] else "")
  {
    var splits := Split(s);
    var digits := DigitsOf(splits[0]);
    var digits := if |digits| == 10 then "1" + digits else digits;
    if |digits| == 11 && digits[0] == '1' && |splits| <= 2 then
      var number := Hyphenate(digits);
      var rest := if |splits| == 2 then " x" + splits[1] else "";
      FormattedParts(digits, number, rest);
      number + rest
    else s
  }

  lemma FormattedParts(digits: string, number: string, rest: string)
    requires |digits| == 11 && AllDigits(digits) && digits[0] == '1' && number == Hyphenate(digits)
    ensures (number + rest)[..14] == number && (number + rest)[14..] == rest
    ensures IsCanonical(number) && DigitsOf(number) == digits
    ensures digits == "1" + digits[1..]
  {
    HyphenateDigits(digits);
    HyphenateCanonical(digits);
  }

  // ---------------------------------------------------------------------------
  // Fixed points and idempotence.

  lemma NoLeadInCanonical(p: string, rest: string)
    requires IsCanonical(p)
    ensures forall j :: 0 <= j < 14 ==> !IsLead((p + rest)[j])
  {
  }

  /** The digits of a canonical number followed by text without digits. */
  lemma DigitsOfCanonicalThen(p: string, t: string)
    requires IsCanonical(p)
    requires forall k :: 0 <= k < |t| ==> !IsDigit(t[k])
    ensures DigitsOf(p + t) == DigitsOf(p) && |DigitsOf(p)| == 11 && DigitsOf(p)[0] == '1'
  {
    CanonicalIsHyphenated(p);
    DigitsOfConcat(p, t);
    DigitsOfNone(t);
  }

  /** A canonical number without extension is left as it is. */
  lemma CanonicalIsFixed(p: string)
    requires IsCanonical(p)
    ensures CleanTelephoneNumber(p) == p
  {
    NoLeadInCanonical(p, "");
    assert p + "" == p;
    SkipNoLead(p, 0, 14);
    assert Split(p) == [p];
    DigitsOfCanonicalThen(p, "");
    CanonicalIsHyphenated(p);
  }

  /** At an `x` the marker is the `x` and what the separator step takes after it. */
  lemma MarkerAtX(s: string, i: nat)
    requires i < |s| && s[i] == 'x'
    ensures MarkerEnd(s, i) == SeparatorEnd(s, i + 1)
  {
    assert KeywordEnds(s, i) == [i + 1];
  }

  /** An `x` at the end or before a digit is a marker on its own. */
  lemma MarkerAtXThenDigit(s: string, i: nat)
    requires i < |s| && s[i] == 'x'
    requires i + 1 == |s| || IsDigit(s[i + 1])
    ensures MarkerEnd(s, i) == Some(i + 1)
  {
    MarkerAtX(s, i);
  }

  /** The pieces of a canonical number followed by ` x` and more text: no
      lead character comes before the `x`. */
  lemma CanonicalThenX(p: string, e: string)
    requires IsCanonical(p)
    ensures var s := p + " x" + e;
      && |s| == 16 + |e| && s[..15] == p + " " && s[15] == 'x' && s[16..] == e
      && forall j :: 0 <= j < 15 ==> !IsLead(s[j])
  {
    var s := p + " x" + e;
    NoLeadInCanonical(p, " x" + e);
    Assoc(p, " x", e);
    assert s[14] == ' ' && s[15] == 'x' && s[16..] == e;
  }

  /** A numeric extension after ` x` is split off. */
  lemma DigitExtensionSplit(p: string, e: string)
    requires IsCanonical(p) && AllDigits(e)
    ensures Split(p + " x" + e) == [p + " ", e]
  {
    var s := p + " x" + e;
    CanonicalThenX(p, e);
    assert forall j :: 16 <= j < |s| ==> s[j] == e[j - 16];
    MarkerAtXThenDigit(s, 15);
    SplitAtOneMarker(s, 15, 16);
  }

  /** What the reformatting produces, given the segments and the digits of the first. */
  lemma FormatsAs(s: string, d: string, rest: string)
    requires |Split(s)| <= 2 && DigitsOf(Split(s)[0]) == d && |d| == 11 && d[0] == '1'
    requires rest == if |Split(s)| == 2 then " x" + Split(s)[1] else ""
    ensures CleanTelephoneNumber(s) == Hyphenate(d) + rest
  {
  }

  /** The same, for a first segment with ten digits. */
  lemma FormatsTen(s: string, d: string, rest: string)
    requires |Split(s)| <= 2 && DigitsOf(Split(s)[0]) == d && |d| == 10
    requires rest == if |Split(s)| == 2 then " x" + Split(s)[1] else ""
    ensures CleanTelephoneNumber(s) == Hyphenate("1" + d) + rest
  {
  }

  /** A canonical number with a numeric extension is left as it is. */
  lemma CanonicalWithExtensionIsFixed(p: string, e: string)
    requires IsCanonical(p) && AllDigits(e)
    ensures CleanTelephoneNumber(p + " x" + e) == p + " x" + e
  {
    var s := p + " x" + e;
    DigitExtensionSplit(p, e);
    DigitsOfCanonicalThen(p, " ");
    CanonicalIsHyphenated(p);
    FormatsAs(s, DigitsOf(p), " x" + e);
    Assoc(p, " x", e);
  }

  /** Reformatting a number whose extension is numeric, or absent, a second
      time changes nothing. */
  lemma CleanTelephoneNumberIdempotent(s: string)
    requires |Split(s)| < 2 || AllDigits(Split(s)[1])
    ensures CleanTelephoneNumber(CleanTelephoneNumber(s)) == CleanTelephoneNumber(s)
  {
    var r := CleanTelephoneNumber(s);
    if Recognized(s) {
      var p := r[..14];
      if |Split(s)| == 2 {
        assert r == p + " x" + Split(s)[1];
        CanonicalWithExtensionIsFixed(p, Split(s)[1]);
      } else {
        assert r == p;
        CanonicalIsFixed(p);
      }
    }
  }

  lemma LetterExtensionUnsplit(p: string, e: string)
    requires IsCanonical(p) && e != []
    requires forall k :: 0 <= k < |e| ==> IsAsciiLetter(e[k]) && !IsLead(e[k])
    ensures Split(p + " x" + e) == [p + " x" + e]
  {
    var s := p + " x" + e;
    CanonicalThenX(p, e);
    SkipNoLead(s, 0, 15);
    MarkerAtX(s, 15);
    assert MarkerEnd(s, 15) == None;
    assert NextMarker(s, 15) == NextMarker(s, 16);
    assert forall j :: 16 <= j < |s| ==> s[j] == e[j - 16];
    SkipNoLead(s, 16, |s|);
  }

  /** An extension that starts right after `x` with a letter is not split off,
      so a second pass drops it. */
  lemma LetterExtensionIsDropped(p: string, e: string)
    requires IsCanonical(p) && e != []
    requires forall k :: 0 <= k < |e| ==> IsAsciiLetter(e[k]) && !IsLead(e[k])
    ensures CleanTelephoneNumber(p + " x" + e) == p
  {
    var s := p + " x" + e;
    LetterExtensionUnsplit(p, e);
    Assoc(p, " x", e);
    assert forall k :: 0 <= k < |" x" + e| ==> !IsDigit((" x" + e)[k]);
    DigitsOfCanonicalThen(p, " x" + e);
    CanonicalIsHyphenated(p);
    assert CleanTelephoneNumber(s) == Hyphenate(DigitsOf(p));
  }

  // ---------------------------------------------------------------------------
  // Worked examples.

  predicate NoDigits(s: string) {
    forall k :: 0 <= k < |s| ==> !IsDigit(s[k])
  }

  /** Digits of a digit-free text followed by a run of digits. */
  lemma DigitsAfter(p: string, b: string)
    requires NoDigits(p) && AllDigits(b)
    ensures DigitsOf(p + b) == b
  {
    DigitsOfConcat(p, b);
    DigitsOfNone(p);
  }

  lemma Regroup<T>(p0: seq<T>, b: seq<T>, p1: seq<T>, c: seq<T>, p2: seq<T>, e: seq<T>, p3: seq<T>)
    ensures p0 + b + p1 + c + p2 + e + p3 == ((p0 + b) + (p1 + c)) + ((p2 + e) + p3)
  {
  }

  /** The digits of three digit groups with digit-free text around them. */
  lemma DigitGroups(p0: string, b: string, p1: string, c: string, p2: string, e: string, p3: string)
    requires NoDigits(p0) && NoDigits(p1) && NoDigits(p2) && NoDigits(p3)
    requires AllDigits(b) && AllDigits(c) && AllDigits(e)
    ensures DigitsOf(p0 + b + p1 + c + p2 + e + p3) == b + c + e
  {
    var x1, x2, x3 := p0 + b, p1 + c, p2 + e;
    DigitsAfter(p0, b);
    DigitsAfter(p1, c);
    DigitsAfter(p2, e);
    DigitsOfConcat(x3, p3);
    DigitsOfNone(p3);
    DigitsOfConcat(x1, x2);
    DigitsOfConcat(x1 + x2, x3 + p3);
    Regroup(p0, b, p1, c, p2, e, p3);
  }

  /** What a ten-digit main segment `b + c + e` becomes. */
  lemma TenDigitsFormat(s: string, b: string, c: string, e: string, rest: string)
    requires |b| == 3 && |c| == 3 && |e| == 4
    requires 1 <= |Split(s)| <= 2 && DigitsOf(Split(s)[0]) == b + c + e
    requires rest == if |Split(s)| == 2 then " x" + Split(s)[1] else ""
    ensures CleanTelephoneNumber(s) == "1" + "-" + b + "-" + c + "-" + e + rest
  {
    FormatsTen(s, b + c + e, rest);
    Assoc("1", b + c, e);
    Assoc("1", b, c);
    HyphenatePieces("1", b, c, e);
  }

  /** Text without lead characters is one segment. */
  lemma NoLeadSplit(s: string)
    requires forall j :: 0 <= j < |s| ==> !IsLead(s[j])
    ensures Split(s) == [s]
  {
    SkipNoLead(s, 0, |s|);
  }

  /** `AAA PPP LLLL` becomes `1-AAA-PPP-LLLL`. */
  lemma SpacedNumber(b: string, c: string, e: string)
    requires |b| == 3 && |c| == 3 && |e| == 4 && AllDigits(b) && AllDigits(c) && AllDigits(e)
    ensures CleanTelephoneNumber(b + " " + c + " " + e) == "1" + "-" + b + "-" + c + "-" + e
  {
    var s := b + " " + c + " " + e;
    assert forall j :: 0 <= j < |s| ==> IsDigit(s[j]) || s[j] == ' ';
    NoLeadSplit(s);
    assert s == "" + b + " " + c + " " + e + "";
    DigitGroups("", b, " ", c, " ", e, "");
    TenDigitsFormat(s, b, c, e, "");
  }

  /** `(AAA) PPP-LLLL` becomes `1-AAA-PPP-LLLL`. */
  lemma BracketedNumber(b: string, c: string, e: string)
    requires |b| == 3 && |c| == 3 && |e| == 4 && AllDigits(b) && AllDigits(c) && AllDigits(e)
    ensures CleanTelephoneNumber("(" + b + ") " + c + "-" + e) == "1" + "-" + b + "-" + c + "-" + e
  {
    var s := "(" + b + ") " + c + "-" + e;
    assert forall j :: 0 <= j < |s| ==> IsDigit(s[j]) || s[j] in "() -";
    NoLeadSplit(s);
    assert s == "(" + b + ") " + c + "-" + e + "";
    DigitGroups("(", b, ") ", c, "-", e, "");
    TenDigitsFormat(s, b, c, e, "");
  }

  /** A string with exactly one marker, at `k`, splits into the text before
      and the text after it. */
  lemma SplitAtOneMarker(s: string, k: nat, e: nat)
    requires k <= |s| && MarkerEnd(s, k) == Some(e)
    requires forall j :: 0 <= j < k ==> !IsLead(s[j])
    requires forall j :: e <= j < |s| ==> !IsLead(s[j])
    ensures Split(s) == [s[..k], s[e..]]
  {
    SkipNoLead(s, 0, k);
    assert NextMarker(s, k) == k;
    SkipNoLead(s, e, |s|);
    assert NextMarker(s, |s|) == |s|;
    assert SplitFrom(s, e) == [s[e..]];
    assert SplitFrom(s, 0) == [s[..k]] + SplitFrom(s, e);
  }

  lemma DottedExtensionSplit(m: string, x: string)
    requires |m| == 13 && forall j :: 0 <= j < 13 ==> IsDigit(m[j]) || m[j] in "- "
    requires x != [] && AllDigits(x)
    ensures Split(m + "ext. " + x) == [m, x]
  {
    var s := m + "ext. " + x;
    assert forall j :: 0 <= j < 13 ==> s[j] == m[j];
    assert s[13..18] == "ext. " && s[18..] == x && s[..13] == m;
    assert WordAt(s, 13, "ext");
    assert KeywordEnds(s, 13) == [17, 16];
    assert SeparatorEnd(s, 17) == Some(18);
    assert forall j :: 18 <= j < |s| ==> IsDigit(s[j]);
    SplitAtOneMarker(s, 13, 18);
  }

  lemma WordExtensionSplit(m: string, w: string)
    requires |m| == 11 && forall j :: 0 <= j < 11 ==> IsDigit(m[j]) || m[j] == ' '
    requires w != [] && forall k :: 0 <= k < |w| ==> IsAsciiLetter(w[k]) && !IsLead(w[k])
    ensures Split(m + "ext " + w) == [m, w]
  {
    var s := m + "ext " + w;
    assert forall j :: 0 <= j < 11 ==> s[j] == m[j];
    assert s[11..15] == "ext " && s[15..] == w && s[..11] == m;
    assert WordAt(s, 11, "ext");
    assert KeywordEnds(s, 11) == [14];
    assert SeparatorEnd(s, 14) == Some(15);
    assert forall j :: 15 <= j < |s| ==> s[j] == w[j - 15];
    SplitAtOneMarker(s, 11, 15);
  }

  lemma DottedPieces(b: string, c: string, e: string, x: string)
    requires |b| == 3 && |c| == 3 && |e| == 4 && AllDigits(b) && AllDigits(c) && AllDigits(e)
    ensures var m := b + "-" + c + "-" + e + " ";
            && b + "-" + c + "-" + e + " ext. " + x == m + "ext. " + x
            && (forall j :: 0 <= j < 13 ==> IsDigit(m[j]) || m[j] in "- ")
            && m == "" + b + "-" + c + "-" + e + " "
  {
  }

  /** `AAA-PPP-LLLL ext. NNN` becomes `1-AAA-PPP-LLLL xNNN`. */
  lemma DottedExtensionNumber(b: string, c: string, e: string, x: string)
    requires |b| == 3 && |c| == 3 && |e| == 4 && AllDigits(b) && AllDigits(c) && AllDigits(e)
    requires x != [] && AllDigits(x)
    ensures CleanTelephoneNumber(b + "-" + c + "-" + e + " ext. " + x)
            == "1" + "-" + b + "-" + c + "-" + e + " x" + x
  {
    var m := b + "-" + c + "-" + e + " ";
    var s := b + "-" + c + "-" + e + " ext. " + x;
    DottedPieces(b, c, e, x);
    DottedExtensionSplit(m, x);
    DigitGroups("", b, "-", c, "-", e, " ");
    TenDigitsFormat(s, b, c, e, " x" + x);
  }

  /** A number whose digits do not number ten or eleven comes back as given. */
  lemma WrongLengthPassesThrough(s: string)
    requires forall j :: 0 <= j < |s| ==> !IsLead(s[j])
    requires |DigitsOf(s)| != 10 && |DigitsOf(s)| != 11
    ensures CleanTelephoneNumber(s) == s
  {
    NoLeadSplit(s);
  }

  lemma WordExtensionFormat(b: string, c: string, e: string, w: string)
    requires |b| == 3 && |c| == 3 && |e| == 4 && AllDigits(b) && AllDigits(c) && AllDigits(e)
    requires w != [] && forall k :: 0 <= k < |w| ==> IsAsciiLetter(w[k]) && !IsLead(w[k])
    ensures CleanTelephoneNumber(b + c + e + " ext " + w) == "1" + "-" + b + "-" + c + "-" + e + " x" + w
  {
    var m := b + c + e + " ";
    var s := b + c + e + " ext " + w;
    WordPieces(b, c, e, w);
    WordExtensionSplit(m, w);
    DigitGroups("", b, "", c, "", e, " ");
    TenDigitsFormat(s, b, c, e, " x" + w);
  }

  /** `NNNNNNNNNN ext word`: the first pass keeps `word` as the extension, the
      second pass no longer sees a marker and drops it. So
      `clean_telephone_number` is not idempotent. */
  lemma CleanTelephoneNumberNotIdempotent(b: string, c: string, e: string, w: string)
    requires |b| == 3 && |c| == 3 && |e| == 4 && AllDigits(b) && AllDigits(c) && AllDigits(e)
    requires w != [] && forall k :: 0 <= k < |w| ==> IsAsciiLetter(w[k]) && !IsLead(w[k])
    ensures CleanTelephoneNumber(b + c + e + " ext " + w) == "1" + "-" + b + "-" + c + "-" + e + " x" + w
    ensures CleanTelephoneNumber(CleanTelephoneNumber(b + c + e + " ext " + w))
            == "1" + "-" + b + "-" + c + "-" + e
  {
    WordExtensionFormat(b, c, e, w);
    HyphenatedCanonical(b, c, e);
    LetterExtensionIsDropped("1" + "-" + b + "-" + c + "-" + e, w);
  }

  lemma WordPieces(b: string, c: string, e: string, w: string)
    requires |b| == 3 && |c| == 3 && |e| == 4 && AllDigits(b) && AllDigits(c) && AllDigits(e)
    ensures var m := b + c + e + " ";
            && b + c + e + " ext " + w == m + "ext " + w
            && (forall j :: 0 <= j < 11 ==> IsDigit(m[j]) || m[j] == ' ')
            && m == "" + b + "" + c + "" + e + " "
  {
  }

  lemma HyphenatedCanonical(b: string, c: string, e: string)
    requires |b| == 3 && |c| == 3 && |e| == 4 && AllDigits(b) && AllDigits(c) && AllDigits(e)
    ensures IsCanonical("1" + "-" + b + "-" + c + "-" + e)
  {
    var d := "1" + b + c + e;
    assert Hyphenate(d) == "1" + "-" + b + "-" + c + "-" + e;
    HyphenateCanonical(d);
  }
}
