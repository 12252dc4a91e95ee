/** `clean_string`: remap three problem characters, collapse every run of
    whitespace other than the newline into one space, strip both ends, and
    drop the spaces that stand next to a newline. */
module Sanitize {
  import opened Chars

  // ---------------------------------------------------------------------------
  // The four stages, each written as the scanner its regular expression performs.

  /** The translation `table`: zero-width space to a space, the right single
      quotation mark to an apostrophe, and the stray `\xc2` byte to U+00A0. */
  function Remap(c: char): char {
    if c == '\U{200b}' then ' '
    else if c == '\U{2019}' then '\''
    else if c == '\U{c2}' then '\U{a0}'
    else c
  }

  predicate IsRemapped(c: char) {
    c == '\U{200b}' || c == '\U{2019}' || c == '\U{c2}'
  }

  /** `s.translate(table)` */
  function Translate(s: string): string {
    seq(|s|, i requires 0 <= i < |s| => Remap(s[i]))
  }

  /** Length of the run of `[^\S\n]` at the start of `s`; the run is maximal. */
  function BlankRun(s: string): (n: nat)
    ensures n <= |s|
    ensures n == |s| || !IsBlank(s[n])
    ensures s != [] && IsBlank(s[0]) ==> n > 0
  {
    if s == [] || !IsBlank(s[0]) then 0 else 1 + BlankRun(s[1..])
  }

  /** Everything in the run is whitespace other than the newline. */
  lemma {:induction false} BlankRunBlanks(s: string)
    ensures forall i :: 0 <= i < BlankRun(s) ==> IsBlank(s[i])
    decreases |s|
  {
    if s != [] && IsBlank(s[0]) {
      BlankRunBlanks(s[1..]);
      forall i | 0 < i < BlankRun(s) ensures IsBlank(s[i]) {
        assert s[i] == s[1..][i - 1];
      }
    }
  }

  /** `whitespace_re.sub(' ', s)` */
  function Collapse(s: string): string
    decreases |s|
  {
    if s == [] then []
    else if IsBlank(s[0]) then " " + Collapse(s[BlankRun(s)..])
    else [s[0]] + Collapse(s[1..])
  }

  /** The leading half of `str.strip()`: what is removed is whitespace, what is left starts with none. */
  function StripLeft(s: string): (r: string)
    ensures |r| <= |s|
    ensures r == [] || !IsSpace(r[0])
  {
    if s != [] && IsSpace(s[0]) then StripLeft(s[1..]) else s
  }

  /** What `StripLeft` keeps is a suffix of its argument. */
  lemma {:induction false} StripLeftIsSuffix(s: string)
    ensures StripLeft(s) == s[|s| - |StripLeft(s)|..]
  {
    if s != [] && IsSpace(s[0]) {
      StripLeftIsSuffix(s[1..]);
    }
  }

  /** What `StripLeft` removes is whitespace. */
  lemma {:induction false} StripLeftRemovesSpaces(s: string)
    ensures forall i :: 0 <= i < |s| - |StripLeft(s)| ==> IsSpace(s[i])
  {
    if s != [] && IsSpace(s[0]) {
      StripLeftRemovesSpaces(s[1..]);
      assert forall i :: 1 <= i < |s| - |StripLeft(s)| ==> s[i] == s[1..][i - 1];
    }
  }

  /** The trailing half of `str.strip()`. */
  function StripRight(s: string): (r: string)
    ensures |r| <= |s| && r == s[..|r|]
    ensures r == [] || !IsSpace(r[|r| - 1])
  {
    if s != [] && IsSpace(s[|s| - 1]) then StripRight(s[..|s| - 1]) else s
  }

  /** What `StripRight` removes is whitespace. */
  lemma {:induction false} StripRightRemovesSpaces(s: string)
    ensures forall i :: |StripRight(s)| <= i < |s| ==> IsSpace(s[i])
  {
    if s != [] && IsSpace(s[|s| - 1]) {
      StripRightRemovesSpaces(s[..|s| - 1]);
    }
  }

  /** `str.strip()` */
  function Strip(s: string): string {
    StripRight(StripLeft(s))
  }

  /** Length of the run of spaces at the start of `s`; the run is maximal. */
  function SpaceRun(s: string): (n: nat)
    ensures n <= |s|
    ensures forall i :: 0 <= i < n ==> s[i] == ' '
    ensures n == |s| || s[n] != ' '
  {
    if s == [] || s[0] != ' ' then 0 else 1 + SpaceRun(s[1..])
  }

  /** The suffix `Tighten` goes on with after a newline match: what it skips is whitespace. */
  function AfterNewline(s: string): (u: string)
    requires SpaceRun(s) < |s| && s[SpaceRun(s)] == '\n'
    ensures |u| < |s| && u == s[|s| - |u|..]
    ensures forall i :: 0 <= i < |s| - |u| ==> IsSpace(s[i])
    ensures u == [] || u[0] != ' '
  {
    var rest := s[SpaceRun(s) + 1..];
    assert forall i :: 0 <= i < |rest| ==> rest[i] == s[SpaceRun(s) + 1 + i];
    rest[SpaceRun(rest)..]
  }

  /** `re.sub(r' *\n *', '\n', s)`: at each position try spaces, a newline and
      spaces; on a match emit one newline and go on after it, otherwise copy one character. */
  function Tighten(s: string): string
    decreases |s|
  {
    if s == [] then []
    else
      var j := SpaceRun(s);
      if j < |s| && s[j] == '\n' then "\n" + Tighten(AfterNewline(s))
      else [s[0]] + Tighten(s[1..])
  }

  /** `clean_string` (utils.py:183-184) */
  function CleanString(s: string): string {
    Tighten(Strip(Collapse(Translate(s))))
  }

  // ---------------------------------------------------------------------------
  // What a sanitized string looks like.

  predicate NoRemapped(s: string) {
    forall i :: 0 <= i < |s| ==> !IsRemapped(s[i])
  }

  /** The only whitespace left is the space and the newline. */
  predicate PlainSpaces(s: string) {
    forall i :: 0 <= i < |s| ==> IsSpace(s[i]) ==> s[i] == ' ' || s[i] == '\n'
  }

  predicate SingleSpaces(s: string) {
    forall i :: 0 <= i < |s| - 1 ==> !(s[i] == ' ' && s[i + 1] == ' ')
  }

  predicate Trimmed(s: string) {
    s != [] ==> !IsSpace(s[0]) && !IsSpace(s[|s| - 1])
  }

  /** No space directly before or after a newline. */
  predicate NewlinesTight(s: string) {
    forall i :: 0 <= i < |s| - 1 ==> !(s[i] == ' ' && s[i + 1] == '\n') && !(s[i] == '\n' && s[i + 1] == ' ')
  }

  predicate IsClean(s: string) {
    NoRemapped(s) && PlainSpaces(s) && SingleSpaces(s) && Trimmed(s) && NewlinesTight(s)
  }

  /** The characters that are not whitespace, in order. */
  function Visible(s: string): string
    decreases |s|
  {
    if s == [] then [] else (if IsSpace(s[0]) then [] else [s[0]]) + Visible(s[1..])
  }

  // ---------------------------------------------------------------------------
  // Helper facts.

  lemma {:induction false} VisibleConcat(a: string, b: string)
    ensures Visible(a + b) == Visible(a) + Visible(b)
    decreases |a|
  {
    if a != [] {
      var h := if IsSpace(a[0]) then [] else [a[0]];
      assert (a + b)[0] == a[0];
      assert (a + b)[1..] == a[1..] + b;
      VisibleConcat(a[1..], b);
      calc {
        Visible(a + b);
        h + Visible(a[1..] + b);
        h + (Visible(a[1..]) + Visible(b));
        (h + Visible(a[1..])) + Visible(b);
      }
    } else {
      assert a + b == b;
    }
  }

  lemma {:induction false} VisibleOfSpaces(a: string)
    requires forall i :: 0 <= i < |a| ==> IsSpace(a[i])
    ensures Visible(a) == []
    decreases |a|
  {
    if a != [] {
      VisibleOfSpaces(a[1..]);
    }
  }

  /** Every character of `r` is a space, a newline, or a character of `s`. */
  predicate DrawnFrom(r: string, s: string) {
    forall i :: 0 <= i < |r| ==> r[i] == ' ' || r[i] == '\n' || r[i] in s
  }

  lemma DrawnFromKeepsShape(r: string, s: string)
    requires DrawnFrom(r, s)
    ensures NoRemapped(s) ==> NoRemapped(r)
    ensures PlainSpaces(s) ==> PlainSpaces(r)
  {
  }

  lemma SliceKeepsShape(s: string, a: nat, b: nat)
    requires a <= b <= |s|
    ensures NoRemapped(s) ==> NoRemapped(s[a..b])
    ensures PlainSpaces(s) ==> PlainSpaces(s[a..b])
    ensures SingleSpaces(s) ==> SingleSpaces(s[a..b])
    ensures NewlinesTight(s) ==> NewlinesTight(s[a..b])
  {
    var t := s[a..b];
    assert forall i :: 0 <= i < |t| ==> t[i] == s[a + i];
  }

  lemma TranslateShape(s: string)
    ensures NoRemapped(Translate(s))
    ensures NoRemapped(s) ==> Translate(s) == s
  {
  }

  lemma CollapseHead(s: string)
    ensures (Collapse(s) == []) == (s == [])
    ensures s != [] ==> Collapse(s)[0] == (if IsBlank(s[0]) then ' ' else s[0])
  {
  }

  lemma {:induction false} CollapseDrawn(s: string)
    ensures DrawnFrom(Collapse(s), s)
    ensures PlainSpaces(Collapse(s))
    decreases |s|
  {
    if s != [] {
      CollapseStep(s);
      var n := if IsBlank(s[0]) then BlankRun(s) else 1;
      var c := if IsBlank(s[0]) then ' ' else s[0];
      var u := Collapse(s[n..]);
      CollapseDrawn(s[n..]);
      assert Collapse(s) == [c] + u;
      DrawnCons(c, u, s, n);
      PlainCons(c, u);
    }
  }

  lemma PlainCons(c: char, u: string)
    requires PlainSpaces(u) && (IsSpace(c) ==> c == ' ' || c == '\n')
    ensures PlainSpaces([c] + u)
  {
    var r := [c] + u;
    forall i | 0 < i < |r| ensures IsSpace(r[i]) ==> r[i] == ' ' || r[i] == '\n' {
      assert r[i] == u[i - 1];
    }
  }

  lemma {:induction false} CollapseSingle(s: string)
    ensures SingleSpaces(Collapse(s))
    decreases |s|
  {
    if s != [] {
      var t := if IsBlank(s[0]) then s[BlankRun(s)..] else s[1..];
      CollapseSingle(t);
      CollapseHead(t);
      var r := Collapse(s);
      assert r == (if IsBlank(s[0]) then " " else [s[0]]) + Collapse(t);
      assert forall i :: 0 < i < |r| ==> r[i] == Collapse(t)[i - 1];
    }
  }

  lemma {:induction false} CollapseVisible(s: string)
    ensures Visible(Collapse(s)) == Visible(s)
    decreases |s|
  {
    if s != [] {
      if IsBlank(s[0]) {
        var n := BlankRun(s);
        var t := s[n..];
        CollapseVisible(t);
        assert s == s[..n] + t;
        BlankRunBlanks(s);
        VisibleConcat(s[..n], t);
        VisibleOfSpaces(s[..n]);
        VisibleConcat(" ", Collapse(t));
      } else {
        CollapseVisible(s[1..]);
        VisibleConcat([s[0]], Collapse(s[1..]));
      }
    }
  }

  lemma StripShape(s: string)
    ensures Trimmed(Strip(s))
    ensures Trimmed(s) ==> Strip(s) == s
  {
  }

  lemma VisibleDropsTrailingSpaces(s: string, n: nat)
    requires n <= |s|
    requires forall i :: n <= i < |s| ==> IsSpace(s[i])
    ensures Visible(s) == Visible(s[..n])
  {
    var t := s[n..];
    assert forall i :: 0 <= i < |t| ==> IsSpace(t[i]) by {
      forall i | 0 <= i < |t| ensures IsSpace(t[i]) {
        assert t[i] == s[n + i];
      }
    }
    VisibleOfSpaces(t);
    assert s == s[..n] + t;
    VisibleConcat(s[..n], t);
  }

  lemma StripVisible(s: string)
    ensures Visible(Strip(s)) == Visible(s)
  {
    var l := StripLeft(s);
    StripLeftIsSuffix(s);
    StripLeftRemovesSpaces(s);
    StripRightRemovesSpaces(l);
    VisibleSkipsSpaces(s, |s| - |l|);
    VisibleDropsTrailingSpaces(l, |StripRight(l)|);
  }

  lemma TightenHead(s: string)
    requires s != []
    ensures Tighten(s) != []
    ensures Tighten(s)[0] == (if SpaceRun(s) < |s| && s[SpaceRun(s)] == '\n' then '\n' else s[0])
  {
  }

  lemma AfterNewlineKeepsLast(s: string)
    requires SpaceRun(s) < |s| && s[SpaceRun(s)] == '\n' && !IsSpace(s[|s| - 1])
    ensures AfterNewline(s) != [] && AfterNewline(s)[|AfterNewline(s)| - 1] == s[|s| - 1]
  {
  }

  lemma LastAfterNewline(s: string)
    requires s != [] && SpaceRun(s) < |s| && s[SpaceRun(s)] == '\n' && Tighten(AfterNewline(s)) != []
    ensures Tighten(s) != []
    ensures Tighten(s)[|Tighten(s)| - 1] == Tighten(AfterNewline(s))[|Tighten(AfterNewline(s))| - 1]
  {
    TightenStep(s);
  }

  lemma LastAfterCopy(s: string)
    requires |s| > 1 && !(SpaceRun(s) < |s| && s[SpaceRun(s)] == '\n') && Tighten(s[1..]) != []
    ensures Tighten(s) != []
    ensures Tighten(s)[|Tighten(s)| - 1] == Tighten(s[1..])[|Tighten(s[1..])| - 1]
  {
    TightenStep(s);
  }

  lemma {:induction false} TightenLast(s: string)
    requires s != [] && !IsSpace(s[|s| - 1])
    ensures Tighten(s) != [] && Tighten(s)[|Tighten(s)| - 1] == s[|s| - 1]
    decreases |s|
  {
    if SpaceRun(s) < |s| && s[SpaceRun(s)] == '\n' {
      AfterNewlineKeepsLast(s);
      TightenLast(AfterNewline(s));
      LastAfterNewline(s);
    } else if |s| > 1 {
      TightenLast(s[1..]);
      LastAfterCopy(s);
    } else {
      TightenStep(s);
    }
  }



  /** Putting a space, a newline or a character of `s` in front of a string
      drawn from a suffix of `s` gives a string drawn from `s`. */
  lemma DrawnCons(c: char, u: string, s: string, k: nat)
    requires k <= |s| && DrawnFrom(u, s[k..])
    requires c == ' ' || c == '\n' || c in s
    ensures DrawnFrom([c] + u, s)
  {
    var r := [c] + u;
    forall i | 0 < i < |r| ensures r[i] == ' ' || r[i] == '\n' || r[i] in s {
      assert r[i] == u[i - 1];
      if u[i - 1] in s[k..] {
        var m :| 0 <= m < |s| - k && s[k..][m] == u[i - 1];
        assert s[k + m] == u[i - 1];
      }
    }
  }

  lemma {:induction false} TightenDrawn(s: string)
    ensures DrawnFrom(Tighten(s), s)
    decreases |s|
  {
    if s != [] {
      TightenStep(s);
      if SpaceRun(s) < |s| && s[SpaceRun(s)] == '\n' {
        var t := AfterNewline(s);
        TightenDrawn(t);
        assert Tighten(s) == ['\n'] + Tighten(t);
        DrawnCons('\n', Tighten(t), s, |s| - |t|);
      } else {
        TightenDrawn(s[1..]);
        DrawnCons(s[0], Tighten(s[1..]), s, 1);
      }
    }
  }

  /** How the spacing predicates behave when one character is put in front. */
  lemma ConsSpacing(c: char, t: string)
    ensures SingleSpaces([c] + t) <==> SingleSpaces(t) && !(c == ' ' && t != [] && t[0] == ' ')
    ensures NewlinesTight([c] + t) <==>
              NewlinesTight(t) && !(t != [] && ((c == ' ' && t[0] == '\n') || (c == '\n' && t[0] == ' ')))
  {
    var r := [c] + t;
    assert forall i :: 0 < i < |r| ==> r[i] == t[i - 1];
    assert r[0] == c;
    if t != [] {
      assert r[1] == t[0];
    }
    if SingleSpaces(t) && !(c == ' ' && t != [] && t[0] == ' ') {
      forall i | 0 <= i < |r| - 1 ensures !(r[i] == ' ' && r[i + 1] == ' ') {
        if i > 0 { assert r[i] == t[i - 1] && r[i + 1] == t[i]; }
      }
    }
    if SingleSpaces(r) {
      forall i | 0 <= i < |t| - 1 ensures !(t[i] == ' ' && t[i + 1] == ' ') {
        assert r[i + 1] == t[i] && r[i + 2] == t[i + 1];
      }
    }
    if NewlinesTight(t) && !(t != [] && ((c == ' ' && t[0] == '\n') || (c == '\n' && t[0] == ' '))) {
      forall i | 0 <= i < |r| - 1
        ensures !(r[i] == ' ' && r[i + 1] == '\n') && !(r[i] == '\n' && r[i + 1] == ' ')
      {
        if i > 0 { assert r[i] == t[i - 1] && r[i + 1] == t[i]; }
      }
    }
    if NewlinesTight(r) {
      forall i | 0 <= i < |t| - 1
        ensures !(t[i] == ' ' && t[i + 1] == '\n') && !(t[i] == '\n' && t[i + 1] == ' ')
      {
        assert r[i + 1] == t[i] && r[i + 2] == t[i + 1];
      }
    }
  }

  lemma TightenStep(s: string)
    requires s != []
    ensures SpaceRun(s) < |s| && s[SpaceRun(s)] == '\n' ==> Tighten(s) == "\n" + Tighten(AfterNewline(s))
    ensures !(SpaceRun(s) < |s| && s[SpaceRun(s)] == '\n') ==> Tighten(s) == [s[0]] + Tighten(s[1..])
  {
  }

  lemma SpacingAfterNewline(s: string)
    requires s != [] && SpaceRun(s) < |s| && s[SpaceRun(s)] == '\n'
    requires SingleSpaces(Tighten(AfterNewline(s))) && NewlinesTight(Tighten(AfterNewline(s)))
    ensures SingleSpaces(Tighten(s)) && NewlinesTight(Tighten(s))
  {
    var u := AfterNewline(s);
    TightenStep(s);
    if u != [] {
      TightenHead(u);
    }
    ConsSpacing('\n', Tighten(u));
  }

  lemma SpacingCopy(s: string)
    requires s != [] && !(SpaceRun(s) < |s| && s[SpaceRun(s)] == '\n')
    requires |s| > 1 ==> !(s[0] == ' ' && s[1] == ' ')
    requires SingleSpaces(Tighten(s[1..])) && NewlinesTight(Tighten(s[1..]))
    ensures SingleSpaces(Tighten(s)) && NewlinesTight(Tighten(s))
  {
    var t := s[1..];
    TightenStep(s);
    if t != [] {
      TightenHead(t);
      if s[0] == ' ' {
        assert SpaceRun(s) == 1 + SpaceRun(t);
      }
    }
    ConsSpacing(s[0], Tighten(t));
  }

  lemma SuffixSingle(s: string, k: nat)
    requires k <= |s| && SingleSpaces(s)
    ensures SingleSpaces(s[k..])
  {
    SliceKeepsShape(s, k, |s|);
  }

  lemma {:induction false} TightenSpacing(s: string)
    requires SingleSpaces(s)
    ensures SingleSpaces(Tighten(s)) && NewlinesTight(Tighten(s))
    decreases |s|
  {
    if s != [] {
      if SpaceRun(s) < |s| && s[SpaceRun(s)] == '\n' {
        var u := AfterNewline(s);
        SuffixSingle(s, |s| - |u|);
        TightenSpacing(u);
        SpacingAfterNewline(s);
      } else {
        SuffixSingle(s, 1);
        TightenSpacing(s[1..]);
        SpacingCopy(s);
      }
    }
  }

  lemma {:induction false} VisibleSkipsSpaces(s: string, n: nat)
    requires n <= |s|
    requires forall i :: 0 <= i < n ==> IsSpace(s[i])
    ensures Visible(s) == Visible(s[n..])
    decreases n
  {
    if n > 0 {
      assert s[1..][n - 1..] == s[n..];
      VisibleSkipsSpaces(s[1..], n - 1);
    }
  }

  lemma VisibleCons(c: char, t: string)
    ensures Visible([c] + t) == (if IsSpace(c) then [] else [c]) + Visible(t)
  {
    assert ([c] + t)[1..] == t;
  }

  lemma VisibleAfterNewline(s: string)
    requires s != [] && SpaceRun(s) < |s| && s[SpaceRun(s)] == '\n'
    requires Visible(Tighten(AfterNewline(s))) == Visible(AfterNewline(s))
    ensures Visible(Tighten(s)) == Visible(s)
  {
    var u := AfterNewline(s);
    var n := |s| - |u|;
    assert s[n..] == u;
    VisibleSkipsSpaces(s, n);
    TightenStep(s);
    assert Tighten(s) == ['\n'] + Tighten(u);
    VisibleCons('\n', Tighten(u));
  }

  lemma VisibleAfterCopy(s: string)
    requires s != [] && !(SpaceRun(s) < |s| && s[SpaceRun(s)] == '\n')
    requires Visible(Tighten(s[1..])) == Visible(s[1..])
    ensures Visible(Tighten(s)) == Visible(s)
  {
    TightenStep(s);
    VisibleCons(s[0], Tighten(s[1..]));
  }

  lemma {:induction false} TightenVisible(s: string)
    ensures Visible(Tighten(s)) == Visible(s)
    decreases |s|
  {
    if s != [] {
      if SpaceRun(s) < |s| && s[SpaceRun(s)] == '\n' {
        TightenVisible(AfterNewline(s));
        VisibleAfterNewline(s);
      } else {
        TightenVisible(s[1..]);
        VisibleAfterCopy(s);
      }
    }
  }

  lemma TightenKeepsEnds(s: string)
    requires Trimmed(s)
    ensures Trimmed(Tighten(s))
  {
    if s != [] {
      TightenHead(s);
      TightenLast(s);
    }
  }

  lemma {:induction false} CollapseFixes(s: string)
    requires PlainSpaces(s) && SingleSpaces(s)
    ensures Collapse(s) == s
    decreases |s|
  {
    if s != [] {
      SliceKeepsShape(s, 1, |s|);
      if IsBlank(s[0]) {
        assert BlankRun(s) == 1 by {
          if |s| > 1 {
            assert !IsBlank(s[1]);
          }
        }
      }
      CollapseFixes(s[1..]);
    }
  }

  lemma {:induction false} TightenFixes(s: string)
    requires SingleSpaces(s) && NewlinesTight(s)
    ensures Tighten(s) == s
    decreases |s|
  {
    if s != [] {
      SliceKeepsShape(s, 1, |s|);
      if s[0] == ' ' && |s| > 1 {
        assert SpaceRun(s) == 1;
      }
      if s[0] == '\n' && |s| > 1 {
        assert SpaceRun(s[1..]) == 0;
      }
      TightenFixes(s[1..]);
    }
  }

  // ---------------------------------------------------------------------------
  // A run of whitespace becomes one space.

  /** Appending to `a` leaves its leading blank run as it is, unless the run
      fills `a` and the appended text starts with another blank. */
  lemma {:induction false} BlankRunExtends(a: string, b: string)
    requires BlankRun(a) < |a| || b == [] || !IsBlank(b[0])
    ensures BlankRun(a + b) == BlankRun(a)
    decreases |a|
  {
    if a != [] && IsBlank(a[0]) {
      assert (a + b)[1..] == a[1..] + b;
      BlankRunExtends(a[1..], b);
    } else if a == [] {
      assert a + b == b;
    }
  }

  /** The substitution works piecewise when the two pieces do not meet inside
      a run of whitespace. */
  lemma {:induction false} CollapseConcat(a: string, b: string)
    requires a == [] || b == [] || !IsBlank(a[|a| - 1]) || !IsBlank(b[0])
    ensures Collapse(a + b) == Collapse(a) + Collapse(b)
    decreases |a|
  {
    if a == [] {
      assert a + b == b;
    } else if b == [] {
      assert a + b == a;
    } else {
      var n := if IsBlank(a[0]) then BlankRun(a) else 1;
      var head := if IsBlank(a[0]) then " " else [a[0]];
      if IsBlank(a[0]) {
        BlankRunBlanks(a);
        BlankRunExtends(a, b);
      }
      CollapseStep(a);
      CollapseStep(a + b);
      DropConcat(a, b, n);
      CollapseConcat(a[n..], b);
      Associative(head, Collapse(a[n..]), Collapse(b));
    }
  }

  lemma DropConcat(a: string, b: string, n: nat)
    requires n <= |a|
    ensures (a + b)[n..] == a[n..] + b
  {
  }

  lemma Associative(x: string, y: string, z: string)
    ensures x + (y + z) == (x + y) + z
  {
  }

  /** One step of the substitution: the first character, or the first run
      of whitespace, and then the rest. */
  lemma {:induction false} CollapseStep(s: string)
    requires s != []
    ensures IsBlank(s[0]) ==> BlankRun(s) > 0 && Collapse(s) == " " + Collapse(s[BlankRun(s)..])
    ensures !IsBlank(s[0]) ==> Collapse(s) == [s[0]] + Collapse(s[1..])
  {
  }

  /** A whole run of whitespace other than the newline becomes one space. */
  lemma {:induction false} CollapseBlankRun(w: string)
    requires w != [] && forall i :: 0 <= i < |w| ==> IsBlank(w[i])
    ensures Collapse(w) == " "
  {
    assert BlankRun(w) == |w|;
    assert w[|w|..] == [];
  }

  /** Two pieces joined by a run of whitespace other than the newline come out
      joined by exactly one space, each piece collapsed on its own. */
  lemma {:induction false} CollapseJoins(a: string, w: string, b: string)
    requires a == [] || !IsBlank(a[|a| - 1])
    requires w != [] && forall i :: 0 <= i < |w| ==> IsBlank(w[i])
    requires b == [] || !IsBlank(b[0])
    ensures Collapse(a + w + b) == Collapse(a) + " " + Collapse(b)
  {
    CollapseConcat(a, w);
    CollapseConcat(a + w, b);
    CollapseBlankRun(w);
  }

  /** Joining two trimmed pieces with one space keeps the spacing rules. */
  lemma {:induction false} JoinSpacing(a: string, b: string)
    requires a != [] && b != [] && Trimmed(a) && Trimmed(b)
    requires SingleSpaces(a) && NewlinesTight(a) && SingleSpaces(b) && NewlinesTight(b)
    ensures SingleSpaces(a + " " + b) && NewlinesTight(a + " " + b) && Trimmed(a + " " + b)
  {
    var j := a + " " + b;
    forall i | 0 <= i < |j| - 1
      ensures !(j[i] == ' ' && j[i + 1] == ' ')
      ensures !(j[i] == ' ' && j[i + 1] == '\n') && !(j[i] == '\n' && j[i + 1] == ' ')
    {
      if i < |a| - 1 {
        assert j[i] == a[i] && j[i + 1] == a[i + 1];
      } else if i == |a| - 1 {
        assert j[i] == a[|a| - 1] && j[i + 1] == ' ';
      } else if i == |a| {
        assert j[i] == ' ' && j[i + 1] == b[0];
      } else {
        assert j[i] == b[i - |a| - 1] && j[i + 1] == b[i - |a|];
      }
    }
    assert j[0] == a[0] && j[|j| - 1] == b[|b| - 1];
  }

  /** Two clean pieces separated by any run of whitespace other than the
      newline come out separated by exactly one space. */
  lemma {:induction false} CleanStringJoinsWords(a: string, w: string, b: string)
    requires IsClean(a) && IsClean(b) && a != [] && b != []
    requires w != [] && forall i :: 0 <= i < |w| ==> IsBlank(w[i])
    ensures CleanString(a + w + b) == a + " " + b
  {
    var s := a + w + b;
    assert NoRemapped(s) by {
      forall i | 0 <= i < |s| ensures !IsRemapped(s[i]) {
        if i < |a| {
          assert s[i] == a[i];
        } else if i < |a| + |w| {
          assert s[i] == w[i - |a|];
        } else {
          assert s[i] == b[i - |a| - |w|];
        }
      }
    }
    TranslateShape(s);
    CollapseJoins(a, w, b);
    CollapseFixes(a);
    CollapseFixes(b);
    JoinSpacing(a, b);
    StripShape(a + " " + b);
    TightenFixes(a + " " + b);
  }

  // ---------------------------------------------------------------------------
  // A newline with spaces around it becomes one newline.

  /** A run of spaces followed by something else is measured whole. */
  lemma {:induction false} SpaceRunOver(w: string, r: string)
    requires forall i :: 0 <= i < |w| ==> w[i] == ' '
    requires r == [] || r[0] != ' '
    ensures SpaceRun(w + r) == |w|
    decreases |w|
  {
    if w == [] {
      assert w + r == r;
    } else {
      assert (w + r)[1..] == w[1..] + r;
      SpaceRunOver(w[1..], r);
    }
  }

  /** The newline substitution copies a prefix in which it has nothing to
      replace and which does not end in whitespace. */
  lemma {:induction false} TightenPrefix(a: string, t: string)
    requires SingleSpaces(a) && NewlinesTight(a)
    requires a == [] || !IsSpace(a[|a| - 1])
    ensures Tighten(a + t) == a + Tighten(t)
    decreases |a|
  {
    if a == [] {
      assert a + t == t;
    } else {
      var r := a[1..];
      TightenPrefixTail(a);
      calc {
        Tighten(a + t);
        { TightenCopiesHead(a, t); }
        [a[0]] + Tighten((a + t)[1..]);
        { DropConcat(a, t, 1); }
        [a[0]] + Tighten(r + t);
        { TightenPrefix(r, t); }
        [a[0]] + (r + Tighten(t));
        { Associative([a[0]], r, Tighten(t)); assert [a[0]] + r == a; }
        a + Tighten(t);
      }
    }
  }

  /** What follows the first character of a prefix as in `TightenPrefix`
      is such a prefix too. */
  lemma TightenPrefixTail(a: string)
    requires a != [] && SingleSpaces(a) && NewlinesTight(a) && !IsSpace(a[|a| - 1])
    ensures SingleSpaces(a[1..]) && NewlinesTight(a[1..])
    ensures a[1..] == [] || !IsSpace(a[1..][|a[1..]| - 1])
  {
    SliceKeepsShape(a, 1, |a|);
    assert a[1..|a|] == a[1..];
  }

  /** The first character of a prefix as in `TightenPrefix` is copied. */
  lemma TightenCopiesHead(a: string, t: string)
    requires a != [] && SingleSpaces(a) && NewlinesTight(a) && !IsSpace(a[|a| - 1])
    ensures Tighten(a + t) == [a[0]] + Tighten((a + t)[1..])
  {
    var s := a + t;
    assert s[0] == a[0];
    if a[0] == ' ' {
      assert |a| > 1 && s[1] == a[1];
      assert !(a[0] == ' ' && a[1] == ' ') && !(a[0] == ' ' && a[1] == '\n');
      assert SpaceRun(s[1..]) == 0;
      assert SpaceRun(s) == 1;
      TightenStep(s);
    } else if a[0] == '\n' {
      assert |a| > 1 && s[1] == a[1];
      assert !(a[0] == '\n' && a[1] == ' ');
      assert SpaceRun(s) == 0;
      assert SpaceRun(s[1..]) == 0;
      assert AfterNewline(s) == s[1..];
      TightenStep(s);
    } else {
      assert SpaceRun(s) == 0;
      TightenStep(s);
    }
  }

  /** The replacement text of `re.sub(r' *\n *', '\n', …)`: the spaces
      before and after a newline go, and the newline stays. */
  lemma {:induction false} TightenJoinsLines(a: string, w1: string, w2: string, b: string)
    requires SingleSpaces(a) && NewlinesTight(a) && (a == [] || !IsSpace(a[|a| - 1]))
    requires forall i :: 0 <= i < |w1| ==> w1[i] == ' '
    requires forall i :: 0 <= i < |w2| ==> w2[i] == ' '
    requires b == [] || b[0] != ' '
    ensures Tighten(a + w1 + "\n" + w2 + b) == a + "\n" + Tighten(b)
  {
    var t := w1 + ("\n" + (w2 + b));
    calc {
      Tighten(a + w1 + "\n" + w2 + b);
      { Regroup(a, w1, "\n", w2, b); }
      Tighten(a + t);
      { TightenPrefix(a, t); }
      a + Tighten(t);
      { TightenNewline(w1, w2, b); }
      a + ("\n" + Tighten(b));
      { Associative(a, "\n", Tighten(b)); }
      a + "\n" + Tighten(b);
    }
  }

  lemma Regroup(a: string, b: string, c: string, d: string, e: string)
    ensures a + b + c + d + e == a + (b + (c + (d + e)))
  {
    Associative(a, b, c);
    Associative(a + b + c, d, e);
    Associative(a, b + c, d + e);
    Associative(b, c, d + e);
    Associative(c, d, e);
  }

  /** Spaces, a newline and spaces at the start become one newline. */
  lemma TightenNewline(w1: string, w2: string, b: string)
    requires forall i :: 0 <= i < |w1| ==> w1[i] == ' '
    requires forall i :: 0 <= i < |w2| ==> w2[i] == ' '
    requires b == [] || b[0] != ' '
    ensures Tighten(w1 + ("\n" + (w2 + b))) == "\n" + Tighten(b)
  {
    var t := w1 + ("\n" + (w2 + b));
    NewlineMatch(w1, w2, b);
    TightenStep(t);
  }

  /** Where the newline match over `w1`, the newline and `w2` resumes. */
  lemma NewlineMatch(w1: string, w2: string, b: string)
    requires forall i :: 0 <= i < |w1| ==> w1[i] == ' '
    requires forall i :: 0 <= i < |w2| ==> w2[i] == ' '
    requires b == [] || b[0] != ' '
    ensures var t := w1 + ("\n" + (w2 + b));
      SpaceRun(t) == |w1| && t[|w1|] == '\n' && AfterNewline(t) == b
  {
    var t := w1 + ("\n" + (w2 + b));
    SpaceRunOver(w1, "\n" + (w2 + b));
    assert t[|w1|] == '\n';
    assert t[|w1| + 1..] == w2 + b;
    SpaceRunOver(w2, b);
    assert (w2 + b)[|w2|..] == b;
  }

  /** The whitespace substitution on a possibly empty run: nothing, or one space. */
  lemma {:induction false} CollapseBlanks(w: string)
    requires forall i :: 0 <= i < |w| ==> IsBlank(w[i])
    ensures Collapse(w) == (if w == [] then [] else " ")
  {
    if w != [] {
      CollapseBlankRun(w);
    }
  }

  /** The whitespace substitution around a newline: each run of whitespace
      other than the newline on either side becomes one space. */
  lemma {:induction false} CollapseAroundNewline(a: string, w1: string, w2: string, b: string)
    requires PlainSpaces(a) && SingleSpaces(a) && PlainSpaces(b) && SingleSpaces(b)
    requires a == [] || !IsBlank(a[|a| - 1])
    requires b == [] || !IsBlank(b[0])
    requires forall i :: 0 <= i < |w1| ==> IsBlank(w1[i])
    requires forall i :: 0 <= i < |w2| ==> IsBlank(w2[i])
    ensures Collapse(a + w1 + "\n" + w2 + b)
      == a + (if w1 == [] then "" else " ") + "\n" + (if w2 == [] then "" else " ") + b
  {
    var x := a + w1 + "\n";
    CollapseConcat(x, w2);
    CollapseConcat(x + w2, b);
    CollapseBlanks(w2);
    CollapseFixes(b);
    CollapseBeforeNewline(a, w1);
  }

  lemma {:induction false} CollapseBeforeNewline(a: string, w1: string)
    requires PlainSpaces(a) && SingleSpaces(a)
    requires a == [] || !IsBlank(a[|a| - 1])
    requires forall i :: 0 <= i < |w1| ==> IsBlank(w1[i])
    ensures Collapse(a + w1 + "\n") == a + (if w1 == [] then "" else " ") + "\n"
  {
    calc {
      Collapse(a + w1 + "\n");
      { CollapseConcat(a + w1, "\n"); }
      Collapse(a + w1) + Collapse("\n");
      { CollapseConcat(a, w1); }
      Collapse(a) + Collapse(w1) + Collapse("\n");
      { CollapseStep("\n"); assert "\n"[1..] == []; CollapseBlanks(w1); CollapseFixes(a); }
      a + (if w1 == [] then "" else " ") + "\n";
    }
  }

  /** Two clean pieces separated by a newline with any whitespace other than
      the newline on either side come out separated by exactly one newline. */
  lemma {:induction false} CleanStringJoinsLines(a: string, w1: string, w2: string, b: string)
    requires IsClean(a) && IsClean(b) && a != [] && b != []
    requires forall i :: 0 <= i < |w1| ==> IsBlank(w1[i])
    requires forall i :: 0 <= i < |w2| ==> IsBlank(w2[i])
    ensures CleanString(a + w1 + "\n" + w2 + b) == a + "\n" + b
  {
    var s := a + w1 + "\n" + w2 + b;
    var c1 := if w1 == [] then "" else " ";
    var c2 := if w2 == [] then "" else " ";
    calc {
      CleanString(s);
      Tighten(Strip(Collapse(Translate(s))));
      { NoRemappedAroundNewline(a, w1, w2, b); TranslateShape(s); }
      Tighten(Strip(Collapse(s)));
      { CollapseAroundNewline(a, w1, w2, b); }
      Tighten(Strip(a + c1 + "\n" + c2 + b));
      { StripTightenAroundNewline(a, c1, c2, b); }
      a + "\n" + b;
    }
  }

  lemma NoRemappedAroundNewline(a: string, w1: string, w2: string, b: string)
    requires NoRemapped(a) && NoRemapped(b)
    requires forall i :: 0 <= i < |w1| ==> IsBlank(w1[i])
    requires forall i :: 0 <= i < |w2| ==> IsBlank(w2[i])
    ensures NoRemapped(a + w1 + "\n" + w2 + b)
  {
    var s := a + w1 + "\n" + w2 + b;
    forall i | 0 <= i < |s| ensures !IsRemapped(s[i]) {
      if i < |a| {
        assert s[i] == a[i];
      } else if i < |a| + |w1| {
        assert s[i] == w1[i - |a|];
      } else if i == |a| + |w1| {
        assert s[i] == '\n';
      } else if i < |a| + |w1| + 1 + |w2| {
        assert s[i] == w2[i - |a| - |w1| - 1];
      } else {
        assert s[i] == b[i - |a| - |w1| - 1 - |w2|];
      }
    }
  }

  /** The last two stages on two clean pieces around a newline with at most
      one space on either side. */
  lemma StripTightenAroundNewline(a: string, c1: string, c2: string, b: string)
    requires IsClean(a) && IsClean(b) && a != [] && b != []
    requires c1 == "" || c1 == " "
    requires c2 == "" || c2 == " "
    ensures Tighten(Strip(a + c1 + "\n" + c2 + b)) == a + "\n" + b
  {
    var m := a + c1 + "\n" + c2 + b;
    assert m[0] == a[0] && m[|m| - 1] == b[|b| - 1];
    StripShape(m);
    TightenJoinsLines(a, c1, c2, b);
    TightenFixes(b);
  }

  // ---------------------------------------------------------------------------
  // The properties of clean_string.

  /** The result has no remapped character, no whitespace but spaces and newlines,
      no doubled space, nothing to strip at either end, and no space beside a newline. */
  lemma CollapsedShape(t: string)
    requires NoRemapped(t)
    ensures NoRemapped(Collapse(t)) && PlainSpaces(Collapse(t)) && SingleSpaces(Collapse(t))
  {
    CollapseDrawn(t);
    DrawnFromKeepsShape(Collapse(t), t);
    CollapseSingle(t);
  }

  lemma StrippedShape(c: string)
    requires NoRemapped(c) && PlainSpaces(c) && SingleSpaces(c)
    ensures NoRemapped(Strip(c)) && PlainSpaces(Strip(c)) && SingleSpaces(Strip(c)) && Trimmed(Strip(c))
  {
    var l := StripLeft(c);
    StripLeftIsSuffix(c);
    SliceKeepsShape(c, |c| - |l|, |c|);
    assert c[|c| - |l|..|c|] == l;
    var r := StripRight(l);
    SliceKeepsShape(l, 0, |r|);
    assert l[0..|r|] == r;
    StripShape(c);
  }

  lemma TightenedShape(m: string)
    requires NoRemapped(m) && PlainSpaces(m) && SingleSpaces(m) && Trimmed(m)
    ensures IsClean(Tighten(m))
  {
    TightenDrawn(m);
    DrawnFromKeepsShape(Tighten(m), m);
    TightenSpacing(m);
    TightenKeepsEnds(m);
  }

  /** The result has no remapped character, no whitespace but spaces and newlines,
      no doubled space, nothing to strip at either end, and no space beside a newline. */
  lemma CleanStringIsClean(s: string)
    ensures IsClean(CleanString(s))
  {
    TranslateShape(s);
    CollapsedShape(Translate(s));
    StrippedShape(Collapse(Translate(s)));
    TightenedShape(Strip(Collapse(Translate(s))));
  }

  /** Only whitespace and the three remapped characters are touched: the other
      characters come out in the order they went in. */
  lemma CleanStringKeepsVisible(s: string)
    ensures Visible(CleanString(s)) == Visible(Translate(s))
  {
    var c := Collapse(Translate(s));
    CollapseVisible(Translate(s));
    StripVisible(c);
    TightenVisible(Strip(c));
  }

  /** A clean string is a fixed point, and only clean strings are. */
  lemma CleanStringFixesExactlyClean(s: string)
    ensures CleanString(s) == s <==> IsClean(s)
  {
    if IsClean(s) {
      TranslateShape(s);
      CollapseFixes(s);
      StripShape(s);
      TightenFixes(s);
    }
    CleanStringIsClean(s);
  }

  /** clean_string is idempotent. */
  lemma CleanStringIdempotent(s: string)
    ensures CleanString(CleanString(s)) == CleanString(s)
  {
    CleanStringIsClean(s);
    CleanStringFixesExactlyClean(CleanString(s));
  }
}
