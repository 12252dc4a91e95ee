/** `clean_name`: sanitize, then remove one leading honorific and one trailing ", Ph.D". */
module Names {
  import opened Chars
  import opened Sanitize

  /** The alternation of `honorific_prefix_re`, in the order the pattern tries it. */
  const Honorifics: seq<string> := ["Councillor", "Dr", "Hon", "M", "Mayor", "Mme", "Mr", "Mrs", "Ms", "Miss"]

  /** What `honorific_suffix_re` removes. */
  const PhD: string := ", Ph.D"

  predicate IsLetters(w: string) {
    w != [] && forall i :: 0 <= i < |w| ==> IsAsciiLetter(w[i])
  }

  /** One honorific of `ws`, an optional dot and the mandatory space. */
  predicate IsTitleIn(t: string, ws: seq<string>) {
    exists w :: w in ws && (t == w + " " || t == w + ". ")
  }

  predicate IsTitle(t: string) {
    IsTitleIn(t, Honorifics)
  }

  /** `w\.? ` at the start of `s`: its length, the dot tried first as the greedy `\.?` does; 0 when absent. */
  function TitleMatch(s: string, w: string): (n: nat)
    ensures n <= |s|
  {
    if w <= s && |s| >= |w| + 2 && s[|w|] == '.' && s[|w| + 1] == ' ' then |w| + 2
    else if w <= s && |s| >= |w| + 1 && s[|w|] == ' ' then |w| + 1
    else 0
  }

  /** `\A(?:w1|w2|...)\.? ` over the alternatives `ws`, tried left to right. */
  function PrefixMatch(s: string, ws: seq<string>): (n: nat)
    ensures n <= |s|
  {
    if ws == [] then 0
    else if TitleMatch(s, ws[0]) > 0 then TitleMatch(s, ws[0])
    else PrefixMatch(s, ws[1..])
  }

  lemma PrefixesAgree(s: string, a: string, b: string, k: nat)
    requires a <= s && b <= s && k < |a| && k < |b|
    ensures a[k] == b[k]
  {
    assert a[k] == s[k] == b[k];
  }

  /** Two titles that both begin `s` are the same title, since a title's word is
      all letters and is followed by a dot or a space. */
  lemma TitlesAgree(s: string, w1: string, t1: string, w2: string, t2: string)
    requires IsLetters(w1) && IsLetters(w2)
    requires t1 == w1 + " " || t1 == w1 + ". "
    requires t2 == w2 + " " || t2 == w2 + ". "
    requires t1 <= s && t2 <= s
    ensures t1 == t2
  {
    var k: nat := if |w1| <= |w2| then |w1| else |w2|;
    PrefixesAgree(s, t1, t2, k);
    assert |w1| == |w2|;
    assert w1 == s[..|w1|] == w2;
    assert t1[|w1|] == s[|w1|] == t2[|w1|];
  }

  /** What the alternation matches is a title of `ws`. */
  lemma {:induction false} PrefixMatchIsTitle(s: string, ws: seq<string>)
    ensures PrefixMatch(s, ws) == 0 || IsTitleIn(s[..PrefixMatch(s, ws)], ws)
    decreases |ws|
  {
    if ws != [] && TitleMatch(s, ws[0]) > 0 {
      var n := TitleMatch(s, ws[0]);
      assert ws[0] in ws && (s[..n] == ws[0] + " " || s[..n] == ws[0] + ". ");
    } else if ws != [] {
      PrefixMatchIsTitle(s, ws[1..]);
      var n := PrefixMatch(s, ws[1..]);
      if n > 0 {
        var w' :| w' in ws[1..] && (s[..n] == w' + " " || s[..n] == w' + ". ");
        assert w' in ws;
      }
    }
  }

  /** The alternation matches every title of `ws` that `s` begins with; since
      titles are words followed by a dot or a space, there is at most one. */
  lemma {:induction false} PrefixMatchFinds(s: string, ws: seq<string>)
    requires forall w :: w in ws ==> IsLetters(w)
    ensures forall t :: IsTitleIn(t, ws) && t <= s ==> PrefixMatch(s, ws) == |t|
    decreases |ws|
  {
    if ws != [] {
      var w := ws[0];
      if TitleMatch(s, w) > 0 {
        var t0 := s[..TitleMatch(s, w)];
        assert t0 == w + " " || t0 == w + ". ";
        forall t | IsTitleIn(t, ws) && t <= s ensures PrefixMatch(s, ws) == |t| {
          var w' :| w' in ws && (t == w' + " " || t == w' + ". ");
          TitlesAgree(s, w, t0, w', t);
        }
      } else {
        PrefixMatchFinds(s, ws[1..]);
        forall t | IsTitleIn(t, ws) && t <= s ensures PrefixMatch(s, ws) == |t| {
          var w' :| w' in ws && (t == w' + " " || t == w' + ". ");
          if w' == w {
            assert false;
          }
          assert w' in ws[1..];
        }
      }
    }
  }

  /** The honorific `clean_name` removes from the front of `c`: nothing, or the
      one title `c` begins with. */
  function TitleOf(c: string): (t: string)
    ensures t <= c
    ensures t == [] || IsTitle(t)
    ensures forall t' :: IsTitle(t') && t' <= c ==> t' == t
  {
    assert forall w :: w in Honorifics ==> IsLetters(w);
    PrefixMatchIsTitle(c, Honorifics);
    PrefixMatchFinds(c, Honorifics);
    c[..PrefixMatch(c, Honorifics)]
  }

  predicate EndsWithPhD(u: string) {
    |u| >= |PhD| && u[|u| - |PhD|..] == PhD
  }

  /** The two substitutions of `clean_name` on an already sanitized `c`: the
      result is `c` with at most one title in front and at most one ", Ph.D"
      behind removed, each exactly when it is there. */
  function StripHonorifics(c: string): (r: string)
    ensures var rest := c[|TitleOf(c)|..];
            && (EndsWithPhD(rest) ==> c == TitleOf(c) + r + PhD)
            && (!EndsWithPhD(rest) ==> c == TitleOf(c) + r)
  {
    var t := TitleOf(c);
    var rest := c[|t|..];
    assert c == t + rest;
    if EndsWithPhD(rest) then
      assert rest == rest[..|rest| - |PhD|] + PhD;
      rest[..|rest| - |PhD|]
    else rest
  }

  /** `clean_name` (utils.py:187-188) */
  function CleanName(s: string): string {
    StripHonorifics(CleanString(s))
  }

  // ---------------------------------------------------------------------------
  // What clean_name removes.

  /** A suffix of a clean string that starts at a visible character is clean. */
  lemma CleanSuffix(s: string, k: nat)
    requires IsClean(s) && k < |s| && !IsSpace(s[k])
    ensures IsClean(s[k..])
  {
    SliceKeepsShape(s, k, |s|);
  }

  lemma StripTitle(t: string, r: string)
    requires IsTitle(t) && !EndsWithPhD(r)
    ensures StripHonorifics(t + r) == r
  {
    var c := t + r;
    assert t <= c;
    assert c[|t|..] == r;
  }

  lemma StripTitleAndPhD(t: string, r: string)
    requires IsTitle(t)
    ensures StripHonorifics(t + r + PhD) == r
  {
    var c := t + r + PhD;
    Assoc(t, r, PhD);
    assert t <= c;
    var rest := c[|t|..];
    assert rest == r + PhD;
    assert EndsWithPhD(rest);
  }

  /** On a clean name with a title and no ", Ph.D", clean_name removes exactly the title. */
  lemma CleanNameDropsTitle(t: string, r: string)
    requires IsTitle(t) && IsClean(t + r) && !EndsWithPhD(r)
    ensures CleanName(t + r) == r
  {
    CleanStringFixesExactlyClean(t + r);
    StripTitle(t, r);
  }

  /** On a clean name with a title and a ", Ph.D", clean_name removes both. */
  lemma CleanNameDropsTitleAndPhD(t: string, r: string)
    requires IsTitle(t) && IsClean(t + r + PhD)
    ensures CleanName(t + r + PhD) == r
  {
    CleanStringFixesExactlyClean(t + r + PhD);
    StripTitleAndPhD(t, r);
  }

  lemma NoPhDAfterTitle(r: string)
    requires !EndsWithPhD(r)
    ensures !EndsWithPhD("Mr " + r)
  {
    var s := "Mr " + r;
    if |s| >= |PhD| {
      if |r| >= |PhD| {
        assert s[|s| - |PhD|..] == r[|r| - |PhD|..];
      } else {
        assert s[|s| - |PhD|] == "Mr "[|s| - |PhD|];
      }
    }
  }

  /** Only one title is removed, so clean_name is not idempotent: `Mr Mr X`
      becomes `Mr X`, which becomes `X`. */
  lemma CleanNameNotIdempotent(r: string)
    requires IsClean("Mr Mr " + r) && !EndsWithPhD(r)
    ensures CleanName("Mr Mr " + r) == "Mr " + r
    ensures CleanName(CleanName("Mr Mr " + r)) == r
  {
    assert "Mr" in Honorifics && "Mr " == "Mr" + " ";
    assert IsTitle("Mr ");
    assert "Mr Mr " + r == "Mr " + ("Mr " + r);
    NoPhDAfterTitle(r);
    CleanNameDropsTitle("Mr ", "Mr " + r);
    assert ("Mr Mr " + r)[3..] == "Mr " + r;
    CleanSuffix("Mr Mr " + r, 3);
    CleanNameDropsTitle("Mr ", r);
  }
}
