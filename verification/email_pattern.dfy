/** The contact form's email check, the anchored regular expression
    `^[^\s@]+@[^\s@]+\.[^\s@]+$`, written twice: as a backtracking matcher
    over the expression's atoms, and as a plain description of the strings it
    accepts. The two are proved to agree. */
module EmailPattern {
  import opened Text

  /** One atom of an anchored expression built only from literals and
      negated classes under `+`: `Lit(c)` matches the character `c`, and
      `PlusExcept(x)` matches `[^\s x]+`, one or more characters that are
      neither whitespace nor `x`. */
  datatype Atom = Lit(c: char) | PlusExcept(x: char)

  predicate InClass(x: char, c: char)
  {
    !IsSpace(c) && c != x
  }

  predicate AllInClass(x: char, s: string)
  {
    forall i :: 0 <= i < |s| ==> InClass(x, s[i])
  }

  /** `^[^\s@]+@[^\s@]+\.[^\s@]+$` */
  const Pattern: seq<Atom> := [PlusExcept('@'), Lit('@'), PlusExcept('@'), Lit('.'), PlusExcept('@')]

  /** Backtracking matcher: does all of `s` match the atoms `p` in order?
      A `+` atom takes one character and then either ends or goes on. */
  function Match(p: seq<Atom>, s: string): (ok: bool)
    ensures ok ==> |s| >= |p|
    ensures p == [] ==> (ok <==> s == [])
    decreases |p|, |s|
  {
    if p == [] then s == []
    else
      match p[0]
      case Lit(c) => |s| > 0 && s[0] == c && Match(p[1..], s[1..])
      case PlusExcept(x) =>
        && |s| > 0 && InClass(x, s[0])
        && (Match(p[1..], s[1..]) || Match(p, s[1..]))
  }

  /** The language of `p`: a `+` atom consumes some non-empty prefix of
      in-class characters and the rest of `p` matches what remains. */
  ghost predicate Lang(p: seq<Atom>, s: string)
    decreases |p|
  {
    if p == [] then s == []
    else
      match p[0]
      case Lit(c) => |s| > 0 && s[0] == c && Lang(p[1..], s[1..])
      case PlusExcept(x) =>
        exists k :: 1 <= k <= |s| && AllInClass(x, s[..k]) && Lang(p[1..], s[k..])
  }

  /** Peeling one character off a `+` atom: either the atom ends here or it
      goes on over the rest. */
  lemma PlusStep(p: seq<Atom>, x: char, s: string)
    requires p != [] && p[0] == PlusExcept(x)
    requires |s| > 0 && InClass(x, s[0])
    ensures Lang(p, s) <==> Lang(p[1..], s[1..]) || Lang(p, s[1..])
  {
    if Lang(p, s) {
      PlusPeel(p, x, s);
    }
    if Lang(p[1..], s[1..]) {
      PlusEnd(p, x, s);
    }
    if Lang(p, s[1..]) {
      PlusExtend(p, x, s);
    }
  }

  lemma PlusPeel(p: seq<Atom>, x: char, s: string)
    requires p != [] && p[0] == PlusExcept(x)
    requires Lang(p, s)
    ensures |s| > 0 && (Lang(p[1..], s[1..]) || Lang(p, s[1..]))
  {
    var k :| 1 <= k <= |s| && AllInClass(x, s[..k]) && Lang(p[1..], s[k..]);
    if k > 1 {
      var t := s[1..];
      assert t[..k - 1] == s[1..k];
      assert t[k - 1..] == s[k..];
    }
  }

  lemma PlusEnd(p: seq<Atom>, x: char, s: string)
    requires p != [] && p[0] == PlusExcept(x)
    requires |s| > 0 && InClass(x, s[0])
    requires Lang(p[1..], s[1..])
    ensures Lang(p, s)
  {
    assert AllInClass(x, s[..1]) by {
      assert s[..1] == [s[0]];
    }
  }

  lemma PlusExtend(p: seq<Atom>, x: char, s: string)
    requires p != [] && p[0] == PlusExcept(x)
    requires |s| > 0 && InClass(x, s[0])
    requires Lang(p, s[1..])
    ensures Lang(p, s)
  {
    var t := s[1..];
    var k :| 1 <= k <= |t| && AllInClass(x, t[..k]) && Lang(p[1..], t[k..]);
    assert AllInClass(x, s[..k + 1]) by {
      assert s[..k + 1] == [s[0]] + t[..k];
    }
    assert s[k + 1..] == t[k..];
  }

  /** The matcher decides the language: it is sound and complete. */
  lemma {:induction false} MatchDecidesLang(p: seq<Atom>, s: string)
    ensures Match(p, s) <==> Lang(p, s)
    decreases |p|, |s|
  {
    if p != [] {
      match p[0]
      case Lit(c) =>
        if |s| > 0 {
          MatchDecidesLang(p[1..], s[1..]);
        }
      case PlusExcept(x) =>
        if |s| > 0 && InClass(x, s[0]) {
          MatchDecidesLang(p[1..], s[1..]);
          MatchDecidesLang(p, s[1..]);
          PlusStep(p, x, s);
        }
    }
  }

  /** Number of occurrences of `c` in `s`. */
  function CountOf(c: char, s: string): (n: nat)
    ensures n == 0 <==> c !in s
    ensures n <= |s|
  {
    if s == [] then 0
    else (if s[0] == c then 1 else 0) + CountOf(c, s[1..])
  }

  /** Index of the first `c` in `s`, or `|s|` when there is none. */
  function IndexOf(c: char, s: string): (i: nat)
    ensures i <= |s|
    ensures i < |s| <==> c in s
    ensures i < |s| ==> s[i] == c
    ensures forall j :: 0 <= j < i ==> s[j] != c
  {
    if s == [] then 0
    else if s[0] == c then 0
    else 1 + IndexOf(c, s[1..])
  }

  /** `c` occurs exactly once exactly when its first occurrence is its only
      one. */
  lemma {:induction false} CountOneIff(c: char, s: string)
    ensures CountOf(c, s) == 1 <==>
            IndexOf(c, s) < |s| && forall k :: 0 <= k < |s| && s[k] == c ==> k == IndexOf(c, s)
  {
    if s != [] {
      var t := s[1..];
      if s[0] == c {
        assert forall k :: 1 <= k < |s| ==> s[k] == t[k - 1];
        if CountOf(c, t) != 0 {
          assert c in t;
          var k :| 0 <= k < |t| && t[k] == c;
          assert s[k + 1] == c;
        }
      } else {
        CountOneIff(c, t);
        assert forall k :: 1 <= k < |s| ==> s[k] == t[k - 1];
        if CountOf(c, s) == 1 {
          forall k | 0 <= k < |s| && s[k] == c
            ensures k == IndexOf(c, s)
          {
            assert t[k - 1] == c;
          }
        }
        if IndexOf(c, s) < |s| && forall k :: 0 <= k < |s| && s[k] == c ==> k == IndexOf(c, s) {
          forall k | 0 <= k < |t| && t[k] == c
            ensures k == IndexOf(c, t)
          {
            assert s[k + 1] == c;
          }
        }
      }
    }
  }

  /** The text before the first `@`. */
  function LocalPart(s: string): string
  {
    s[..IndexOf('@', s)]
  }

  /** The text after the first `@`, empty when there is no `@`. */
  function DomainPart(s: string): string
  {
    var i := IndexOf('@', s);
    if i < |s| then s[i + 1..] else []
  }

  /** `d` has a `.` that is neither its first nor its last character. */
  predicate HasInnerDot(d: string)
  {
    exists j :: 0 < j < |d| - 1 && d[j] == '.'
  }

  /** The plain description of an acceptable address: no whitespace, exactly
      one `@`, something before it, and a domain with an inner dot. */
  predicate WellFormedEmail(s: string)
  {
    && NoSpace(s)
    && CountOf('@', s) == 1
    && LocalPart(s) != []
    && HasInnerDot(DomainPart(s))
  }

  // The suffixes of the pattern, one atom shorter each time.
  const P1: seq<Atom> := [Lit('@'), PlusExcept('@'), Lit('.'), PlusExcept('@')]
  const P2: seq<Atom> := [PlusExcept('@'), Lit('.'), PlusExcept('@')]
  const P3: seq<Atom> := [Lit('.'), PlusExcept('@')]
  const P4: seq<Atom> := [PlusExcept('@')]

  /** `s` splits at an `@` at index `i` into a non-empty run before it and a
      run after it with an inner dot, neither run holding whitespace or `@`. */
  ghost predicate SplitsAt(s: string, i: int)
  {
    && 0 < i < |s| && s[i] == '@'
    && AllInClass('@', s[..i])
    && AllInClass('@', s[i + 1..])
    && HasInnerDot(s[i + 1..])
  }

  lemma LangP4(t: string)
    ensures Lang(P4, t) <==> |t| >= 1 && AllInClass('@', t)
  {
    assert P4[1..] == [];
    if |t| >= 1 && AllInClass('@', t) {
      assert t[..|t|] == t;
      assert t[|t|..] == [];
    }
  }

  lemma LangP3(t: string)
    ensures Lang(P3, t) <==> |t| >= 2 && t[0] == '.' && AllInClass('@', t[1..])
  {
    assert P3[1..] == P4;
    if |t| > 0 {
      LangP4(t[1..]);
    }
  }

  lemma LangP2(t: string)
    ensures Lang(P2, t) <==> AllInClass('@', t) && HasInnerDot(t)
  {
    if Lang(P2, t) {
      LangP2Sound(t);
    }
    if AllInClass('@', t) && HasInnerDot(t) {
      LangP2Complete(t);
    }
  }

  lemma LangP2Sound(t: string)
    requires Lang(P2, t)
    ensures AllInClass('@', t) && HasInnerDot(t)
  {
    assert P2[1..] == P3;
    var k :| 1 <= k <= |t| && AllInClass('@', t[..k]) && Lang(P3, t[k..]);
    LangP3(t[k..]);
    assert t[k] == '.';
    forall m | 0 <= m < |t|
      ensures InClass('@', t[m])
    {
      if m < k {
        assert t[..k][m] == t[m];
      } else if m > k {
        assert t[k..][1..][m - k - 1] == t[m];
      }
    }
  }

  lemma LangP2Complete(t: string)
    requires AllInClass('@', t) && HasInnerDot(t)
    ensures Lang(P2, t)
  {
    assert P2[1..] == P3;
    var j :| 0 < j < |t| - 1 && t[j] == '.';
    LangP3(t[j..]);
    assert t[j..][1..] == t[j + 1..];
    assert Lang(P3, t[j..]);
    assert AllInClass('@', t[..j]);
  }

  lemma LangP1(t: string)
    ensures Lang(P1, t) <==> |t| > 0 && t[0] == '@' && AllInClass('@', t[1..]) && HasInnerDot(t[1..])
  {
    assert P1[1..] == P2;
    if |t| > 0 {
      LangP2(t[1..]);
    }
  }

  lemma LangPatternSplits(s: string)
    ensures Lang(Pattern, s) <==> exists i :: SplitsAt(s, i)
  {
    assert Pattern[1..] == P1;
    if Lang(Pattern, s) {
      var k :| 1 <= k <= |s| && AllInClass('@', s[..k]) && Lang(P1, s[k..]);
      LangP1(s[k..]);
      assert s[k..][1..] == s[k + 1..];
      assert SplitsAt(s, k);
    }
    if exists i :: SplitsAt(s, i) {
      var i :| SplitsAt(s, i);
      LangP1(s[i..]);
      assert s[i..][1..] == s[i + 1..];
      assert Lang(P1, s[i..]);
    }
  }

  lemma WellFormedSplits(s: string)
    ensures WellFormedEmail(s) <==> exists i :: SplitsAt(s, i)
  {
    CountOneIff('@', s);
    if WellFormedEmail(s) {
      var i := IndexOf('@', s);
      assert AllInClass('@', s[..i]);
      assert DomainPart(s) == s[i + 1..];
      assert forall m :: i < m < |s| ==> InClass('@', s[m]);
      assert SplitsAt(s, i);
    }
    if exists i :: SplitsAt(s, i) {
      var i :| SplitsAt(s, i);
      forall m | 0 <= m < |s| && m != i
        ensures InClass('@', s[m])
      {
        if m < i {
          assert s[..i][m] == s[m];
        } else {
          assert s[i + 1..][m - i - 1] == s[m];
        }
      }
      assert IndexOf('@', s) == i;
      assert LocalPart(s) == s[..i];
      assert DomainPart(s) == s[i + 1..];
    }
  }

  /** The regular-expression matcher accepts exactly the well-formed
      addresses. */
  lemma MatchIffWellFormed(s: string)
    ensures Match(Pattern, s) <==> WellFormedEmail(s)
  {
    MatchDecidesLang(Pattern, s);
    LangPatternSplits(s);
    WellFormedSplits(s);
  }

  /** `emailPattern.test(s)` */
  function TestEmail(s: string): (ok: bool)
    ensures ok <==> WellFormedEmail(s)
  {
    MatchIffWellFormed(s);
    Match(Pattern, s)
  }
}
