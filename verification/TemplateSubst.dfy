/** The substitution of `${expr}` by `{var}`, as the regular expression `\$\{[^}]+\}` performs it. */
module TemplateSubst {
  import opened Common

  /** First position at or after `i` that holds `c`; `|s|` when there is none. */
  function IndexOf(s: string, i: nat, c: char): (e: nat)
    requires i <= |s|
    ensures i <= e <= |s|
    ensures e < |s| ==> s[e] == c
    decreases |s| - i
  {
    if i == |s| || s[i] == c then i else IndexOf(s, i + 1, c)
  }

  /** End of the match that starts at `i`: `${`, at least one character, and the first `}`. */
  function MatchTemplate(s: string, i: nat): (r: Option<nat>)
    ensures r.Some? ==> i + 4 <= r.value <= |s| && s[i] == '$' && s[r.value - 1] == '}'
  {
    if i + 2 <= |s| && s[i] == '$' && s[i + 1] == '{' then
      var e := IndexOf(s, i + 2, '}');
      if i + 2 < e < |s| then Some(e + 1) else None
    else None
  }

  /** Every leftmost non-overlapping match at or after `i` is replaced. */
  function Substituted(s: string, i: nat): string
    requires i <= |s|
    decreases |s| - i
  {
    if i == |s| then ""
    else
      match MatchTemplate(s, i)
      case Some(e) => "{var}" + Substituted(s, e)
      case None => [s[i]] + Substituted(s, i + 1)
  }

  function Subst(s: string): string {
    Substituted(s, 0)
  }

  lemma {:induction false} IndexOfFirst(s: string, i: nat, c: char, e: nat)
    requires i <= e < |s| && s[e] == c
    requires forall k :: i <= k < e ==> s[k] != c
    ensures IndexOf(s, i, c) == e
    decreases e - i
  {
    if i < e {
      IndexOfFirst(s, i + 1, c, e);
    }
  }

  lemma {:induction false} IndexOfShift(p: string, rest: string, c: char, j: nat)
    requires j <= |rest|
    ensures IndexOf(p + rest, |p| + j, c) == |p| + IndexOf(rest, j, c)
    decreases |rest| - j
  {
    if j < |rest| && rest[j] != c {
      IndexOfShift(p, rest, c, j + 1);
    }
  }

  lemma KeptHere(s: string, i: nat)
    requires i < |s| && MatchTemplate(s, i).None?
    ensures Substituted(s, i) == [s[i]] + Substituted(s, i + 1)
  {
  }

  lemma ReplacedHere(s: string, i: nat, e: nat)
    requires i < |s| && MatchTemplate(s, i) == Some(e)
    ensures Substituted(s, i) == "{var}" + Substituted(s, e)
  {
  }

  lemma {:induction false} SubstitutedLonger(s: string, i: nat)
    requires i < |s|
    ensures Substituted(s, i) != ""
  {
  }

  /** One template expression becomes exactly `{var}` if and only if it is non-empty and holds no closing brace. */
  lemma SingleTemplateIff(expr: string)
    ensures Subst("${" + expr + "}") == "{var}" <==> expr != "" && '}' !in expr
  {
    var s := "${" + expr + "}";
    assert |s| == |expr| + 3 && s[0] == '$' && s[1] == '{' && s[|s| - 1] == '}';
    assert forall k :: 0 <= k < |expr| ==> s[2 + k] == expr[k];
    var e := IndexOf(s, 2, '}');
    if expr != "" && '}' !in expr {
      IndexOfFirst(s, 2, '}', |s| - 1);
      assert MatchTemplate(s, 0) == Some(|s|) && Substituted(s, |s|) == "";
    } else if expr != "" {
      var k :| 0 <= k < |expr| && expr[k] == '}';
      EarlyBrace(s, 2, 2 + k);
      if e > 2 {
        SubstitutedLonger(s, e + 1);
        assert Subst(s) == "{var}" + Substituted(s, e + 1) && |Subst(s)| > |"{var}"|;
      } else {
        assert Subst(s)[0] == '$';
      }
    } else {
      assert Subst(s)[0] == '$';
    }
  }

  lemma {:induction false} EarlyBrace(s: string, i: nat, k: nat)
    requires i <= k < |s| && s[k] == '}'
    ensures IndexOf(s, i, '}') <= k
    decreases k - i
  {
    if s[i] != '}' {
      EarlyBrace(s, i + 1, k);
    }
  }

  // ---- One pass or more ----

  /** No dollar sign that the scan keeps, from `i` on, stands directly before an expression that it replaces. */
  predicate NoDollarBeforeHole(s: string, i: nat)
    requires i <= |s|
    decreases |s| - i
  {
    i == |s| ||
    match MatchTemplate(s, i)
    case Some(e) => NoDollarBeforeHole(s, e)
    case None => !(s[i] == '$' && MatchTemplate(s, i + 1).Some?) && NoDollarBeforeHole(s, i + 1)
  }

  lemma MatchShift(x: string, r: string, j: nat)
    requires j <= |r|
    ensures MatchTemplate(x + r, |x| + j)
         == match MatchTemplate(r, j) case None => None case Some(e) => Some(|x| + e)
  {
    hide IndexOf;
    assert forall k :: 0 <= k < |r| ==> (x + r)[|x| + k] == r[k];
    if j + 2 <= |r| {
      IndexOfShift(x, r, '}', j + 2);
    }
  }

  /** The pass over the rest of a text does not look back. */
  lemma {:induction false} SubstShift(x: string, r: string, j: nat)
    requires j <= |r|
    ensures Substituted(x + r, |x| + j) == Substituted(r, j)
    decreases |r| - j
  {
    hide MatchTemplate;
    if j < |r| {
      MatchShift(x, r, j);
      match MatchTemplate(r, j)
      case Some(e) => SubstShift(x, r, e);
      case None =>
        assert (x + r)[|x| + j] == r[j];
        SubstShift(x, r, j + 1);
    }
  }

  /** A character that starts no match is kept in front of what the rest becomes. */
  lemma SubstCons(c: char, r: string)
    requires MatchTemplate([c] + r, 0).None?
    ensures Subst([c] + r) == [c] + Subst(r)
  {
    KeptHere([c] + r, 0);
    SubstShift([c], r, 0);
  }

  lemma SubstVar(r: string)
    ensures Subst("{var}" + r) == "{var}" + Subst(r)
  {
    hide Subst;
    var r1 := "}" + r;
    var r2 := "r" + r1;
    var r3 := "a" + r2;
    var r4 := "v" + r3;
    assert "{var}" + r == "{" + r4;
    SubstCons('{', r4);
    SubstCons('v', r3);
    SubstCons('a', r2);
    SubstCons('r', r1);
    SubstCons('}', r);
    assert "{var}" + Subst(r) == "{" + ("v" + ("a" + ("r" + ("}" + Subst(r)))));
  }

  /** Without a closing brace nothing is replaced. */
  lemma {:induction false} NothingCloses(s: string, i: nat)
    requires i <= |s| && IndexOf(s, i, '}') == |s|
    ensures Substituted(s, i) == s[i..]
    decreases |s| - i
  {
    if i < |s| {
      NothingCloses(s, i + 1);
      ClosesNowhere(s, i);
      KeptHere(s, i);
    }
  }

  lemma {:induction false} IndexOfLater(s: string, i: nat, j: nat, c: char)
    requires i <= j <= |s| && IndexOf(s, i, c) == |s|
    ensures IndexOf(s, j, c) == |s|
    decreases j - i
  {
    if i < j {
      IndexOfLater(s, i + 1, j, c);
    }
  }

  lemma ClosesNowhere(s: string, i: nat)
    requires i <= |s| && IndexOf(s, i, '}') == |s|
    ensures MatchTemplate(s, i).None?
  {
    if i + 2 <= |s| {
      IndexOfLater(s, i, i + 2, '}');
    }
  }

  /** A kept dollar sign starts no match after the pass unless a replaced expression follows it. */
  lemma DollarKept(s: string, i: nat)
    requires i < |s| && s[i] == '$' && MatchTemplate(s, i).None? && MatchTemplate(s, i + 1).None?
    ensures MatchTemplate("$" + Substituted(s, i + 1), 0).None?
  {
    hide Substituted;
    if i + 1 < |s| {
      KeptHere(s, i + 1);
      if s[i + 1] == '{' {
        OpenKept(s, i);
      }
    } else {
      SubstitutedEnd(s);
    }
  }

  lemma SubstitutedEnd(s: string)
    ensures Substituted(s, |s|) == ""
  {
  }

  /** An opening `${` that starts no match is empty or never closed, and stays so. */
  lemma OpenKept(s: string, i: nat)
    requires i + 1 < |s| && s[i] == '$' && s[i + 1] == '{' && MatchTemplate(s, i).None?
    ensures MatchTemplate("$" + Substituted(s, i + 1), 0).None?
  {
    hide Substituted;
    KeptHere(s, i + 1);
    if i + 2 < |s| && s[i + 2] == '}' {
      KeptHere(s, i + 2);
      assert ("$" + Substituted(s, i + 1))[2] == '}';
    } else {
      NothingCloses(s, i + 1);
      assert "$" + s[i + 1..] == s[i..] && s == s[..i] + s[i..];
      MatchShift(s[..i], s[i..], 0);
    }
  }

  /** What a kept dollar sign and a replaced expression leave is replaced by the next pass. */
  lemma DollarReplaced(r: string)
    ensures Subst("$" + ("{var}" + r)) != "$" + ("{var}" + r)
  {
    var t := "$" + ("{var}" + r);
    assert t[0] == '$' && t[1] == '{' && t[5] == '}' && t[2] == 'v' && t[3] == 'a' && t[4] == 'r';
    IndexOfFirst(t, 2, '}', 5);
    assert Substituted(t, 0)[0] == '{';
  }

  lemma NothingSubstituted()
    ensures Subst("") == ""
  {
  }

  /** A second pass changes nothing exactly when no kept dollar sign stands directly before a replaced expression. */
  lemma {:induction false} OnePassIff(s: string, i: nat)
    requires i <= |s|
    ensures Subst(Substituted(s, i)) == Substituted(s, i) <==> NoDollarBeforeHole(s, i)
    decreases |s| - i
  {
    hide MatchTemplate, Subst;
    if i == |s| {
      NothingSubstituted();
    } else {
      match MatchTemplate(s, i)
      case Some(e) =>
        OnePassIff(s, e);
        SubstVar(Substituted(s, e));
        SameFront("{var}", Subst(Substituted(s, e)), Substituted(s, e));
      case None =>
        var r := Substituted(s, i + 1);
        KeptHere(s, i);
        OnePassIff(s, i + 1);
        if s[i] == '$' && MatchTemplate(s, i + 1).Some? {
          DollarReplaced(Substituted(s, MatchTemplate(s, i + 1).value));
        } else {
          KeptStarts(s, i);
          SubstCons(s[i], r);
          SameFront([s[i]], Subst(r), r);
        }
    }
  }

  lemma KeptStarts(s: string, i: nat)
    requires i < |s| && MatchTemplate(s, i).None? && (s[i] == '$' ==> MatchTemplate(s, i + 1).None?)
    ensures MatchTemplate([s[i]] + Substituted(s, i + 1), 0).None?
  {
    if s[i] == '$' {
      DollarKept(s, i);
    }
  }

  lemma SameFront(x: string, y: string, z: string)
    ensures x + y == x + z <==> y == z
  {
    assert (x + y)[|x|..] == y && (x + z)[|x|..] == z;
  }
}
