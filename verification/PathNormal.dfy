/** Normalisation of URL paths: every spelling of a path parameter becomes `{var}`. */
module PathNormal {
  import opened Common
  import opened TemplateSubst

  // ---- The three rewritings and the two cuts ----

  /** First position at or after `i` that holds a closing brace or a slash. */
  function NameEnd(s: string, i: nat): (e: nat)
    requires i <= |s|
    ensures i <= e <= |s|
    decreases |s| - i
  {
    if i == |s| || s[i] == '}' || s[i] == '/' then i else NameEnd(s, i + 1)
  }

  /** End of the match of `\{[^}/]+\}` at `i`. */
  function MatchParam(s: string, i: nat): (r: Option<nat>)
    requires i < |s|
    ensures r.Some? ==> i < r.value <= |s|
  {
    if s[i] == '{' then
      var e := NameEnd(s, i + 1);
      if i + 1 < e < |s| && s[e] == '}' then Some(e + 1) else None
    else None
  }

  function ParamsReplaced(s: string, i: nat): string
    requires i <= |s|
    decreases |s| - i
  {
    if i == |s| then ""
    else
      match MatchParam(s, i)
      case Some(e) => "{var}" + ParamsReplaced(s, e)
      case None => [s[i]] + ParamsReplaced(s, i + 1)
  }

  lemma NameKept(s: string, i: nat)
    requires i < |s| && MatchParam(s, i) == None
    ensures ParamsReplaced(s, i) == [s[i]] + ParamsReplaced(s, i + 1)
  {
  }

  lemma NameReplaced(s: string, i: nat, e: nat)
    requires i < |s| && MatchParam(s, i) == Some(e)
    ensures ParamsReplaced(s, i) == "{var}" + ParamsReplaced(s, e)
  {
  }

  lemma {:induction false} NameEndsBefore(s: string, i: nat, k: nat)
    requires i <= k < |s| && (s[k] == '/' || s[k] == '}')
    ensures NameEnd(s, i) <= k && (s[NameEnd(s, i)] == '/' || s[NameEnd(s, i)] == '}')
    decreases k - i
  {
    if i < k && s[i] != '}' && s[i] != '/' {
      NameEndsBefore(s, i + 1, k);
    }
  }

  lemma {:induction false} SlashKept(s: string, i: nat, k: nat)
    requires i <= k < |s| && s[k] == '/'
    ensures '/' in ParamsReplaced(s, i)
    decreases k - i
  {
    hide ParamsReplaced, NameEnd;
    if i < k {
      NameEndsBefore(s, i + 1, k);
    }
    match MatchParam(s, i)
    case Some(e) =>
      SlashKept(s, e, k);
      NameReplaced(s, i, e);
    case None =>
      NameKept(s, i);
      if i < k {
        SlashKept(s, i + 1, k);
      }
  }

  lemma {:induction false} NameRuns(s: string, i: nat, e: nat)
    requires i <= e < |s| && s[e] == '}' && forall k :: i <= k < e ==> s[k] != '}' && s[k] != '/'
    ensures NameEnd(s, i) == e
    decreases e - i
  {
    if i < e {
      NameRuns(s, i + 1, e);
    }
  }

  /** One parameter becomes exactly `{var}` if and only if its name is not empty and holds neither slash nor closing
      brace. */
  lemma SingleParamIff(x: string)
    ensures ParamsReplaced("{" + x + "}", 0) == "{var}" <==> x != "" && Lacks(x, '/') && Lacks(x, '}')
  {
    hide ParamsReplaced, NameEnd;
    var s := "{" + x + "}";
    assert s[0] == '{' && s[|s| - 1] == '}' && forall k :: 0 <= k < |x| ==> s[1 + k] == x[k];
    if k: nat :| k < |x| && x[k] == '/' {
      SlashKept(s, 0, 1 + k);
    } else if x == "" || x[0] == '}' {
      NameEndsBefore(s, 1, 1);
      NameKept(s, 0);
      NameKept(s, 1);
      assert ParamsReplaced(s, 0)[1] == '}';
    } else if k: nat :| k < |x| && x[k] == '}' {
      NameEndsBefore(s, 1, 1 + k);
      NameStarts(s, 1);
      ClosedEarly(s, 1 + k);
    } else {
      NameRuns(s, 1, |s| - 1);
      NameReplaced(s, 0, |s|);
      NamesEnd(s);
    }
  }

  lemma NamesEnd(s: string)
    ensures ParamsReplaced(s, |s|) == ""
    ensures forall i :: 0 <= i < |s| ==> ParamsReplaced(s, i) != ""
  {
  }

  lemma NameStarts(s: string, i: nat)
    requires i < |s| && s[i] != '}' && s[i] != '/'
    ensures NameEnd(s, i) > i
  {
  }

  lemma ClosedEarly(s: string, k: nat)
    requires 2 <= |s| && k < |s| - 1 && s[0] == '{' && 1 < NameEnd(s, 1) <= k && s[NameEnd(s, 1)] == '}'
    ensures ParamsReplaced(s, 0) != "{var}"
  {
    hide ParamsReplaced, NameEnd;
    NamesEnd(s);
    NameReplaced(s, 0, NameEnd(s, 1) + 1);
    assert |ParamsReplaced(s, 0)| > |"{var}"|;
  }

  /** The zeros of the decimal digits beyond ASCII, as of Unicode 14. */
  const ZEROS: seq<int> := [
    0x660, 0x6F0, 0x7C0, 0x966, 0x9E6, 0xA66, 0xAE6, 0xB66, 0xBE6, 0xC66, 0xCE6, 0xD66,
    0xDE6, 0xE50, 0xED0, 0xF20, 0x1040, 0x1090, 0x17E0, 0x1810, 0x1946, 0x19D0, 0x1A80, 0x1A90,
    0x1B50, 0x1BB0, 0x1C40, 0x1C50, 0xA620, 0xA8D0, 0xA900, 0xA9D0, 0xA9F0, 0xAA50, 0xABF0, 0xFF10,
    0x104A0, 0x10D30, 0x11066, 0x110F0, 0x11136, 0x111D0, 0x112F0, 0x11450, 0x114D0, 0x11650, 0x116C0, 0x11730,
    0x118E0, 0x11950, 0x11C50, 0x11D50, 0x11DA0, 0x16A60, 0x16AC0, 0x16B50, 0x1D7CE, 0x1D7D8, 0x1D7E2, 0x1D7EC,
    0x1D7F6, 0x1E140, 0x1E2F0, 0x1E950, 0x1FBF0
  ]

  /** The decimal digits that `\d` stands for. */
  predicate IsDigit(c: char) {
    if c < '\U{80}' then '0' <= c <= '9'
    else exists k | 0 <= k < |ZEROS| :: ZEROS[k] <= c as int < ZEROS[k] + 10
  }

  /** The digits of ASCII, written out. */
  lemma AsciiDigitIff(c: char)
    requires c < '\U{80}'
    ensures IsDigit(c) <==> c in DIGITS
  {
    DigitIff(c);
  }

  /** The digit for `d` of the `k`-th block. */
  predicate DigitAt(c: char, k: nat, d: nat)
    requires k < |ZEROS|
  {
    d < 10 && c as int == ZEROS[k] + d
  }

  /** Beyond ASCII a digit is one of the ten of some block. */
  lemma OtherDigitIff(c: char)
    requires c >= '\U{80}'
    ensures IsDigit(c) <==> exists k: nat, d: nat :: k < |ZEROS| && DigitAt(c, k, d)
  {
    if k :| 0 <= k < |ZEROS| && ZEROS[k] <= c as int < ZEROS[k] + 10 {
      assert DigitAt(c, k, c as int - ZEROS[k]);
    }
  }

  function DigitsEnd(s: string, i: nat): (e: nat)
    requires i <= |s|
    ensures i <= e <= |s|
    ensures e < |s| ==> !IsDigit(s[e])
    decreases |s| - i
  {
    if i < |s| && IsDigit(s[i]) then DigitsEnd(s, i + 1) else i
  }

  /** End of the match of `/\d+(?=/|$)` at `i`; `$` also holds before a final newline. */
  function MatchNumber(s: string, i: nat): (r: Option<nat>)
    requires i < |s|
    ensures r.Some? ==> i + 1 < r.value <= |s|
  {
    if s[i] == '/' then
      var e := DigitsEnd(s, i + 1);
      if i + 1 < e && (e == |s| || s[e] == '/' || (e + 1 == |s| && s[e] == '\n')) then Some(e) else None
    else None
  }

  function NumbersReplaced(s: string, i: nat): string
    requires i <= |s|
    decreases |s| - i
  {
    if i == |s| then ""
    else
      match MatchNumber(s, i)
      case Some(e) => "/{var}" + NumbersReplaced(s, e)
      case None => [s[i]] + NumbersReplaced(s, i + 1)
  }

  lemma NumbersEnd(s: string)
    ensures NumbersReplaced(s, |s|) == ""
  {
  }

  lemma NoNumberHere(s: string, i: nat)
    requires i < |s| && MatchNumber(s, i) == None
    ensures NumbersReplaced(s, i) == [s[i]] + NumbersReplaced(s, i + 1)
  {
  }

  lemma NumberHere(s: string, i: nat, e: nat)
    requires i < |s| && MatchNumber(s, i) == Some(e)
    ensures NumbersReplaced(s, i) == "/" + ("{var}" + NumbersReplaced(s, e))
  {
    hide MatchNumber;
    assert "/{var}" == "/" + "{var}";
  }

  /** The part of `s` before the first `c`. */
  function Before(s: string, c: char): string {
    s[..IndexOf(s, 0, c)]
  }

  // ---- Rewriting until stable ----

  function Dollars(s: string): nat {
    if s == "" then 0 else (if s[0] == '$' then 1 else 0) + Dollars(s[1..])
  }

  lemma {:induction false} DollarsAppend(x: string, y: string)
    ensures Dollars(x + y) == Dollars(x) + Dollars(y)
    decreases |x|
  {
    if x == "" {
      assert x + y == y;
    } else {
      assert (x + y)[1..] == x[1..] + y;
      DollarsAppend(x[1..], y);
    }
  }

  lemma VarHasNoDollar()
    ensures Dollars("{var}") == 0
  {
    assert "{var}"[1..] == "var}" && "var}"[1..] == "ar}" && "ar}"[1..] == "r}" && "r}"[1..] == "}";
  }

  lemma HasDollar(x: string)
    requires x != "" && x[0] == '$'
    ensures Dollars(x) > 0
  {
  }

  /** A pass changes nothing, or leaves fewer dollar signs. */
  lemma {:induction false} FewerDollars(s: string, i: nat)
    requires i <= |s|
    ensures Substituted(s, i) == s[i..] || Dollars(Substituted(s, i)) < Dollars(s[i..])
    decreases |s| - i
  {
    hide Substituted, MatchTemplate, Dollars;
    if i == |s| {
      SubstitutedEnd(s);
    } else {
      match MatchTemplate(s, i)
      case Some(e) =>
        FewerDollars(s, e);
        ReplacedHere(s, i, e);
        assert s[i..] == s[i..e] + s[e..];
        DollarsAppend(s[i..e], s[e..]);
        DollarsAppend("{var}", Substituted(s, e));
        VarHasNoDollar();
        HasDollar(s[i..e]);
      case None =>
        FewerDollars(s, i + 1);
        KeptHere(s, i);
        assert s[i..] == [s[i]] + s[i + 1..];
        DollarsAppend([s[i]], s[i + 1..]);
        DollarsAppend([s[i]], Substituted(s, i + 1));
    }
  }

  /** What the passes arrive at. */
  function Stable(s: string): (r: string)
    ensures Subst(r) == r
    decreases Dollars(s)
  {
    if Subst(s) == s then s
    else
      FewerDollars(s, 0);
      assert s[0..] == s;
      Stable(Subst(s))
  }

  /** What the template passes start from. */
  function Prepared(path: string): string {
    ParamsReplaced(Before(Before(path, '?'), '#'), 0)
  }

  function Normalize(path: string): string {
    NumbersReplaced(Stable(Prepared(path)), 0)
  }

  /** The loop runs until a pass changes nothing, and always ends. */
  method NormalizePath(path: string) returns (r: string)
    ensures r == Normalize(path)
  {
    if path == "" {
      return path;
    }
    var p := Before(path, '?');
    p := Before(p, '#');
    p := ParamsReplaced(p, 0);
    ghost var start := p;
    var prev: Option<string> := None;
    while prev != Some(p)
      invariant Stable(start) == Stable(p)
      invariant prev.Some? ==> p == Subst(prev.value)
      decreases Dollars(p), if prev == Some(p) then 0 else 1
    {
      FewerDollars(p, 0);
      assert p[0..] == p;
      prev := Some(p);
      p := Subst(p);
    }
    r := NumbersReplaced(p, 0);
  }

  /** A single template pass would do exactly when no dollar sign that it keeps stands directly before a template. */
  lemma OnePassEnoughIff(path: string)
    ensures Stable(Prepared(path)) == Subst(Prepared(path)) <==> NoDollarBeforeHole(Prepared(path), 0)
  {
    var p := Prepared(path);
    OnePassIff(p, 0);
    StableAfter(p);
  }

  lemma StableAfter(p: string)
    ensures Stable(p) == Stable(Subst(p))
    ensures Stable(p) == Subst(p) <==> Subst(Subst(p)) == Subst(p)
  {
  }

  lemma OnceReplaced()
    ensures Prepared("/$${id}") == "/$${var}"
  {
    assert Before(Before("/$${id}", '?'), '#') == "/$${id}";
  }

  lemma {:induction false} NoSlashNoNumber(s: string, i: nat)
    requires i <= |s| && forall k :: i <= k < |s| ==> s[k] != '/'
    ensures NumbersReplaced(s, i) == s[i..]
    decreases |s| - i
  {
    hide NumbersReplaced;
    if i < |s| {
      NoSlashNoNumber(s, i + 1);
      NoNumberHere(s, i);
    } else {
      NumbersEnd(s);
    }
  }

  lemma NoNumber(x: string)
    requires x != "" && !IsDigit(x[0]) && forall k :: 0 <= k < |x| ==> x[k] != '/'
    ensures NumbersReplaced("/" + x, 0) == "/" + x
  {
    hide NumbersReplaced;
    var s := "/" + x;
    assert s[1] == x[0] && forall k :: 1 <= k < |s| ==> s[k] == x[k - 1];
    NoNumberHere(s, 0);
    NoSlashNoNumber(s, 1);
    assert s[1..] == x;
  }

  lemma TwicePassed()
    ensures Subst("/$${var}") == "/${var}" && Stable("/$${var}") == "/{var}"
  {
    assert Subst("/${var}") == "/{var}" && Subst("/{var}") == "/{var}";
  }

  /** A path on which the second pass is needed. */
  lemma OnePassIsNotEnough()
    ensures Normalize("/$${id}") == "/{var}" && NumbersReplaced(Subst(Prepared("/$${id}")), 0) == "/${var}"
  {
    hide Prepared, Subst, Stable, NumbersReplaced;
    OnceReplaced();
    TwicePassed();
    assert "/{var}" == "/" + "{var}" && "/${var}" == "/" + "${var}";
    NoNumber("{var}");
    NoNumber("${var}");
  }
}
